// One address's admissions, in order: windows that do not overlap, each within its budget.

module CspHistory {
  import opened Prelude
  import opened CspEntry
  import opened CspProtocol

  ghost predicate InWindow(a: Admission) {
    a.start <= a.at < a.start + WINDOW
  }

  /** `b` comes after `a`: in the same window, or in one that begins once `a`'s is over. */
  ghost predicate Follows(a: Admission, b: Admission) {
    a.at <= b.at && (a.start == b.start || a.start + WINDOW <= b.start)
  }

  /** The `i`-th admission opens its window, or is counted in the one before it. */
  ghost predicate Opened(h: seq<Admission>, i: nat)
    requires i < |h|
  {
    (0 < i && h[i - 1].start == h[i].start) || h[i].at == h[i].start
  }

  /** The window of the `i`-th admission does not also hold the MAX_REPORTS that follow. */
  ghost predicate Budgeted(h: seq<Admission>, i: nat) {
    i + MAX_REPORTS < |h| ==> h[i].start != h[i + MAX_REPORTS].start
  }

  /** The admissions of one address fall in windows that do not overlap, each opened by its
      first admission and holding at most MAX_REPORTS. */
  ghost predicate GoodHistory(h: seq<Admission>) {
    && (forall i :: 0 <= i < |h| ==> InWindow(h[i]))
    && (forall i, j :: 0 <= i < j < |h| ==> Follows(h[i], h[j]))
    && (forall i :: 0 <= i < |h| ==> Opened(h, i))
    && (forall i :: 0 <= i < |h| ==> Budgeted(h, i))
  }

  /** `row` counts exactly the admissions of the last window. */
  ghost predicate RowMatches(row: Row, h: seq<Admission>) {
    && 1 <= row.requests <= MAX_REPORTS
    && row.requests <= |h|
    && (forall i :: 0 <= i < |h| ==> (h[i].start == row.start <==> |h| - row.requests <= i))
  }

  /** Every window of `h` is over at `now`. */
  ghost predicate Over(h: seq<Admission>, now: nat) {
    h == [] || h[|h| - 1].start + WINDOW <= now
  }

  ghost predicate NotAfter(h: seq<Admission>, now: nat) {
    h == [] || h[|h| - 1].at <= now
  }

  lemma Extend(h: seq<Admission>, x: Admission)
    requires GoodHistory(h) && InWindow(x)
    requires h != [] ==> Follows(h[|h| - 1], x)
    requires Opened(h + [x], |h|)
    requires |h| >= MAX_REPORTS ==> h[|h| - MAX_REPORTS].start != x.start
    ensures GoodHistory(h + [x])
  {
    var h' := h + [x];
    forall i | 0 <= i < |h| ensures Follows(h'[i], x) {
      assert i == |h| - 1 || Follows(h[i], h[|h| - 1]);
      assert InWindow(h[i]);
    }
    forall i | 0 <= i < |h'| ensures Opened(h', i) && Budgeted(h', i) {
      assert i < |h| ==> Opened(h, i) && Budgeted(h, i);
    }
  }

  lemma AppendOver(h: seq<Admission>, now: nat)
    requires GoodHistory(h) && Over(h, now)
    ensures var h' := h + [Admission(now, now)];
            GoodHistory(h') && RowMatches(First(now), h')
  {
    var x := Admission(now, now);
    if h != [] {
      var last := h[|h| - 1];
      assert InWindow(last);
      forall i | 0 <= i < |h| ensures h[i].start < now {
        assert i == |h| - 1 || Follows(h[i], last);
      }
    }
    Extend(h, x);
  }

  lemma AppendInWindow(h: seq<Admission>, row: Row, now: nat)
    requires GoodHistory(h) && RowMatches(row, h) && NotAfter(h, now)
    requires AdmitRow(row, now).1.Allow?
    ensures var entry := AdmitRow(row, now).0;
            var h' := h + [Admission(now, entry.start)];
            GoodHistory(h') && RowMatches(entry, h')
  {
    var last := h[|h| - 1];
    assert last.start == row.start;
    if row.IsStale(now) {
      AppendOver(h, now);
    } else {
      assert InWindow(last);
      Extend(h, Admission(now, row.start));
    }
  }
}
