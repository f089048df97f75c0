// The sliding-window limits shared by every replica: the pure rule, and the store protocol
// that runs it on one shared table.

module SlidingWindow {
  import opened Prelude

  /** At most `limit` admissions per `window`, sliding. */
  datatype Rule = Rule(limit: nat, window: nat)

  /** The admissions of `log` still inside the window at `now`, in order. */
  function Inside(log: seq<nat>, window: nat, now: nat): seq<nat> {
    if log == [] then []
    else (if Since(now, log[0]) < window then [log[0]] else []) + Inside(log[1..], window, now)
  }

  function AdmitLog(rule: Rule, log: seq<nat>, now: nat): (seq<nat>, bool) {
    var kept := Inside(log, rule.window, now);
    if |kept| >= rule.limit then (kept, false) else (kept + [now], true)
  }

  /** Every admission of `log` left the window at `now`. */
  predicate Forgets(log: seq<nat>, window: nat, now: nat) {
    forall at :: at in log ==> Since(now, at) >= window
  }

  lemma {:induction false} InsideAppend(log: seq<nat>, at: nat, window: nat, now: nat)
    ensures Inside(log + [at], window, now)
         == Inside(log, window, now) + (if Since(now, at) < window then [at] else [])
  {
    if log == [] {
      assert log + [at] == [at];
      assert [at][1..] == [];
    } else {
      assert (log + [at])[1..] == log[1..] + [at];
      InsideAppend(log[1..], at, window, now);
    }
  }

  /** One subject's log, worked on in place. */
  class AdmissionLog {
    var log: seq<nat>

    constructor (stored: seq<nat>)
      ensures log == stored
    {
      log := stored;
    }

    method Retain(window: nat, now: nat)
      modifies this
      ensures log == Inside(old(log), window, now)
    {
      var kept, i := [], 0;
      while i < |log|
        invariant 0 <= i <= |log|
        invariant log == old(log)
        invariant kept == Inside(log[..i], window, now)
      {
        assert log[..i + 1] == log[..i] + [log[i]];
        InsideAppend(log[..i], log[i], window, now);
        if Since(now, log[i]) < window {
          kept := kept + [log[i]];
        }
        i := i + 1;
      }
      assert log[..i] == log;
      log := kept;
    }

    method Admit(rule: Rule, now: nat) returns (admitted: bool)
      modifies this
      ensures (log, admitted) == AdmitLog(rule, old(log), now)
    {
      Retain(rule.window, now);
      if |log| >= rule.limit {
        return false;
      }
      log := log + [now];
      return true;
    }
  }

  lemma {:induction false} InsideMember(log: seq<nat>, window: nat, now: nat, at: nat)
    ensures at in Inside(log, window, now) <==> at in log && Since(now, at) < window
  {
    if log != [] {
      InsideMember(log[1..], window, now, at);
      assert at in log <==> at == log[0] || at in log[1..];
    }
  }

  lemma {:induction false} InsideOccurrences(log: seq<nat>, window: nat, now: nat, at: nat)
    ensures multiset(Inside(log, window, now))[at] == if Since(now, at) < window then multiset(log)[at] else 0
  {
    if log != [] {
      InsideOccurrences(log[1..], window, now, at);
      assert log == [log[0]] + log[1..];
    }
  }

  /** A trimmed log holds exactly the admissions inside the window, as often as they were
      recorded, and the request if it is admitted, which leaves at most `limit` of them. */
  lemma AdmitKeepsExactlyTheWindow(rule: Rule, log: seq<nat>, now: nat, at: nat)
    ensures var (log', admitted) := AdmitLog(rule, log, now);
            && multiset(log')[at] == (if Since(now, at) < rule.window then multiset(log)[at] else 0)
                                   + (if admitted && at == now then 1 else 0)
            && (admitted ==> |log'| <= rule.limit)
            && (admitted <==> |Inside(log, rule.window, now)| < rule.limit)
  {
    InsideOccurrences(log, rule.window, now, at);
  }

  /** A log in order stays in order. */
  lemma AdmitKeepsOrder(rule: Rule, log: seq<nat>, now: nat)
    requires Sorted(log) && forall at :: at in log ==> at <= now
    ensures Sorted(AdmitLog(rule, log, now).0)
  {
    InsideIsSuffix(log, rule.window, now);
    forall i | 0 <= i < |log| ensures log[i] <= now {
      assert log[i] in log;
    }
  }

  /** Only a limit of zero leaves an empty log behind, which is the one case in which the
      store deletes the subject's own row. */
  lemma EmptyOnlyAtZeroLimit(rule: Rule, log: seq<nat>, now: nat)
    ensures AdmitLog(rule, log, now).0 == [] <==> rule.limit == 0 && Forgets(log, rule.window, now)
  {
    forall at ensures at in Inside(log, rule.window, now) <==> at in log && Since(now, at) < rule.window {
      InsideMember(log, rule.window, now, at);
    }
    var kept := Inside(log, rule.window, now);
    if kept != [] {
      assert kept[0] in kept;
    }
  }

  // ---- The SQL form of forgetting ------------------------------------------------------------

  function MaxOf(log: seq<nat>): (newest: nat)
    requires log != []
    ensures newest in log && forall at :: at in log ==> at <= newest
  {
    if |log| == 1 then log[0]
    else
      var rest := MaxOf(log[1..]);
      assert forall at :: at in log ==> at == log[0] || at in log[1..];
      if log[0] >= rest then log[0] else rest
  }

  /** `(SELECT max(a) FROM unnest(admitted) AS a) <= now - window`; the maximum of no
      admission is NULL, which no comparison accepts. */
  predicate SqlForgets(log: seq<nat>, window: nat, now: nat) {
    log != [] && MaxOf(log) + window <= now
  }

  /** The SQL test equals `Forgets` on a non-empty log of a positive window, and only there:
      an empty log is forgotten by the rule and kept by the test. */
  lemma SqlTestIsForgets(log: seq<nat>, window: nat, now: nat)
    requires window > 0
    ensures (SqlForgets(log, window, now) <==> Forgets(log, window, now)) <==> log != []
  {
    if log != [] {
      assert MaxOf(log) in log;
    }
  }

  // ---- Sorted logs -----------------------------------------------------------------------------

  lemma {:induction false} InsideAll(log: seq<nat>, window: nat, now: nat)
    requires forall at :: at in log ==> Since(now, at) < window
    ensures Inside(log, window, now) == log
  {
    if log != [] {
      InsideAll(log[1..], window, now);
    }
  }

  /** The window holds the admissions from the `cut`-th on, and none before. */
  ghost predicate CutsAt(log: seq<nat>, window: nat, now: nat, cut: nat) {
    && cut <= |log|
    && (forall i :: 0 <= i < cut ==> Since(now, log[i]) >= window)
    && (forall i :: cut <= i < |log| ==> Since(now, log[i]) < window)
  }

  lemma {:induction false} CutOf(log: seq<nat>, window: nat, now: nat) returns (cut: nat)
    requires Sorted(log)
    ensures CutsAt(log, window, now, cut)
  {
    cut := |log|;
    while cut > 0 && Since(now, log[cut - 1]) < window
      invariant cut <= |log|
      invariant forall i :: cut <= i < |log| ==> Since(now, log[i]) < window
    {
      cut := cut - 1;
    }
    forall i | 0 <= i < cut ensures Since(now, log[i]) >= window {
      assert i == cut - 1 || log[i] <= log[cut - 1];
    }
  }

  lemma {:induction false} InsideFrom(log: seq<nat>, window: nat, now: nat, cut: nat)
    requires CutsAt(log, window, now, cut)
    ensures Inside(log, window, now) == log[cut..]
    decreases cut
  {
    if cut == 0 {
      InsideAll(log, window, now);
    } else {
      var tail := log[1..];
      forall i | 0 <= i < |tail| ensures tail[i] == log[i + 1] {
      }
      InsideFrom(tail, window, now, cut - 1);
      assert tail[cut - 1..] == log[cut..];
    }
  }

  /** Of a sorted log, the window keeps a suffix. */
  lemma {:induction false} InsideIsSuffix(log: seq<nat>, window: nat, now: nat)
    requires Sorted(log)
    ensures |Inside(log, window, now)| <= |log|
    ensures Inside(log, window, now) == log[|log| - |Inside(log, window, now)|..]
    ensures CutsAt(log, window, now, |log| - |Inside(log, window, now)|)
  {
    var cut := CutOf(log, window, now);
    InsideFrom(log, window, now, cut);
  }

  lemma {:induction false} InsideLength(log: seq<nat>, window: nat, now: nat)
    ensures |Inside(log, window, now)| <= |log|
  {
    if log != [] {
      InsideLength(log[1..], window, now);
    }
  }

  /** The `k`-th admission from the end of a sorted log is inside the window exactly when at
      least `k` are. */
  lemma InsideCount(log: seq<nat>, window: nat, now: nat, k: nat)
    requires Sorted(log) && 0 < k <= |log|
    ensures k <= |Inside(log, window, now)| <==> Since(now, log[|log| - k]) < window
  {
    InsideIsSuffix(log, window, now);
  }

  /** `log` is the end of `whole`. */
  ghost predicate EndOf(log: seq<nat>, whole: seq<nat>) {
    |log| <= |whole| &&
    forall i :: |whole| - |log| <= i < |whole| ==> whole[i] == log[i - (|whole| - |log|)]
  }

  lemma EndSorted(log: seq<nat>, whole: seq<nat>)
    requires Sorted(whole) && EndOf(log, whole)
    ensures Sorted(log)
  {
    var n := |whole| - |log|;
    forall i, j | 0 <= i < j < |log| ensures log[i] <= log[j] {
      assert whole[n + i] == log[i] && whole[n + j] == log[j];
    }
  }

  lemma EndCountsNoMore(log: seq<nat>, whole: seq<nat>, window: nat, now: nat)
    requires Sorted(whole) && EndOf(log, whole)
    ensures |Inside(log, window, now)| <= |Inside(whole, window, now)|
  {
    EndSorted(log, whole);
    InsideLength(log, window, now);
    var k := |Inside(log, window, now)|;
    if k > 0 {
      assert whole[|whole| - k] == log[|log| - k];
      InsideCount(log, window, now, k);
      InsideCount(whole, window, now, k);
    }
  }

  lemma EndCountsTheWindow(log: seq<nat>, whole: seq<nat>, window: nat, now: nat, later: nat)
    requires Sorted(whole) && EndOf(log, whole)
    requires now <= later
    requires forall i :: 0 <= i < |whole| - |log| ==> whole[i] + window <= later
    ensures |Inside(whole, window, later)| <= |Inside(log, window, now)|
  {
    InsideLength(whole, window, later);
    var m := |Inside(whole, window, later)|;
    if m > 0 {
      InsideCount(whole, window, later, m);
      var at := whole[|whole| - m];
      assert Since(later, at) < window;
      assert m <= |log|;
      assert at == log[|log| - m];
      EndSorted(log, whole);
      InsideCount(log, window, now, m);
    }
  }

  lemma EndOfEnd(log: seq<nat>, whole: seq<nat>, cut: nat)
    requires EndOf(log, whole) && cut <= |log|
    ensures EndOf(log[cut..], whole)
  {
  }

  lemma TrimmedEnd(log: seq<nat>, whole: seq<nat>, window: nat, now: nat)
    requires Sorted(whole) && EndOf(log, whole) && window > 0
    ensures EndOf(Inside(log, window, now), whole)
    ensures forall i :: |whole| - |log| <= i < |whole| - |Inside(log, window, now)| ==>
              whole[i] + window <= now
  {
    EndSorted(log, whole);
    InsideIsSuffix(log, window, now);
    var kept := |Inside(log, window, now)|;
    EndOfEnd(log, whole, |log| - kept);
    forall i | |whole| - |log| <= i < |whole| - kept ensures whole[i] + window <= now {
      TrimmedAt(log, whole, window, now, i - (|whole| - |log|));
    }
  }

  lemma TrimmedAt(log: seq<nat>, whole: seq<nat>, window: nat, now: nat, at: nat)
    requires EndOf(log, whole) && at < |log|
    requires window > 0 && Since(now, log[at]) >= window
    ensures whole[|whole| - |log| + at] + window <= now
  {
  }
}
