// The per-address limit on POST /csp-report: what decides (`Entry`), and the protocol by
// which every replica runs that decision on one shared table.

module CspEntry {
  import opened Prelude

  const MAX_REPORTS: nat := 100
  const WINDOW: nat := 900_000_000 // fifteen minutes, in the database's microseconds
  const MAX_TRACKED: nat := 10_000

  datatype Decision = Allow | Refused(retryAfter: nat)

  /** One address's window, as stored. */
  datatype Row = Row(requests: nat, start: nat) {
    predicate IsStale(now: nat) {
      now >= start + WINDOW
    }
  }

  function First(now: nat): Row {
    Row(1, now)
  }

  function Restarted(row: Row, now: nat): Row {
    if row.IsStale(now) then Row(0, now) else row
  }

  function AdmitRow(row: Row, now: nat): (result: (Row, Decision)) {
    var current := Restarted(row, now);
    if current.requests >= MAX_REPORTS then
      (current, Refused(Since(current.start + WINDOW, now)))
    else
      (Row(current.requests + 1, current.start), Allow)
  }

  /** The entry an admission works on in place. */
  class Entry {
    var requests: nat
    var start: nat

    constructor (row: Row)
      ensures Value() == row
    {
      requests, start := row.requests, row.start;
    }

    function Value(): Row
      reads this
    {
      Row(requests, start)
    }

    method Admit(now: nat) returns (decision: Decision)
      modifies this
      ensures (Value(), decision) == AdmitRow(old(Value()), now)
    {
      if now >= start + WINDOW {
        requests, start := 0, now;
      }
      if requests >= MAX_REPORTS {
        return Refused(Since(start + WINDOW, now));
      }
      requests := requests + 1;
      return Allow;
    }
  }

  /** The protocol skips the UPDATE when the entry is unchanged: that happens exactly on a
      refusal, so a refusal is never counted and an admission is never lost. */
  lemma UnchangedExactlyWhenRefused(row: Row, now: nat)
    ensures AdmitRow(row, now).0 == row <==> AdmitRow(row, now).1.Refused?
  {
  }

  /** A refusal's `retryAfter` is exact: until then every request would be refused, and the
      first instant at which one would be admitted is `now + retryAfter`. */
  lemma RetryAfterIsExact(row: Row, now: nat, later: nat)
    requires AdmitRow(row, now).1.Refused?
    requires now <= later
    ensures AdmitRow(row, later).1.Allow? <==> later >= now + AdmitRow(row, now).1.retryAfter
    ensures AdmitRow(row, now).1.retryAfter > 0
  {
  }

  /** A newcomer's answer, if it is refused: `held` rows are left once the stale ones are
      reclaimed, and `earliest` is when the first of their windows began. */
  function RefuseNewcomer(held: nat, earliest: Option<nat>, now: nat): Option<Decision> {
    if held >= MAX_TRACKED then
      Some(Refused(match earliest case None => 0 case Some(start) => Since(start + WINDOW, now)))
    else
      None
  }
}
