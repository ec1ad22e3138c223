/**
 * The server's retention sweep (`auto_delete_old_logs`): once per cycle it
 * deletes every row whose timestamp lies strictly before "now minus three
 * days". An exception is caught and logged; a cycle whose delete did not
 * take effect is `Failed`, one whose delete committed and then raised is a
 * `Swept` cycle.
 */
module Retention {
  import opened Common
  import opened Logs

  const SecondsPerDay: int := 24 * 60 * 60
  /** `timedelta(days=3)` */
  const RetentionDays: int := 3

  /** `datetime.utcnow() - timedelta(days=3)`, for the clock reading `now`. */
  function Cutoff(now: int): (cutoff: int)
    ensures cutoff < now && now - cutoff == 3 * 86400
  {
    now - RetentionDays * SecondsPerDay
  }

  /** The `.lt("timestamp", cutoff)` predicate of the delete query. */
  predicate IsExpired(log: LogRow, cutoff: int) {
    log.timestamp < cutoff
  }

  /** The table after `delete().lt("timestamp", cutoff)`: the rows not before the cutoff, in order. */
  function DeleteBefore(rows: seq<LogRow>, cutoff: int): (kept: seq<LogRow>)
    ensures |kept| <= |rows|
    ensures forall log :: log in kept ==> log in rows && !IsExpired(log, cutoff)
  {
    if rows == [] then []
    else (if IsExpired(rows[0], cutoff) then [] else [rows[0]]) + DeleteBefore(rows[1..], cutoff)
  }

  /** One successful sweep at clock reading `now`. */
  function Sweep(rows: seq<LogRow>, now: int): (kept: seq<LogRow>)
    ensures |kept| <= |rows|
    ensures forall log :: log in kept ==> log in rows && log.timestamp >= now - 3 * 86400
  {
    DeleteBefore(rows, Cutoff(now))
  }

  /** Exactly the expired rows are removed: every other row survives as often as it occurred. */
  lemma {:induction false} DeleteBeforeCounts(rows: seq<LogRow>, cutoff: int)
    ensures forall log :: multiset(DeleteBefore(rows, cutoff))[log]
                          == if IsExpired(log, cutoff) then 0 else multiset(rows)[log]
  {
    if rows != [] {
      DeleteBeforeCounts(rows[1..], cutoff);
      assert rows == [rows[0]] + rows[1..];
    }
  }

  /** The surviving rows keep their relative order. */
  lemma {:induction false} DeleteBeforeIsSubsequence(rows: seq<LogRow>, cutoff: int)
    ensures IsSubsequence(DeleteBefore(rows, cutoff), rows)
  {
    if rows != [] {
      DeleteBeforeIsSubsequence(rows[1..], cutoff);
      var rest := DeleteBefore(rows[1..], cutoff);
      if IsExpired(rows[0], cutoff) {
        assert [] + rest == rest;
      } else {
        assert ([rows[0]] + rest)[1..] == rest;
      }
    }
  }

  /** A row survives a sweep at `now` exactly when it is at or after `now` minus three days. */
  lemma SweepKeepsIff(rows: seq<LogRow>, now: int, log: LogRow)
    ensures log in Sweep(rows, now) <==> log in rows && log.timestamp >= now - 3 * 86400
  {
    DeleteBeforeCounts(rows, Cutoff(now));
    assert log in Sweep(rows, now) <==> multiset(Sweep(rows, now))[log] > 0;
    assert log in rows <==> multiset(rows)[log] > 0;
  }

  /** Two deletions in a row remove what the one with the later cutoff removes. */
  lemma {:induction false} DeleteBeforeTwice(rows: seq<LogRow>, c1: int, c2: int)
    ensures DeleteBefore(DeleteBefore(rows, c1), c2) == DeleteBefore(rows, if c1 < c2 then c2 else c1)
  {
    if rows != [] {
      DeleteBeforeTwice(rows[1..], c1, c2);
      var rest := DeleteBefore(rows[1..], c1);
      if !IsExpired(rows[0], c1) {
        assert ([rows[0]] + rest)[0] == rows[0];
        assert ([rows[0]] + rest)[1..] == rest;
      } else {
        assert [] + rest == rest;
      }
    }
  }

  /** A sweep is idempotent: repeating it at the same clock reading deletes nothing more. */
  lemma SweepIdempotent(rows: seq<LogRow>, now: int)
    ensures Sweep(Sweep(rows, now), now) == Sweep(rows, now)
  {
    DeleteBeforeTwice(rows, Cutoff(now), Cutoff(now));
  }

  /**
   * The outcome of one iteration of the `while True` loop: `Swept(now)` when
   * the delete took effect (even if `execute()` raised afterwards), `Failed`
   * when it did not.
   */
  datatype Cycle = Swept(now: int) | Failed

  /** The latest clock reading among the cycles whose delete succeeded. */
  function LatestSweep(cycles: seq<Cycle>): Option<int> {
    if cycles == [] then None
    else
      var earlier := LatestSweep(cycles[..|cycles| - 1]);
      match cycles[|cycles| - 1]
      case Failed => earlier
      case Swept(now) => if earlier.Some? && earlier.value >= now then earlier else Some(now)
  }

  /**
   * Lines 21-32, for a finite run of cycles: each successful cycle deletes the
   * rows before its cutoff; a cycle whose delete did not take effect leaves
   * the table alone.
   * New rows inserted between cycles are not modelled.
   */
  method AutoDeleteOldLogs(table: seq<LogRow>, cycles: seq<Cycle>) returns (remaining: seq<LogRow>)
    ensures LatestSweep(cycles).None? ==> remaining == table
    ensures LatestSweep(cycles).Some? ==> remaining == Sweep(table, LatestSweep(cycles).value)
  {
    remaining := table;
    for i := 0 to |cycles|
      invariant LatestSweep(cycles[..i]).None? ==> remaining == table
      invariant LatestSweep(cycles[..i]).Some? ==> remaining == Sweep(table, LatestSweep(cycles[..i]).value)
    {
      assert cycles[..i + 1][..i] == cycles[..i];
      match cycles[i]
      case Swept(now) =>
        var cutoff := Cutoff(now);
        if LatestSweep(cycles[..i]).Some? {
          DeleteBeforeTwice(table, Cutoff(LatestSweep(cycles[..i]).value), cutoff);
        }
        remaining := DeleteBefore(remaining, cutoff);
      case Failed =>
    }
    assert cycles[..|cycles|] == cycles;
  }

  /** After the loop, no surviving row is expired with respect to any successful cycle. */
  lemma NoExpiredRowSurvives(table: seq<LogRow>, cycles: seq<Cycle>, remaining: seq<LogRow>, i: int)
    requires LatestSweep(cycles).Some? ==> remaining == Sweep(table, LatestSweep(cycles).value)
    requires LatestSweep(cycles).None? ==> remaining == table
    requires 0 <= i < |cycles| && cycles[i].Swept?
    ensures forall log :: log in remaining ==> log in table && !IsExpired(log, Cutoff(cycles[i].now))
  {
    LatestSweepBounds(cycles, i);
  }

  lemma {:induction false} LatestSweepBounds(cycles: seq<Cycle>, i: int)
    requires 0 <= i < |cycles| && cycles[i].Swept?
    ensures LatestSweep(cycles).Some? && LatestSweep(cycles).value >= cycles[i].now
  {
    var init := cycles[..|cycles| - 1];
    if i < |cycles| - 1 {
      assert init[i] == cycles[i];
      LatestSweepBounds(init, i);
    }
  }
}
