/**
 The life of one line request, from submission over the engine's service to the
 completion call that settles it.
 */
module LineRequest {
  import opened Scatter
  import opened Engines
  import opened LinePackets
  import LineSubmit
  import EngineService

  /** The service call finds the transfer of n descriptors complete. */
  predicate Completes(r: EngineService.Readings, error: bool, n: nat) {
    var c := EngineService.Outstanding(EngineService.DescCount(r), 0);
    EngineService.DescCount(r) != 0 && (c > n || (c == n && !error))
  }

  lemma SoleTransfer(t: Transfer, c: nat, error: bool)
    ensures EngineService.Retired([t], c) == 1
    ensures EngineService.Verdict([t], c, error, 0) ==
            if c > t.count || (c == t.count && !error) then Completed else Failed
  {
    assert EngineService.Passed([t], 1, if c > t.count then c - t.count else 0) == 0;
    assert EngineService.Remaining([t], 0, c) == if c > t.count then c - t.count else c;
  }

  lemma SoleReport(t: Transfer)
    ensures EngineService.Reported([t], 1) == if t.hasCallback && t.lastInRequest then [t] else []
  {
    assert EngineService.Reported([t], 0) == [];
  }

  /**
   Serve a queued line request once and settle it: the caller learns the frame's
   length exactly if the engine completed the whole chain, and zero otherwise.
   */
  method ServeAndComplete(e: Engine, t: Transfer, r: EngineService.Readings, now: StatusWord) returns (done: nat)
    requires e.Valid() && e.queue == [t] && e.RunStarted() && e.descUsed == t.count
    requires 0 < t.count && t.slot + t.count <= e.ring.Length
    modifies e, e.ring, t
    ensures e.Valid() && LineSubmit.Idle(e)
    ensures done == if Completes(r, EngineService.Seen(true, old(e.status), r).error, t.count) then t.len else 0
    ensures e.ioDone == old(e.ioDone) +
      (if EngineService.DescCount(r) != 0 && t.hasCallback && t.lastInRequest then [t] else [])
  {
    ghost var error := EngineService.Seen(true, e.status, r).error;
    var ok := EngineService.Service(e, r);
    if EngineService.DescCount(r) != 0 {
      SoleTransfer(t, EngineService.Outstanding(EngineService.DescCount(r), 0), error);
      SoleReport(t);
      assert [t][0].state == (if Completes(r, error, t.count) then Completed else Failed);
    }
    done := LineSubmit.CompleteLines(e, t, now);
  }

  /**
   Whatever the list, the surroundings and the registers say, an idle engine is
   idle again afterwards: nothing reserved, nothing queued, not running. A
   completed frame reports exactly `size * lines` bytes, and the frame's callback
   is made once, when the service call had a count to judge it by.
   */
  method SendFrame(e: Engine, env: LineSubmit.Surroundings, es: seq<Entry>, ep: nat, size: nat, lines: nat, max: nat,
                   r: EngineService.Readings, now: StatusWord)
    returns (rv: LineSubmit.Verdict, t: Transfer?, done: nat)
    requires e.Valid() && LineSubmit.Idle(e)
    modifies e, e.ring
    ensures e.Valid() && LineSubmit.Idle(e)
    ensures rv.Queued? <==>
      && !env.offline && env.h2cStreaming && Fits(es, size, lines, max)
      && |Cut(es, size, size, max)| <= e.ring.Length && env.memoryLeft
      && !env.offlineAtQueue && !old(e.shutdownRequested)
    ensures var error := EngineService.Seen(true, env.status, r).error;
            done == if rv.Queued? && Completes(r, error, |Cut(es, size, size, max)|) then size * lines else 0
    ensures rv.Queued? <==> t != null
    ensures t != null ==> fresh(t)
    ensures e.ioDone == old(e.ioDone) + (if t != null && EngineService.DescCount(r) != 0 then [t] else [])
  {
    rv, t := LineSubmit.SubmitLines(e, env, es, ep, size, lines, max);
    if !rv.Queued? {
      return rv, null, 0;
    }
    LineSubmit.CutNotEmpty(es, size, lines, max);
    done := ServeAndComplete(e, t, r, now);
  }
}
