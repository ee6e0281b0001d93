/**
 Retiring transfers against the hardware's completed-descriptor count. The
 queue is walked head first: every transfer the count goes beyond is complete,
 and the one the count ends in is judged by whether it was reached in full.
 Cyclic transfers and the end-of-packet flush of the receive side are not part
 of this model.
 */
module EngineService {
  import opened Arithmetic
  import opened Engines
  import opened Scatter

  const COUNT_LIMIT: nat := 0x1_0000_0000

  // ---------------------------------------------------------- specification

  /** Descriptors of the first k transfers. */
  function SumTo(q: seq<Transfer>, k: nat): nat
    requires k <= |q|
  {
    if k == 0 then 0 else SumTo(q, k - 1) + q[k - 1].count
  }

  /** Of the transfers from i on, those the count goes strictly beyond. */
  function Passed(q: seq<Transfer>, i: nat, c: nat): (k: nat)
    requires i <= |q|
    ensures i + k <= |q|
    decreases |q| - i
  {
    if i < |q| && c > q[i].count then 1 + Passed(q, i + 1, c - q[i].count) else 0
  }

  /** What the count still says once the passed transfers are taken out of it. */
  function Remaining(q: seq<Transfer>, i: nat, c: nat): nat
    requires i <= |q|
    decreases |q| - i
  {
    if i < |q| && c > q[i].count then Remaining(q, i + 1, c - q[i].count) else c
  }

  /** Transfers taken off the queue for c completed descriptors. */
  function Retired(q: seq<Transfer>, c: nat): (k: nat)
    ensures k <= |q|
  {
    var p := Passed(q, 0, c);
    if p < |q| then p + 1 else p
  }

  lemma {:induction false} PassedSums(q: seq<Transfer>, i: nat, c: nat)
    requires i <= |q|
    ensures var p := i + Passed(q, i, c);
            && Remaining(q, i, c) == c + SumTo(q, i) - SumTo(q, p)
            && (p < |q| ==> Remaining(q, i, c) <= q[p].count)
            && (forall j :: i < j <= p ==> SumTo(q, j) < c + SumTo(q, i))
    decreases |q| - i
  {
    if i < |q| && c > q[i].count {
      PassedSums(q, i + 1, c - q[i].count);
    }
  }

  /**
   The retired transfers are the shortest non-empty prefix of the queue whose
   descriptors reach the count, or the whole queue if even that falls short.
   The last of them is judged separately, and found wanting, exactly when the
   prefix exceeds the count, or when the engine reports an error and the count
   does not go beyond it.
   */
  lemma {:induction false} RetiredIsShortest(q: seq<Transfer>, c: nat)
    ensures var k := Retired(q, c);
            && (k == 0 <==> q == [])
            && (forall j :: 0 < j < k ==> SumTo(q, j) < c)
            && (SumTo(q, k) >= c || k == |q|)
    ensures forall i :: 0 <= i < Retired(q, c) ==>
      (Verdict(q, c, false, i) == Failed <==> i == Retired(q, c) - 1 && SumTo(q, Retired(q, c)) > c)
    ensures forall i :: 0 <= i < Retired(q, c) ==>
      (Verdict(q, c, true, i) == Failed <==> i == Retired(q, c) - 1 && SumTo(q, Retired(q, c)) >= c)
    ensures forall i, error :: 0 <= i < |q| ==>
      Verdict(q, c, error, i) == Failed || Verdict(q, c, error, i) == Completed
  {
    PassedSums(q, 0, c);
  }

  /** The callback `engine_transfer_completion` makes for a transfer. */
  function Callback(t: Transfer): seq<Transfer> {
    if t.hasCallback && t.lastInRequest then [t] else []
  }

  /** The callbacks for the first k transfers, in order. */
  function Reported(q: seq<Transfer>, k: nat): seq<Transfer>
    requires k <= |q|
  {
    if k == 0 then [] else Reported(q, k - 1) + Callback(q[k - 1])
  }

  /**
   Which callbacks are made for the first k transfers: one for each that has a
   callback and ends its request, none for the others, in queue order.
   */
  lemma {:induction false} ReportedExactly(q: seq<Transfer>, k: nat)
    requires k <= |q| && NoDuplicates(q)
    ensures forall i :: 0 <= i < k ==> (q[i] in Reported(q, k) <==> q[i].hasCallback && q[i].lastInRequest)
    ensures NoDuplicates(Reported(q, k))
    ensures forall a :: 0 <= a < |Reported(q, k)| ==> Reported(q, k)[a] in q[..k]
    ensures forall a, b :: 0 <= a < b < |Reported(q, k)| ==> Before(q, k, Reported(q, k)[a], Reported(q, k)[b])
  {
    if k > 0 {
      ReportedExactly(q, k - 1);
      var was, now, t := Reported(q, k - 1), Reported(q, k), q[k - 1];
      assert q[..k] == q[..k - 1] + [t];
      assert t !in q[..k - 1];
      forall a, b | 0 <= a < b < |now|
        ensures Before(q, k, now[a], now[b])
      {
        if b < |was| {
          assert now[a] == was[a] && now[b] == was[b] && Before(q, k - 1, was[a], was[b]);
        } else {
          assert now[a] == was[a] && now[b] == t;
          var i :| 0 <= i < k - 1 && q[i] == was[a];
        }
      }
    }
  }

  /** s comes before t among the first k transfers. */
  ghost predicate Before(q: seq<Transfer>, k: nat, s: Transfer, t: Transfer)
    requires k <= |q|
  {
    exists i, j :: 0 <= i < j < k && q[i] == s && q[j] == t
  }

  /** The state the i-th transfer of the queue is retired in. */
  function Verdict(q: seq<Transfer>, c: nat, error: bool, i: nat): TransferState
    requires i < |q|
  {
    if i == Passed(q, 0, c) && (error || Remaining(q, 0, c) < q[i].count) then Failed else Completed
  }

  /** c = count - dequeued in the 32-bit unsigned arithmetic of the driver. */
  function Outstanding(count: nat, dequeued: nat): nat {
    (count - dequeued) % COUNT_LIMIT
  }

  /**
   The hardware counts the descriptors of a run modulo 2^32. Whatever it has
   wrapped, what is outstanding is the true number beyond those dequeued.
   */
  lemma OutstandingIsNew(total: nat, dequeued: nat)
    requires dequeued <= total < dequeued + COUNT_LIMIT
    ensures Outstanding(total % COUNT_LIMIT, dequeued) == total - dequeued
  {
    var x := total % COUNT_LIMIT - dequeued;
    assert x == total - dequeued - total / COUNT_LIMIT * COUNT_LIMIT;
  }

  lemma {:induction false} SumBehind(q: seq<Transfer>, k: nat, j: nat)
    requires k + j <= |q|
    ensures SumTo(q[k..], j) == SumTo(q, k + j) - SumTo(q, k)
  {
    if j > 0 {
      SumBehind(q, k, j - 1);
    }
  }

  lemma {:induction false} SumGrows(q: seq<Transfer>, j: nat, k: nat)
    requires j <= k <= |q|
    ensures SumTo(q, j) <= SumTo(q, k)
  {
    if j < k {
      SumGrows(q, j, k - 1);
    }
  }

  /** The shortest non-empty prefix that reaches c, or the whole queue: there is only one. */
  ghost predicate Shortest(q: seq<Transfer>, c: nat, k: nat) {
    && k <= |q| && (k == 0 <==> q == [])
    && (forall j :: 0 < j < k ==> SumTo(q, j) < c) && (SumTo(q, k) >= c || k == |q|)
  }

  lemma NotShorter(q: seq<Transfer>, c: nat, a: nat, b: nat)
    requires Shortest(q, c, a) && Shortest(q, c, b)
    ensures a >= b
  {
    assert forall j :: 0 < j < b ==> SumTo(q, j) < c;
  }

  lemma ShortestIsRetired(q: seq<Transfer>, c: nat, k: nat)
    requires Shortest(q, c, k)
    ensures k == Retired(q, c)
  {
    RetiredIsShortest(q, c);
    NotShorter(q, c, k, Retired(q, c));
    NotShorter(q, c, Retired(q, c), k);
  }

  /** The prefix that reaches `total` in q, behind its first k transfers. */
  lemma {:induction false} ShortestBehind(q: seq<Transfer>, k: nat, total: nat, r: nat)
    requires k <= |q| && SumTo(q, k) < total && Shortest(q[k..], total - SumTo(q, k), r)
    ensures Shortest(q, total, k + r)
  {
    var rest, s := q[k..], SumTo(q, k);
    forall j | 0 < j < k + r
      ensures SumTo(q, j) < total
    {
      if j <= k {
        SumGrows(q, j, k);
      } else {
        SumBehind(q, k, j - k);
        assert SumTo(rest, j - k) < total - s;
      }
    }
    SumBehind(q, k, r);
  }

  /** With nothing new to judge by, the head is retired all the same, as failed. */
  lemma NothingNew(q: seq<Transfer>)
    requires q != [] && q[0].count > 0
    ensures Retired(q, 0) == 1 && Verdict(q, 0, false, 0) == Failed
  {
    PassedEnds(q, 0, 0);
  }

  /**
   Later service calls of a run. `q` is the queue the run began with, its first
   k transfers have been retired and all of their descriptors dequeued, and the
   hardware has completed `total` since, which it reports modulo 2^32. The call
   then retires up to the same place in q a single call would have reached.
   */
  lemma {:induction false} LaterService(q: seq<Transfer>, k: nat, total: nat)
    requires k <= |q| && SumTo(q, k) < total < SumTo(q, k) + COUNT_LIMIT
    ensures k + Retired(q[k..], Outstanding(total % COUNT_LIMIT, SumTo(q, k))) == Retired(q, total)
  {
    var rest, c := q[k..], total - SumTo(q, k);
    OutstandingIsNew(total, SumTo(q, k));
    RetiredIsShortest(rest, c);
    ShortestBehind(q, k, total, Retired(rest, c));
    ShortestIsRetired(q, total, k + Retired(rest, c));
  }

  lemma PassedMore(q: seq<Transfer>, i: nat, c: nat)
    requires i < |q| && c > q[i].count
    ensures Passed(q, i, c) == 1 + Passed(q, i + 1, c - q[i].count)
    ensures Remaining(q, i, c) == Remaining(q, i + 1, c - q[i].count)
  {
  }

  lemma {:induction false} PassedEnds(q: seq<Transfer>, i: nat, c: nat)
    requires i <= |q| && (i < |q| ==> c <= q[i].count)
    ensures Passed(q, i, c) == 0 && Remaining(q, i, c) == c
  {
  }

  lemma ReportedMore(done: seq<Transfer>, q: seq<Transfer>, k: nat)
    requires k < |q|
    ensures done + Reported(q, k + 1) == done + Reported(q, k) + Callback(q[k])
  {
    Assoc(done, Reported(q, k), Callback(q[k]));
  }

  /** Descriptors a pass over q accounts for: those of all retired transfers but one an error was found in. */
  function Dequeued(q: seq<Transfer>, c: nat, error: bool): nat {
    SumTo(q, if error then Passed(q, 0, c) else Retired(q, c))
  }

  /** The two halves of a pass, added up. */
  lemma {:induction false} DequeuedSplit(q: seq<Transfer>, c: nat, error: bool)
    ensures var p := Passed(q, 0, c);
            Dequeued(q, c, error) == c - Remaining(q, 0, c) + (if error || p == |q| then 0 else q[p].count)
  {
    PassedSums(q, 0, c);
  }

  // ------------------------------------------------------------------- code

  /** Take the head off the queue in state `verdict` and report it if its request is over. */
  method RetireHead(e: Engine, verdict: TransferState, dequeued: nat)
    requires e.Valid() && e.queue != []
    modifies e`queue, e`descDequeued, e`ioDone, {e.queue[0]}
    ensures e.Valid() && e.queue == old(e.queue)[1..]
    ensures old(e.queue[0]).state == verdict
    ensures e.descDequeued == old(e.descDequeued) + dequeued
    ensures e.ioDone == old(e.ioDone) + Callback(old(e.queue[0]))
  {
    var t := e.queue[0];
    e.queue := e.queue[1..];
    e.descDequeued := e.descDequeued + dequeued;
    t.state := verdict;
    if t.hasCallback && t.lastInRequest {
      e.ioDone := e.ioDone + [t];
    }
  }

  /** `engine_service_transfer_list`: retire every transfer the count goes beyond. */
  method ServiceTransferList(e: Engine, completed: nat) returns (left: nat)
    requires e.Valid()
    modifies e`queue, e`descDequeued, e`ioDone, e.queue
    ensures e.Valid()
    ensures left == Remaining(old(e.queue), 0, completed) && left <= completed
    ensures e.descDequeued == old(e.descDequeued) + (completed - left)
    ensures var q := old(e.queue);
            var k := Passed(q, 0, completed);
            && e.queue == q[k..]
            && e.ioDone == old(e.ioDone) + Reported(q, k)
            && forall i :: 0 <= i < k ==> q[i].state == Completed
  {
    ghost var q, k, done := e.queue, 0, e.ioDone;
    left := completed;
    while e.queue != [] && left > e.queue[0].count
      invariant e.Valid()
      invariant 0 <= k <= |q| && e.queue == q[k..] && left <= completed
      invariant Passed(q, 0, completed) == k + Passed(q, k, left)
      invariant Remaining(q, 0, completed) == Remaining(q, k, left)
      invariant e.descDequeued == old(e.descDequeued) + (completed - left)
      invariant e.ioDone == done + Reported(q, k)
      invariant forall i :: 0 <= i < k ==> q[i].state == Completed
      decreases |e.queue|
    {
      assert e.queue[0] == q[k] && e.queue[1..] == q[k + 1..];
      var count := e.queue[0].count;
      PassedMore(q, k, left);
      ReportedMore(done, q, k);
      left := left - count;
      RetireHead(e, Completed, count);
      k := k + 1;
    }
    assert k < |q| ==> e.queue[0] == q[k];
    PassedEnds(q, k, left);
    assert k == Passed(q, 0, completed);
  }

  /** `engine_service_final_transfer`: judge the transfer the count ends in, if there is one. */
  method ServiceFinalTransfer(e: Engine, left: nat)
    requires e.Valid()
    modifies e`queue, e`descDequeued, e`ioDone, e`running, e.queue
    ensures e.Valid()
    ensures old(e.queue) == [] ==> unchanged(e)
    ensures old(e.queue) != [] ==>
      var t := old(e.queue)[0];
      && e.queue == old(e.queue)[1..]
      && t.state == (if e.status.error || left < t.count then Failed else Completed)
      && e.running == (old(e.running) && !e.status.error)
      && e.descDequeued == old(e.descDequeued) + (if e.status.error then 0 else t.count)
      && e.ioDone == old(e.ioDone) + Callback(t)
  {
    if e.queue == [] {
      return;
    }
    var t := e.queue[0];
    if e.status.error {
      e.running := false;
      RetireHead(e, Failed, 0);
    } else if left < t.count {
      RetireHead(e, Failed, t.count);
    } else {
      RetireHead(e, Completed, t.count);
    }
  }

  /** `engine_service_resume`: restart for what is still queued, or stop a run that has nothing left. */
  method Resume(e: Engine, now: StatusWord)
    requires e.Valid()
    modifies e`running, e`descDequeued, e`shutdownRequested, e`firstDesc, e`firstAdjacent, e`status
    ensures e.Valid() && (e.running <==> e.queue != [])
    ensures !old(e.running) && e.queue != [] ==> e.RunStarted() && e.status == now
    ensures old(e.running) || e.queue == [] ==>
      e.descDequeued == old(e.descDequeued) && e.firstDesc == old(e.firstDesc) && e.status == old(e.status)
  {
    if !e.running {
      if e.queue != [] {
        var started := e.Start(now);
      }
    } else if e.queue == [] {
      e.running := false;
    }
  }

  /** What one service call gets from the outside: the polled writeback and the registers it may read. */
  datatype Readings = Registers(wbCount: nat, wbError: bool, status: StatusWord, completed: nat, restart: StatusWord)

  function StatusRead(r: Readings): bool { r.wbCount == 0 || r.wbError }

  function DescCount(r: Readings): nat { if r.wbCount != 0 then r.wbCount else r.completed }

  /** The status word a service call judges by. */
  function Seen(running: bool, status: StatusWord, r: Readings): StatusWord {
    if !running || StatusRead(r) then r.status else status
  }

  /**
   A writeback counts for itself and leaves the registers alone unless it flags
   an error; without one, count and status are read from the registers.
   */
  lemma WhatIsRead(running: bool, status: StatusWord, r: Readings)
    ensures r.wbCount > 0 ==> DescCount(r) == r.wbCount
    ensures r.wbCount == 0 ==> DescCount(r) == r.completed
    ensures running && r.wbCount > 0 && !r.wbError ==> Seen(running, status, r) == status
    ensures !running || r.wbCount == 0 || r.wbError ==> Seen(running, status, r) == r.status
  {
  }

  /** What one pass over queue q leaves behind, for c newly completed descriptors and callbacks `done` before it. */
  ghost predicate Settled(e: Engine, q: seq<Transfer>, done: seq<Transfer>, c: nat, error: bool)
    reads e`queue, e`ioDone, q
  {
    var k := Retired(q, c);
    && e.queue == q[k..]
    && (forall i :: 0 <= i < k ==> q[i].state == Verdict(q, c, error, i))
    && e.ioDone == done + Reported(q, k)
  }

  /** Both halves of the queue pass. */
  method ServiceQueue(e: Engine, c: nat)
    requires e.Valid()
    modifies e`running, e`queue, e`descDequeued, e`ioDone, e.queue
    ensures e.Valid() && Settled(e, old(e.queue), old(e.ioDone), c, e.status.error)
    ensures e.descDequeued == old(e.descDequeued) + Dequeued(old(e.queue), c, e.status.error)
  {
    ghost var q, k := e.queue, Passed(e.queue, 0, c);
    DequeuedSplit(q, c, e.status.error);
    var left := ServiceTransferList(e, c);
    if k < |q| {
      assert e.queue[0] == q[k] && e.queue[1..] == q[k + 1..];
    }
    ServiceFinalTransfer(e, left);
    if k < |q| {
      ReportedMore(old(e.ioDone), q, k);
      assert e.queue == q[k + 1..] && Retired(q, c) == k + 1;
    } else {
      assert Retired(q, c) == k;
    }
  }

  /** Opening of `engine_service`: refresh the status if needed, and stop a run that is over or was written back. */
  method Observe(e: Engine, r: Readings)
    modifies e`status, e`running
    ensures e.status == Seen(old(e.running), old(e.status), r)
    ensures e.running == (old(e.running) && e.status.busy && r.wbCount == 0)
  {
    if !e.running || r.wbCount == 0 || r.wbError {
      e.status := r.status;
    }
    if e.running && (!e.status.busy || r.wbCount != 0) {
      e.running := false;
    }
  }

  /** `engine_service`. */
  method Service(e: Engine, r: Readings) returns (ok: bool)
    requires e.Valid()
    modifies e`status, e`running, e`queue, e`descDequeued, e`ioDone,
             e`shutdownRequested, e`firstDesc, e`firstAdjacent, e.queue
    ensures e.Valid()
    ensures !old(e.running) || DescCount(r) == 0 ==>
      var seen := Seen(old(e.running), old(e.status), r);
      && unchanged(e`queue, e`descDequeued, e`ioDone)
      && e.status == seen && e.running == (old(e.running) && seen.busy)
    ensures old(e.running) && DescCount(r) != 0 ==>
      var seen := Seen(true, old(e.status), r);
      && Settled(e, old(e.queue), old(e.ioDone), Outstanding(DescCount(r), old(e.descDequeued)), seen.error)
      && (e.running <==> e.queue != [])
      && ((e.RunStarted() && e.status == r.restart)
          || (e.status == seen
              && e.descDequeued == old(e.descDequeued)
                 + Dequeued(old(e.queue), Outstanding(DescCount(r), old(e.descDequeued)), seen.error)))
    ensures ok == (!old(e.running) || !r.wbError)
  {
    var wasRunning := e.running;
    Observe(e, r);
    ok := !wasRunning || !r.wbError;
    if wasRunning && DescCount(r) != 0 {
      ServiceQueue(e, Outstanding(DescCount(r), e.descDequeued));
      Resume(e, r.restart);
    }
  }
}
