/**
 One XDMA channel engine: its descriptor ring, its queue of submitted transfers
 and the registers the driver keeps about a run.
 */
module Engines {
  import opened Descriptors
  import Arithmetic

  datatype TransferState = New | Submitted | Completed | Failed | Aborted

  /** A chain of descriptors queued as a unit (`struct xdma_transfer`). */
  class Transfer {
    const slot: nat
    const count: nat
    const bus: nat
    const len: nat
    const lastInRequest: bool
    const hasCallback: bool
    var state: TransferState

    constructor (slot: nat, count: nat, bus: nat, len: nat, lastInRequest: bool, hasCallback: bool)
      ensures this.slot == slot && this.count == count && this.bus == bus && this.len == len
      ensures this.lastInRequest == lastInRequest && this.hasCallback == hasCallback
      ensures state == New
    {
      this.slot, this.count, this.bus, this.len := slot, count, bus, len;
      this.lastInRequest, this.hasCallback := lastInRequest, hasCallback;
      state := New;
    }
  }

  /** A reading of the engine's status register: still busy, and any of the error bits of its direction. */
  datatype StatusWord = StatusWord(busy: bool, error: bool)

  class Engine {
    const ring: array<Desc>
    const bus: nat
    var descIdx: nat
    var descUsed: int
    var descDequeued: nat
    var running: bool
    var shutdownRequested: bool
    var queue: seq<Transfer>
    /** Address and adjacent count last written to the first-descriptor registers. */
    var firstDesc: nat
    var firstAdjacent: nat
    /** The status word last read. */
    var status: StatusWord
    /** Completion callbacks made so far, in order. */
    var ioDone: seq<Transfer>

    ghost predicate Valid()
      reads `descIdx, `queue, queue
    {
      && descIdx < ring.Length
      && bus % DESC_SIZE == 0
      && NoDuplicates(queue)
      && (forall t :: t in queue ==> t.count > 0 && t.state == Submitted)
    }

    constructor (slots: nat, bus: nat)
      requires slots > 0 && bus % DESC_SIZE == 0
      ensures Valid() && fresh(ring) && ring.Length == slots && this.bus == bus
      ensures queue == [] && !running && descUsed == 0 && descIdx == 0 && ioDone == []
    {
      ring := new Desc[slots](_ => CLEARED);
      this.bus := bus;
      descIdx, descUsed, descDequeued := 0, 0, 0;
      running, shutdownRequested, status := false, false, StatusWord(false, false);
      queue, ioDone := [], [];
      firstDesc, firstAdjacent := 0, 0;
    }

    /** A fresh run: the registers name the head of the queue and nothing is dequeued yet. */
    ghost predicate RunStarted()
      reads this
    {
      && queue != [] && running && descDequeued == 0 && !shutdownRequested
      && firstDesc == queue[0].bus
      && firstAdjacent == NextAdj(queue[0].count, LowWord(queue[0].bus))
    }

    /** `engine_start`: begin a run with the transfer at the head of the queue, and read the status. */
    method Start(now: StatusWord) returns (started: bool)
      modifies this`firstDesc, this`firstAdjacent, this`running, this`descDequeued, this`shutdownRequested, this`status
      ensures started == (!old(running) && queue != [])
      ensures started ==> RunStarted() && status == now
      ensures !started ==> unchanged(this)
    {
      if running || queue == [] {
        return false;
      }
      shutdownRequested := false;
      descDequeued := 0;
      firstDesc := queue[0].bus;
      firstAdjacent := NextAdj(queue[0].count, LowWord(queue[0].bus));
      status := now;
      running := true;
      started := true;
    }

    /** `transfer_queue`. A refused transfer leaves the engine alone. */
    method Enqueue(t: Transfer, offline: bool, now: StatusWord) returns (accepted: bool)
      requires Valid() && t !in queue
      modifies this`firstDesc, this`firstAdjacent, this`running, this`descDequeued, this`shutdownRequested, this`status
      modifies this`queue, t
      ensures Valid()
      ensures accepted == (t.count > 0 && !offline && !old(shutdownRequested))
      ensures accepted ==> queue == old(queue) + [t] && t.state == Submitted && running
      ensures accepted && !old(running) ==> RunStarted() && status == now
      ensures accepted && old(running) ==>
        unchanged(this`descDequeued, this`firstDesc, this`firstAdjacent, this`shutdownRequested, this`status)
      ensures !accepted ==> unchanged(this) && unchanged(t)
    {
      if t.count == 0 || offline || shutdownRequested {
        return false;
      }
      t.state := Submitted;
      queue := queue + [t];
      if !running {
        var started := Start(now);
      }
      accepted := true;
    }
  }

  /** The ring index behind count slots from `at` on. */
  method NextIndex(at: nat, count: nat, slots: nat) returns (next: nat)
    requires 0 < slots && at + count <= slots
    ensures next == if at + count == slots then 0 else at + count
  {
    Arithmetic.RingIndex(at + count, slots);
    next := (at + count) % slots;
  }

  ghost predicate NoDuplicates<T>(s: seq<T>) {
    forall i, j :: 0 <= i < j < |s| ==> s[i] != s[j]
  }
}
