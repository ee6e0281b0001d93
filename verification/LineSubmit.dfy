/**
 Building and queueing the descriptor chain of one frame, and settling the
 request afterwards. The engine carries at most one such request at a time.
 */
module LineSubmit {
  import opened Scatter
  import opened Descriptors
  import opened Engines
  import opened LinePackets
  import opened LineFraming
  import Prefetch

  // -------------------------------------------------------------- the chain

  function LineFlags(eop: bool, final: bool): bv32 {
    (if eop then DESC_EOP else 0) | (if final then DESC_STOPPED | DESC_COMPLETED else 0)
  }

  lemma LineFlagsDecode(eop: bool, final: bool)
    ensures LineFlags(eop, final) & !0xff == 0
    ensures LineFlags(eop, final) & DESC_EOP != 0 <==> eop
    ensures LineFlags(eop, final) & DESC_STOPPED != 0 <==> final
    ensures LineFlags(eop, final) & DESC_COMPLETED != 0 <==> final
  {
  }

  /** Piece k of the frame as it must stand in the ring, the chain starting at bus address `first`. */
  function LineDesc(ps: seq<Piece>, k: nat, first: nat, ep: nat): Desc
    requires k < |ps|
  {
    var next := NextAddr(|ps|, k, first);
    Desc(ControlWord(LineFlags(ps[k].eop, k == |ps| - 1), NextAdj(|ps| - k - 1, LowWord(next))),
         ps[k].len, ps[k].addr, ep, next)
  }

  function LineChain(ps: seq<Piece>, first: nat, ep: nat): seq<Desc> {
    seq(|ps|, k requires 0 <= k < |ps| => LineDesc(ps, k, first, ep))
  }

  /** What a descriptor in memory says to the engine. */
  function View(d: Desc): Piece { Piece(d.src, d.bytes, EndOfPacket(d)) }

  function Views(c: seq<Desc>): seq<Piece> {
    seq(|c|, k requires 0 <= k < |c| => View(c[k]))
  }

  /** Every descriptor goes to the endpoint and carries 1..max bytes. */
  ghost predicate WithinLimits(c: seq<Desc>, ep: nat, max: nat) {
    forall k :: 0 <= k < |c| ==> c[k].dst == ep && 0 < c[k].bytes <= max
  }

  lemma ChainSays(ps: seq<Piece>, first: nat, ep: nat)
    ensures Views(LineChain(ps, first, ep)) == ps
    ensures Linked(LineChain(ps, first, ep), first)
    ensures StopsAtEnd(LineChain(ps, first, ep)) && ReportsAtEnd(LineChain(ps, first, ep))
    ensures ps != [] ==> LineChain(ps, first, ep)[|ps| - 1].next == 0
  {
    var c := LineChain(ps, first, ep);
    forall k | 0 <= k < |c|
      ensures View(c[k]) == ps[k]
      ensures MagicOf(c[k].control) == DESC_MAGIC
      ensures AdjacentOf(c[k].control) == NextAdj(|c| - k - 1, LowWord(c[k].next))
      ensures Stopped(c[k]) <==> k == |c| - 1
      ensures ReportsCompletion(c[k]) <==> k == |c| - 1
    {
      LineFlagsDecode(ps[k].eop, k == |ps| - 1);
      ControlDecodes(LineFlags(ps[k].eop, k == |ps| - 1), NextAdj(|ps| - k - 1, LowWord(NextAddr(|ps|, k, first))));
    }
    assert Views(c) == ps;
  }

  /**
   The frame on the wire, for every scatter list the submit accepts: the chain
   names the list's bytes in order, its end-of-packet marks cut them into
   exactly `lines` packets of `size` bytes, only its last descriptor stops the
   engine and reports completion, and the engine's prefetch reads it through.
   */
  lemma FrameOnTheWire(es: seq<Entry>, size: nat, lines: nat, max: nat, first: nat, ep: nat)
    returns (blocks: seq<Prefetch.Block>)
    requires Fits(es, size, lines, max) && first % DESC_SIZE == 0
    ensures var c := LineChain(Cut(es, size, size, max), first, ep);
            && PieceBytes(Views(c)) == Bytes(es)
            && Framed(Packets(Views(c), []), Bytes(es), size, lines)
            && WithinLimits(c, ep, max) && StopsAtEnd(c) && ReportsAtEnd(c)
            && Prefetch.Walks(c, first, first, NextAdj(|c|, LowWord(first)), blocks)
            && Prefetch.Tiles(blocks, 0, |c|) && Prefetch.WithinBoundaries(blocks, first)
  {
    var ps := Cut(es, size, size, max);
    var c := LineChain(ps, first, ep);
    ChainSays(ps, first, ep);
    CutKeepsBytes(es, size, size, max);
    LinesAreFramed(es, size, lines, max);
    assert WithinLimits(c, ep, max) by {
      PieceShape(es, size, size, lines, max);
    }
    CutNotEmpty(es, size, lines, max);
    blocks := Prefetch.PrefetchWalk(c, first);
  }

  lemma {:induction false} CutNotEmpty(es: seq<Entry>, size: nat, lines: nat, max: nat)
    requires Fits(es, size, lines, max)
    ensures Cut(es, size, size, max) != []
  {
    CutKeepsBytes(es, size, size, max);
    BytesLength(es);
    assert size * lines > 0;
  }

  /**
   The row buffers of a composed frame reach the display in order. `memory` is
   what the bus sees at each address; the mapped list may merge or move the
   rows at will as long as it still denotes their concatenation.
   */
  lemma {:induction false} PacketIsRow<T>(rows: seq<seq<T>>, memory: nat -> T, es: seq<Entry>, size: nat, max: nat,
                                          k: nat)
    requires 0 < max && 0 < size && k < |rows| && forall r :: r in rows ==> |r| == size
    requires Read(memory, Bytes(es)) == Flatten(rows)
    ensures Fits(es, size, |rows|, max)
    ensures var packets := Packets(Cut(es, size, size, max), []);
            |packets| == |rows| && Read(memory, packets[k]) == rows[k]
  {
    FlattenLength(rows, size);
    BytesLength(es);
    assert size * |rows| > 0;
    LinesAreFramed(es, size, |rows|, max);
    LineInside(Bytes(es), size, |rows|, k);
    FlattenLine(rows, size, k);
    ReadLine(memory, Bytes(es), size, k);
  }

  lemma ReadLine<T>(memory: nat -> T, addrs: seq<nat>, size: nat, k: nat)
    ensures Read(memory, Line(addrs, size, k)) == Line(Read(memory, addrs), size, k)
  {
  }

  function Read<T>(memory: nat -> T, addrs: seq<nat>): seq<T> {
    seq(|addrs|, i requires 0 <= i < |addrs| => memory(addrs[i]))
  }

  function Flatten<T>(rows: seq<seq<T>>): seq<T> {
    if rows == [] then [] else rows[0] + Flatten(rows[1..])
  }

  lemma OneMore(size: nat, n: nat)
    ensures size * (n + 1) == size + size * n
  {
  }

  lemma {:induction false} FlattenLength<T>(rows: seq<seq<T>>, size: nat)
    requires forall r :: r in rows ==> |r| == size
    ensures |Flatten(rows)| == size * |rows|
  {
    if rows != [] {
      FlattenLength(rows[1..], size);
      OneMore(size, |rows[1..]|);
    }
  }

  lemma {:induction false} FlattenLine<T>(rows: seq<seq<T>>, size: nat, k: nat)
    requires 0 < size && k < |rows| && forall r :: r in rows ==> |r| == size
    ensures |Flatten(rows)| == size * |rows| && Line(Flatten(rows), size, k) == rows[k]
    decreases k
  {
    FlattenLength(rows, size);
    LineInside(Flatten(rows), size, |rows|, k);
    if k == 0 {
      assert size * 0 == 0 && size * 1 == size;
    } else {
      FlattenLine(rows[1..], size, k - 1);
      LineShift(Flatten(rows), size, |rows|, k);
      assert Flatten(rows)[size..] == Flatten(rows[1..]);
    }
  }

  // ------------------------------------------------------------- build pass

  /** A chained descriptor once the build pass has filled in piece k. */
  function Filled(d: Desc, ps: seq<Piece>, k: nat, ep: nat): Desc
    requires k < |ps|
  {
    FilledWith(d, ps[k].addr, ep, ps[k].len, ps[k].eop, k == |ps| - 1)
  }

  function FilledWith(d: Desc, addr: nat, ep: nat, n: nat, eop: bool, final: bool): Desc {
    d.(bytes := n, src := addr, dst := ep, control := ControlSet(d.control, LineFlags(eop, final)).1)
  }

  /** `xdma_desc_set` and `xdma_desc_control_set` on one slot; the latter never refuses a flags byte. */
  method FillOne(ring: array<Desc>, slot: nat, addr: nat, ep: nat, n: nat, eop: bool, final: bool)
    requires slot < ring.Length
    modifies ring
    ensures ring[slot] == FilledWith(old(ring[slot]), addr, ep, n, eop, final)
    ensures forall j :: 0 <= j < ring.Length && j != slot ==> ring[j] == old(ring[j])
  {
    var d := ring[slot].(bytes := n, src := addr, dst := ep);
    var control := DESC_EOP;
    if !eop {
      control := 0;
    }
    if final {
      control := control | (DESC_STOPPED | DESC_COMPLETED);
    }
    LineFlagsDecode(eop, final);
    var (ok, word) := ControlSet(d.control, control);
    assert ok;
    ring[slot] := d.(control := word);
  }

  /** The pieces of one scatter entry, written to consecutive slots from `used` on. */
  method BuildEntry(ring: array<Desc>, at: nat, used: nat, addr: nat, len: nat, ep: nat, line: nat, size: nat, max: nat,
                    last: nat, ghost ps: seq<Piece>, ghost after: seq<Entry>)
    returns (used': nat, line': nat)
    requires 0 < line <= size && 0 < max && used <= |ps| == last + 1 && at + |ps| <= ring.Length
    requires ps[used..] == Cut([Entry(addr, len)] + after, line, size, max)
    modifies ring
    ensures used <= used' <= |ps| && 0 < line' <= size
    ensures ps[used'..] == Cut(after, line', size, max)
    ensures forall j :: at + used <= j < at + used' ==> ring[j] == Filled(old(ring[j]), ps, j - at, ep)
    ensures forall j :: 0 <= j < ring.Length && !(at + used <= j < at + used') ==> ring[j] == old(ring[j])
  {
    var now, remaining := addr, len;
    used', line' := used, line;
    ghost var rest := [Entry(addr, len)] + after;
    while remaining > 0
      invariant used <= used' <= |ps| && 0 < line' <= size
      invariant rest != [] && rest[0] == Entry(now, remaining) && rest[1..] == after
      invariant ps[used'..] == Cut(rest, line', size, max)
      invariant forall j :: at + used <= j < at + used' ==> ring[j] == Filled(old(ring[j]), ps, j - at, ep)
      invariant forall j :: 0 <= j < ring.Length && !(at + used <= j < at + used') ==> ring[j] == old(ring[j])
    {
      var n := Min(Min(remaining, line'), max);
      CutOnce(rest, line', size, max);
      assert ps[used'] == ps[used'..][0] && ps[used'..][1..] == ps[used' + 1..];
      rest := Advance(rest, n);
      FillOne(ring, at + used', now, ep, n, n == line', used' == last);
      now, remaining := now + n, remaining - n;
      line' := if n == line' then size else line' - n;
      used' := used' + 1;
    }
  }

  /** The second pass: every write lands in the slice the first pass reserved. */
  method BuildLines(ring: array<Desc>, at: nat, count: nat, es: seq<Entry>, ep: nat, size: nat, max: nat)
    returns (len: nat)
    requires 0 < size && 0 < max && 0 < count == |Cut(es, size, size, max)| && at + count <= ring.Length
    modifies ring
    ensures len == Total(es)
    ensures forall j :: at <= j < at + count ==>
      ring[j] == Filled(old(ring[j]), Cut(es, size, size, max), j - at, ep)
    ensures forall j :: 0 <= j < ring.Length && !(at <= j < at + count) ==> ring[j] == old(ring[j])
  {
    ghost var ps := Cut(es, size, size, max);
    var line, used := size, 0;
    len := 0;
    var i := 0;
    while i < |es|
      invariant 0 <= i <= |es| && 0 < line <= size && used <= count
      invariant ps[used..] == Cut(es[i..], line, size, max)
      invariant len + Total(es[i..]) == Total(es)
      invariant forall j :: at <= j < at + used ==> ring[j] == Filled(old(ring[j]), ps, j - at, ep)
      invariant forall j :: 0 <= j < ring.Length && !(at <= j < at + used) ==> ring[j] == old(ring[j])
    {
      assert es[i..] == [Entry(es[i].addr, es[i].len)] + es[i + 1..];
      BytesCons(es[i], es[i + 1..]);
      used, line := BuildEntry(ring, at, used, es[i].addr, es[i].len, ep, line, size, max, count - 1, ps, es[i + 1..]);
      len := len + es[i].len;
      i := i + 1;
    }
    assert es[i..] == [];
  }

  /** The three passes over one slot, in the order the driver makes them. */
  lemma ChainSlot(d: Desc, ps: seq<Piece>, k: nat, first: nat, ep: nat)
    requires k < |ps|
    ensures WithAdjacency(Filled(Chained(d, |ps|, k, first), ps, k, ep), |ps|, k) == LineDesc(ps, k, first, ep)
  {
  }

  /** Chain, fill and mark adjacency: the reserved slice ends up holding the frame's chain. */
  method BuildFrame(ring: array<Desc>, at: nat, count: nat, first: nat, es: seq<Entry>, ep: nat, size: nat, max: nat)
    returns (len: nat)
    requires 0 < size && 0 < max && 0 < count == |Cut(es, size, size, max)| && at + count <= ring.Length
    modifies ring
    ensures len == Total(es)
    ensures ring[at..at + count] == LineChain(Cut(es, size, size, max), first, ep)
    ensures forall j :: 0 <= j < ring.Length && !(at <= j < at + count) ==> ring[j] == old(ring[j])
  {
    ghost var ps := Cut(es, size, size, max);
    TransferDescInit(ring, at, count, first);
    len := BuildLines(ring, at, count, es, ep, size, max);
    FillAdjacent(ring, at, count);
    forall k | 0 <= k < count
      ensures ring[at + k] == LineDesc(ps, k, first, ep)
    {
      ChainSlot(old(ring[at + k]), ps, k, first, ep);
    }
  }

  // ----------------------------------------------------------------- submit

  datatype Verdict = Queued | Invalid | Busy | NoMemory | IoError

  /** What surrounds one call: facts of the device and results of kernel calls the driver only tests. */
  datatype Surroundings = Surroundings(
    offline: bool, h2cStreaming: bool, memoryLeft: bool, offlineAtQueue: bool, status: StatusWord)

  /** The line path's own exclusion: nothing reserved, nothing running, nothing queued. */
  ghost predicate Idle(e: Engine)
    reads e
  {
    e.descUsed == 0 && !e.running && e.queue == []
  }

  /**
   The frame stands in the slots from `at` on and nowhere else, and it is what
   the engine fetches when told of the descriptor at `addr` and `adj` more.
   */
  ghost predicate FrameInRing(was: seq<Desc>, now: seq<Desc>, bus: nat, addr: nat, adj: nat, at: nat, ps: seq<Piece>,
                              ep: nat)
  {
    && |was| == |now| && at + |ps| <= |now|
    && now[at..at + |ps|] == LineChain(ps, bus + 32 * at, ep)
    && (forall j :: 0 <= j < |now| && !(at <= j < at + |ps|) ==> now[j] == was[j])
    && Prefetch.Fetches(now, bus, addr, adj, at, |ps|)
  }

  lemma FrameFetched(was: seq<Desc>, now: seq<Desc>, bus: nat, at: nat, ps: seq<Piece>, ep: nat)
    requires bus % DESC_SIZE == 0 && ps != [] && |was| == |now| && at + |ps| <= |now|
    requires now[at..at + |ps|] == LineChain(ps, bus + DESC_SIZE * at, ep)
    requires forall j :: 0 <= j < |now| && !(at <= j < at + |ps|) ==> now[j] == was[j]
    ensures FrameInRing(was, now, bus, bus + 32 * at, NextAdj(|ps|, LowWord(bus + 32 * at)), at, ps, ep)
  {
    ChainSays(ps, bus + DESC_SIZE * at, ep);
    Prefetch.ChainFetched(now, bus, at, |ps|);
  }

  /** The frame built in its slots, as the engine will find it. */
  method BuildInRing(ring: array<Desc>, bus: nat, at: nat, count: nat, first: nat, es: seq<Entry>, ep: nat, size: nat,
                     max: nat)
    returns (len: nat)
    requires 0 < size && 0 < max && 0 < count == |Cut(es, size, size, max)| && at + count <= ring.Length
    requires bus % DESC_SIZE == 0 && first == bus + DESC_SIZE * at
    modifies ring
    ensures len == Total(es)
    ensures FrameInRing(old(ring[..]), ring[..], bus, first, NextAdj(count, LowWord(first)), at,
                        Cut(es, size, size, max), ep)
  {
    len := BuildFrame(ring, at, count, first, es, ep, size, max);
    FrameFetched(old(ring[..]), ring[..], bus, at, Cut(es, size, size, max), ep);
  }

  /** Reserve a counted frame's slots, at the ring's start if they would not fit behind the next one, and build it. */
  method ReserveFrame(e: Engine, es: seq<Entry>, ep: nat, size: nat, max: nat, count: nat) returns (t: Transfer)
    requires e.Valid() && 0 < size && 0 < max && 0 < count == |Cut(es, size, size, max)| <= e.ring.Length
    modifies e`descIdx, e`descUsed, e.ring
    ensures var at := if old(e.descIdx) + count <= e.ring.Length then old(e.descIdx) else 0;
            && fresh(t) && t.state == New && t.lastInRequest && t.hasCallback
            && t.slot == at && t.count == count && t.bus == e.bus + 32 * at && t.len == Total(es)
            && FrameInRing(old(e.ring[..]), e.ring[..], e.bus, t.bus, NextAdj(count, LowWord(t.bus)), at,
                           Cut(es, size, size, max), ep)
            && e.descUsed == old(e.descUsed) + count
            && e.descIdx == if at + count == e.ring.Length then 0 else at + count
  {
    if e.descIdx + count > e.ring.Length {
      e.descIdx := 0;
    }
    var at := e.descIdx;
    var next := NextIndex(at, count, e.ring.Length);
    var first := e.bus + DESC_SIZE * at;
    var len := BuildInRing(e.ring, e.bus, at, count, first, es, ep, size, max);
    e.descIdx, e.descUsed := next, e.descUsed + count;
    t := new Transfer(at, count, first, len, true, true);
    assert t.bus == first;
  }

  /** Reserve, build and queue a counted frame on an idle engine; a refusal gives the slots back. */
  method QueueFrame(e: Engine, env: Surroundings, es: seq<Entry>, ep: nat, size: nat, max: nat, count: nat)
    returns (t: Transfer?)
    requires e.Valid() && Idle(e) && 0 < size && 0 < max && 0 < count == |Cut(es, size, size, max)| <= e.ring.Length
    modifies e, e.ring
    ensures e.Valid() && e.ioDone == old(e.ioDone)
    ensures t != null <==> !env.offlineAtQueue && !old(e.shutdownRequested)
    ensures t != null ==>
      var at := if old(e.descIdx) + count <= e.ring.Length then old(e.descIdx) else 0;
      && fresh(t) && e.queue == [t] && e.RunStarted() && e.status == env.status
      && t.slot == at && t.count == count && t.bus == e.bus + 32 * at && t.len == Total(es)
      && t.lastInRequest && t.hasCallback
      && FrameInRing(old(e.ring[..]), e.ring[..], e.bus, e.firstDesc, e.firstAdjacent, at, Cut(es, size, size, max), ep)
      && e.descUsed == count && e.descIdx == if at + count == e.ring.Length then 0 else at + count
    ensures t == null ==> e.queue == [] && !e.running && e.descUsed == 0
  {
    var xfer := ReserveFrame(e, es, ep, size, max, count);
    ghost var built := e.ring[..];
    var accepted := e.Enqueue(xfer, env.offlineAtQueue, env.status);
    if !accepted {
      e.descUsed := e.descUsed - count;
      DescDone(e.ring, xfer.slot, count);
      return null;
    }
    assert e.ring[..] == built;
    t := xfer;
  }

  /** `xdma_xfer_submit_lines_nowait` on a list already mapped; an empty one is a failed mapping. */
  method SubmitLines(e: Engine, env: Surroundings, es: seq<Entry>, ep: nat, size: nat, lines: nat, max: nat)
    returns (rv: Verdict, t: Transfer?)
    requires e.Valid()
    modifies e, e.ring
    ensures e.Valid() && e.ioDone == old(e.ioDone)
    ensures rv.Queued? <==>
      && !env.offline && env.h2cStreaming && Fits(es, size, lines, max)
      && |Cut(es, size, size, max)| <= e.ring.Length && env.memoryLeft
      && old(Idle(e)) && !env.offlineAtQueue && !old(e.shutdownRequested)
    ensures rv.Queued? ==>
      var ps := Cut(es, size, size, max);
      var at := if old(e.descIdx) + |ps| <= e.ring.Length then old(e.descIdx) else 0;
      && t != null && fresh(t) && e.queue == [t] && e.RunStarted() && e.status == env.status
      && t.slot == at && t.count == |ps| && t.bus == e.bus + 32 * at && t.len == size * lines
      && t.lastInRequest && t.hasCallback
      && at + |ps| <= e.ring.Length
      && FrameInRing(old(e.ring[..]), e.ring[..], e.bus, e.firstDesc, e.firstAdjacent, at, ps, ep)
      && e.descUsed == |ps|
      && e.descIdx == if at + |ps| == e.ring.Length then 0 else at + |ps|
    ensures !rv.Queued? ==>
      t == null && e.queue == old(e.queue) && e.running == old(e.running) && e.descUsed == old(e.descUsed)
    ensures !rv.Queued? && !(old(Idle(e)) && rv.Busy? && !env.offline) ==>
      unchanged(e) && unchanged(e.ring)
  {
    rv, t := Invalid, null;
    if size == 0 || lines == 0 {
      return;
    }
    if env.offline {
      return Busy, null;
    }
    if !env.h2cStreaming {
      return;
    }
    if es == [] {
      assert !Fits(es, size, lines, max) by { assert size * lines > 0; }
      return IoError, null;
    }
    var counted := CountLineDescriptors(es, size, lines, max);
    if counted.None? {
      return;
    }
    var count := counted.value;
    if count > e.ring.Length {
      return;
    }
    if !env.memoryLeft {
      return NoMemory, null;
    }
    if e.descUsed != 0 || e.running || e.queue != [] {
      return Busy, null;
    }
    CutNotEmpty(es, size, lines, max);
    t := QueueFrame(e, env, es, ep, size, max, count);
    rv := if t == null then Busy else Queued;
  }

  // ------------------------------------------------------------- completion

  /**
   `xdma_xfer_completion` for a line request: the byte count it reports is the
   transfer's length if the engine completed it and zero in every other state.
   A transfer still with the engine is aborted and the engine stopped.
   */
  method CompleteLines(e: Engine, t: Transfer, now: StatusWord) returns (done: nat)
    requires e.Valid() && 0 < t.count && t.slot + t.count <= e.ring.Length
    requires e.queue == [] || e.queue == [t]
    requires t.state == Submitted ==> e.queue == [t]
    modifies e, e.ring, t
    ensures done == if old(t.state) == Completed then t.len else 0
    ensures e.Valid() && e.queue == [] && t.state == (if old(t.state) == Submitted then Aborted else old(t.state))
    ensures e.descUsed == old(e.descUsed) - t.count
    ensures e.running == (old(e.running) && (old(t.state) == Completed || old(t.state) == Failed))
    ensures forall j :: t.slot <= j < t.slot + t.count ==> e.ring[j] == CLEARED
    ensures forall j :: 0 <= j < e.ring.Length && !(t.slot <= j < t.slot + t.count) ==> e.ring[j] == old(e.ring[j])
    ensures e.descIdx == old(e.descIdx) && e.ioDone == old(e.ioDone)
    ensures e.status == if old(t.state) == Completed || old(t.state) == Failed then old(e.status) else now
  {
    done := 0;
    if t.state == Completed {
      done := t.len;
    } else if t.state != Failed {
      e.status := now;
      if e.queue != [] && e.queue[0] == t {
        e.queue := e.queue[1..];
      }
      if t.state == Submitted {
        t.state := Aborted;
      }
      e.running := false;
    }
    DescDone(e.ring, t.slot, t.count);
    e.descUsed := e.descUsed - t.count;
  }
}
