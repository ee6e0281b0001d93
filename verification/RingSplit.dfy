/**
 Splitting a memory-mapped request over the descriptor ring. A transfer's slots
 must be contiguous, so a request that reaches the end of the ring continues in
 a further transfer from slot zero.
 */
module RingSplit {
  import opened Scatter
  import opened Descriptors
  import opened Engines
  import Arithmetic
  import Prefetch
  import RequestList

  // ---------------------------------------------------------- specification

  /** One descriptor's work: a memory range and the endpoint address it goes with. */
  datatype Item = Item(addr: nat, len: nat, ep: nat)

  /** Endpoint address of piece k; it stands still on a fixed-address engine. */
  function EpAt(ps: seq<Entry>, k: nat, ep: nat, fixed: bool): nat
    requires k <= |ps|
  {
    if k == 0 || fixed then ep else EpAt(ps, k - 1, ep, fixed) + ps[k - 1].len
  }

  /** The request as one unsplit build would describe it. */
  function Items(ps: seq<Entry>, ep: nat, fixed: bool): seq<Item> {
    seq(|ps|, k requires 0 <= k < |ps| => ItemAt(ps, k, ep, fixed))
  }

  function ItemAt(ps: seq<Entry>, k: nat, ep: nat, fixed: bool): Item
    requires k < |ps|
  {
    Item(ps[k].addr, ps[k].len, EpAt(ps, k, ep, fixed))
  }

  /** `count` pieces of the request from piece `from` on, in ring slots slot, slot + 1, ... */
  datatype Slice = Slice(slot: nat, from: nat, count: nat)

  /** The next slice ends with the request or with the ring, whichever comes first. */
  function NextSlice(slot: nat, from: nat, n: nat, slots: nat): (s: Slice)
    requires slot < slots && from < n
    ensures 0 < s.count && slot + s.count <= slots && from + s.count <= n
  {
    Slice(slot, from, if n - from < slots - slot then n - from else slots - slot)
  }

  /** The slices of the pieces from `from` on when the next free slot is `slot` of `slots`. */
  function Slices(slot: nat, from: nat, n: nat, slots: nat): (s: seq<Slice>)
    requires slot < slots && from <= n
    decreases n - from
  {
    if from == n then [] else
      var s := NextSlice(slot, from, n, slots);
      [s] + Slices(Following(slot, s.count, slots), from + s.count, n, slots)
  }

  /** The slot after `count` slots from `slot` on, round the ring. */
  function Following(slot: nat, count: nat, slots: nat): (next: nat)
    requires slot < slots && slot + count <= slots
    ensures next < slots
  {
    if slot + count == slots then 0 else slot + count
  }

  lemma FollowingIsModulo(slot: nat, count: nat, slots: nat)
    requires slot < slots && slot + count <= slots
    ensures (slot + count) % slots == Following(slot, count, slots)
  {
    Arithmetic.RingIndex(slot + count, slots);
  }

  lemma SlicesOnce(slot: nat, from: nat, n: nat, slots: nat)
    requires slot < slots && from < n
    ensures var ss := Slices(slot, from, n, slots);
            && ss != [] && ss[0] == NextSlice(slot, from, n, slots) && ss[0].slot == slot && ss[0].from == from
            && 0 < ss[0].count && slot + ss[0].count <= slots && from + ss[0].count <= n
            && ss[1..] == Slices(Following(slot, ss[0].count, slots), from + ss[0].count, n, slots)
  {
  }

  /** Total length of `count` pieces from `from` on. */
  function Length(ps: seq<Entry>, from: nat, count: nat): nat
    requires from + count <= |ps|
  {
    if count == 0 then 0 else Length(ps, from, count - 1) + ps[from + count - 1].len
  }

  lemma {:induction false} LengthIs(ps: seq<Entry>, from: nat, count: nat)
    requires from + count <= |ps|
    ensures Length(ps, from, count) == Total(ps[from..from + count])
  {
    if count > 0 {
      LengthIs(ps, from, count - 1);
      TotalOneMore(ps[from..from + count - 1], ps[from + count - 1]);
      assert ps[from..from + count] == ps[from..from + count - 1] + [ps[from + count - 1]];
    }
  }

  lemma {:induction false} TotalOneMore(ps: seq<Entry>, p: Entry)
    ensures Total(ps + [p]) == Total(ps) + p.len
  {
    BytesAppend(ps, [p]);
    BytesCons(p, []);
    assert [p] + [] == [p];
  }

  /** The endpoint moves on by the bytes before the piece, or stands still. */
  lemma {:induction false} EpAtIs(ps: seq<Entry>, k: nat, ep: nat, fixed: bool)
    requires k <= |ps|
    ensures EpAt(ps, k, ep, fixed) == if fixed then ep else ep + Total(ps[..k])
  {
    if k > 0 && !fixed {
      EpAtIs(ps, k - 1, ep, fixed);
      TotalOneMore(ps[..k - 1], ps[k - 1]);
      assert ps[..k] == ps[..k - 1] + [ps[k - 1]];
    }
  }

  /** The control word of descriptor k of n. */
  function ControlOf(n: nat, k: nat, first: nat): bv32
    requires k < n
  {
    ControlWord(if k + 1 == n then DESC_FINAL else 0, NextAdj(n - k - 1, LowWord(NextAddr(n, k, first))))
  }

  /** Descriptor k of a slice that starts at bus address `first`. */
  function SliceDesc(s: Slice, k: nat, first: nat, ps: seq<Entry>, ep: nat, fixed: bool, toDevice: bool): Desc
    requires k < s.count && s.from + s.count <= |ps|
  {
    Says(Desc(ControlOf(s.count, k, first), 0, 0, 0, NextAddr(s.count, k, first)),
         ItemAt(ps, s.from + k, ep, fixed), toDevice)
  }

  function SliceChain(s: Slice, first: nat, ps: seq<Entry>, ep: nat, fixed: bool, toDevice: bool): seq<Desc>
    requires s.from + s.count <= |ps|
  {
    seq(s.count, k requires 0 <= k < s.count => SliceDesc(s, k, first, ps, ep, fixed, toDevice))
  }

  /** A descriptor told to do one item's work. */
  function Says(d: Desc, i: Item, toDevice: bool): Desc {
    if toDevice then d.(bytes := i.len, src := i.addr, dst := i.ep)
    else d.(bytes := i.len, src := i.ep, dst := i.addr)
  }

  /** The work a descriptor in memory describes to the engine. */
  function Read(d: Desc, toDevice: bool): Item {
    if toDevice then Item(d.src, d.bytes, d.dst) else Item(d.dst, d.bytes, d.src)
  }

  function ReadAll(c: seq<Desc>, toDevice: bool): seq<Item> {
    seq(|c|, k requires 0 <= k < |c| => Read(c[k], toDevice))
  }

  // -------------------------------------------------------------- the split

  /** The final flags and an empty field are both flag bytes. */
  lemma FlagBytes()
    ensures DESC_FINAL & !0xff == 0 && DESC_FINAL & DESC_STOPPED != 0
    ensures DESC_FINAL & DESC_COMPLETED != 0 && DESC_FINAL & DESC_EOP != 0
    ensures (0 as bv32) & !0xff == 0 && (0 as bv32) & DESC_STOPPED == 0
    ensures (0 as bv32) & DESC_COMPLETED == 0 && (0 as bv32) & DESC_EOP == 0
  {
  }

  lemma ControlOfDecodes(n: nat, k: nat, first: nat)
    requires k < n
    ensures MagicOf(ControlOf(n, k, first)) == DESC_MAGIC
    ensures AdjacentOf(ControlOf(n, k, first)) == NextAdj(n - k - 1, LowWord(NextAddr(n, k, first)))
    ensures FlagsOf(ControlOf(n, k, first)) & DESC_STOPPED != 0 <==> k == n - 1
    ensures FlagsOf(ControlOf(n, k, first)) & DESC_COMPLETED != 0 <==> k == n - 1
    ensures FlagsOf(ControlOf(n, k, first)) & DESC_EOP != 0 <==> k == n - 1
  {
    FlagBytes();
    ControlDecodes(if k + 1 == n then DESC_FINAL else 0, NextAdj(n - k - 1, LowWord(NextAddr(n, k, first))));
  }

  /** A slice's chain says what its part of the unsplit request says. */
  lemma SliceSays(s: Slice, first: nat, ps: seq<Entry>, ep: nat, fixed: bool, toDevice: bool)
    requires s.from + s.count <= |ps|
    ensures ReadAll(SliceChain(s, first, ps, ep, fixed, toDevice), toDevice)
         == Items(ps, ep, fixed)[s.from..s.from + s.count]
  {
    var read := ReadAll(SliceChain(s, first, ps, ep, fixed, toDevice), toDevice);
    var part := Items(ps, ep, fixed)[s.from..s.from + s.count];
    forall k | 0 <= k < s.count
      ensures read[k] == part[k]
    {
      assert read[k] == Read(SliceDesc(s, k, first, ps, ep, fixed, toDevice), toDevice);
    }
  }

  lemma SliceControls(s: Slice, first: nat, ps: seq<Entry>, ep: nat, fixed: bool, toDevice: bool,
                      k: nat)
    requires s.from + s.count <= |ps| && k < s.count
    ensures var d := SliceChain(s, first, ps, ep, fixed, toDevice)[k];
            d.control == ControlOf(s.count, k, first) && d.next == NextAddr(s.count, k, first)
  {
  }

  lemma SliceLinked(s: Slice, first: nat, ps: seq<Entry>, ep: nat, fixed: bool, toDevice: bool)
    requires s.from + s.count <= |ps|
    ensures Linked(SliceChain(s, first, ps, ep, fixed, toDevice), first)
    ensures StopsAtEnd(SliceChain(s, first, ps, ep, fixed, toDevice))
    ensures ReportsAtEnd(SliceChain(s, first, ps, ep, fixed, toDevice))
  {
    forall k | 0 <= k < s.count
      ensures var d := SliceChain(s, first, ps, ep, fixed, toDevice)[k];
              && d.next == NextAddr(s.count, k, first) && MagicOf(d.control) == DESC_MAGIC
              && AdjacentOf(d.control) == NextAdj(s.count - k - 1, LowWord(d.next))
              && (Stopped(d) <==> k == s.count - 1) && (ReportsCompletion(d) <==> k == s.count - 1)
    {
      ControlOfDecodes(s.count, k, first);
      SliceControls(s, first, ps, ep, fixed, toDevice, k);
    }
  }

  /** Each transfer on its own is a chain the engine walks from end to end. */
  lemma SliceIsWalked(s: Slice, first: nat, ps: seq<Entry>, ep: nat, fixed: bool, toDevice: bool)
    returns (blocks: seq<Prefetch.Block>)
    requires 0 < s.count && s.from + s.count <= |ps| && first % DESC_SIZE == 0
    ensures var c := SliceChain(s, first, ps, ep, fixed, toDevice);
            && Prefetch.Walks(c, first, first, NextAdj(|c|, LowWord(first)), blocks)
            && Prefetch.Tiles(blocks, 0, |c|) && Prefetch.WithinBoundaries(blocks, first)
  {
    SliceLinked(s, first, ps, ep, fixed, toDevice);
    blocks := Prefetch.PrefetchWalk(SliceChain(s, first, ps, ep, fixed, toDevice), first);
  }

  /** What the engine reads of one slice, its chain where the slot puts it. */
  function Said(s: Slice, bus: nat, ps: seq<Entry>, ep: nat, fixed: bool, toDevice: bool): seq<Item>
    requires s.from + s.count <= |ps|
  {
    ReadAll(SliceChain(s, bus + DESC_SIZE * s.slot, ps, ep, fixed, toDevice), toDevice)
  }

  /** The slices name pieces of a request of n. */
  ghost predicate Within(ss: seq<Slice>, n: nat) {
    ss == [] || (ss[0].from + ss[0].count <= n && Within(ss[1..], n))
  }

  /** What the engine reads of all the slices together. */
  ghost function Concatenated(ss: seq<Slice>, bus: nat, ps: seq<Entry>, ep: nat, fixed: bool, toDevice: bool): seq<Item>
    requires Within(ss, |ps|)
  {
    if ss == [] then []
    else Said(ss[0], bus, ps, ep, fixed, toDevice) + Concatenated(ss[1..], bus, ps, ep, fixed, toDevice)
  }

  /** Every slice is a non-empty contiguous piece of the ring and of the request. */
  lemma {:induction false} SlicesInRing(slot: nat, from: nat, n: nat, slots: nat)
    requires slot < slots && from <= n
    ensures forall s :: s in Slices(slot, from, n, slots) ==>
      0 < s.count && s.slot + s.count <= slots && from <= s.from && s.from + s.count <= n
    decreases n - from
  {
    if from < n {
      var s := Slices(slot, from, n, slots)[0];
      SlicesOnce(slot, from, n, slots);
      SlicesInRing(Following(slot, s.count, slots), from + s.count, n, slots);
    }
  }

  /** The parts of a sequence that the slices name, in order. */
  ghost function Parts<T>(ss: seq<Slice>, all: seq<T>): seq<T>
    requires Within(ss, |all|)
  {
    if ss == [] then [] else all[ss[0].from..ss[0].from + ss[0].count] + Parts(ss[1..], all)
  }

  lemma {:induction false} SlicesArePartition<T>(slot: nat, from: nat, slots: nat, all: seq<T>)
    requires slot < slots && from <= |all|
    ensures Within(Slices(slot, from, |all|, slots), |all|)
    ensures Parts(Slices(slot, from, |all|, slots), all) == all[from..]
    decreases |all| - from
  {
    if from < |all| {
      SlicesOnce(slot, from, |all|, slots);
      var count := Slices(slot, from, |all|, slots)[0].count;
      SlicesArePartition(Following(slot, count, slots), from + count, slots, all);
      assert all[from..] == all[from..from + count] + all[from + count..];
    }
  }

  lemma SaidIs(s: Slice, bus: nat, ps: seq<Entry>, ep: nat, fixed: bool, toDevice: bool)
    requires s.from + s.count <= |ps|
    ensures Said(s, bus, ps, ep, fixed, toDevice) == Items(ps, ep, fixed)[s.from..s.from + s.count]
  {
    SliceSays(s, bus + DESC_SIZE * s.slot, ps, ep, fixed, toDevice);
  }

  lemma {:induction false} ConcatenatedParts(ss: seq<Slice>, bus: nat, ps: seq<Entry>, ep: nat, fixed: bool,
                                             toDevice: bool)
    requires Within(ss, |ps|)
    ensures Concatenated(ss, bus, ps, ep, fixed, toDevice) == Parts(ss, Items(ps, ep, fixed))
  {
    if ss != [] {
      SaidIs(ss[0], bus, ps, ep, fixed, toDevice);
      ConcatenatedParts(ss[1..], bus, ps, ep, fixed, toDevice);
    }
  }

  /** The split loses, repeats and reorders nothing: it says what an unsplit build would have said. */
  lemma {:induction false} SplitSaysTheSame(slot: nat, slots: nat, bus: nat, ps: seq<Entry>, ep: nat, fixed: bool,
                                            toDevice: bool)
    requires slot < slots
    ensures Within(Slices(slot, 0, |ps|, slots), |ps|)
    ensures Concatenated(Slices(slot, 0, |ps|, slots), bus, ps, ep, fixed, toDevice) == Items(ps, ep, fixed)
  {
    var all := Items(ps, ep, fixed);
    SlicesArePartition(slot, 0, slots, all);
    ConcatenatedParts(Slices(slot, 0, |ps|, slots), bus, ps, ep, fixed, toDevice);
    assert all[0..] == all;
  }

  /** n pieces from slot i on become exactly ceil((i + n) / slots) transfers. */
  lemma {:induction false} SplitCount(slot: nat, from: nat, n: nat, slots: nat)
    requires slot < slots && from < n
    ensures |Slices(slot, from, n, slots)| == Arithmetic.CeilDiv(slot + (n - from), slots)
    decreases n - from
  {
    if n - from <= slots - slot {
      Arithmetic.CeilOfOne(slot + (n - from), slots);
      assert Slices(Following(slot, n - from, slots), n, n, slots) == [];
    } else {
      var count := slots - slot;
      SplitCount(0, from + count, n, slots);
      Arithmetic.CeilStep(n - from - count, slots);
    }
  }

  /** So the two transfer records of a request suffice whenever it fits the ring. */
  lemma {:induction false} TwoSuffice(slot: nat, n: nat, slots: nat)
    requires slot < slots && 0 < n <= slots
    ensures |Slices(slot, 0, n, slots)| <= 2
    ensures |Slices(slot, 0, n, slots)| == 2 ==>
      var ss := Slices(slot, 0, n, slots);
      ss[0].slot == slot && ss[1].slot == 0 && ss[1].count <= slot
  {
    if n > slots - slot {
      var count := slots - slot;
      assert Slices(Following(0, n - count, slots), n, n, slots) == [];
      assert Slices(0, count, n, slots) == [Slice(0, count, n - count)];
    } else {
      assert Slices(Following(slot, n, slots), n, n, slots) == [];
    }
  }

  // ----------------------------------------------------- the ring afterwards

  /** The chain of a slice, in the ring at bus address `bus`. */
  function ChainAt(s: Slice, bus: nat, ps: seq<Entry>, ep: nat, fixed: bool, toDevice: bool): seq<Desc> {
    if s.from + s.count <= |ps| then SliceChain(s, bus + DESC_SIZE * s.slot, ps, ep, fixed, toDevice) else []
  }

  /** The ring with a chain written to the slots from `at` on. */
  function Put(ring: seq<Desc>, at: nat, c: seq<Desc>): (r: seq<Desc>)
    ensures |r| == |ring|
  {
    if at + |c| <= |ring| then ring[..at] + c + ring[at + |c|..] else ring
  }

  /** The ring once the first m slices have been built, one after the other. */
  function Written(ring: seq<Desc>, ss: seq<Slice>, m: nat, bus: nat, ps: seq<Entry>, ep: nat, fixed: bool,
                   toDevice: bool): (r: seq<Desc>)
    requires m <= |ss|
    ensures |r| == |ring|
  {
    if m == 0 then ring
    else Put(Written(ring, ss, m - 1, bus, ps, ep, fixed, toDevice), ss[m - 1].slot,
             ChainAt(ss[m - 1], bus, ps, ep, fixed, toDevice))
  }

  lemma WrittenOnce(ring: seq<Desc>, ss: seq<Slice>, m: nat, bus: nat, ps: seq<Entry>, ep: nat,
                    fixed: bool, toDevice: bool)
    requires m < |ss|
    ensures Written(ring, ss, 0, bus, ps, ep, fixed, toDevice) == ring
    ensures Written(ring, ss, m + 1, bus, ps, ep, fixed, toDevice) ==
            Put(Written(ring, ss, m, bus, ps, ep, fixed, toDevice), ss[m].slot,
                ChainAt(ss[m], bus, ps, ep, fixed, toDevice))
  {
  }

  lemma PutIs(was: seq<Desc>, now: seq<Desc>, at: nat, c: seq<Desc>)
    requires |was| == |now| && at + |c| <= |was|
    requires now[at..at + |c|] == c
    requires forall j :: 0 <= j < |was| && !(at <= j < at + |c|) ==> now[j] == was[j]
    ensures now == Put(was, at, c)
  {
    assert now == now[..at] + now[at..at + |c|] + now[at + |c|..];
    assert now[..at] == was[..at] && now[at + |c|..] == was[at + |c|..];
  }

  /** A chain written to the ring reads back, and stays while later ones go elsewhere. */
  lemma PutReads(ring: seq<Desc>, at: nat, c: seq<Desc>, from: nat, n: nat)
    requires at + |c| <= |ring| && from + n <= |ring|
    ensures Put(ring, at, c)[at..at + |c|] == c
    ensures from + n <= at || at + |c| <= from ==> Put(ring, at, c)[from..from + n] == ring[from..from + n]
  {
  }

  /** What the engine finds in the ring, slice by slice. */
  function ReadRing(ring: seq<Desc>, ss: seq<Slice>, toDevice: bool): seq<Item> {
    if ss == [] then []
    else
      var s := ss[0];
      (if s.slot + s.count <= |ring| then ReadAll(ring[s.slot..s.slot + s.count], toDevice) else [])
      + ReadRing(ring, ss[1..], toDevice)
  }

  /** Every slice's chain stands in the ring. */
  ghost predicate Holds(ring: seq<Desc>, ss: seq<Slice>, bus: nat, ps: seq<Entry>, ep: nat, fixed: bool,
                        toDevice: bool)
  {
    forall k :: 0 <= k < |ss| ==> HoldsOne(ring, ss[k], bus, ps, ep, fixed, toDevice)
  }

  ghost predicate HoldsOne(ring: seq<Desc>, s: Slice, bus: nat, ps: seq<Entry>, ep: nat, fixed: bool, toDevice: bool) {
    && s.slot + s.count <= |ring| && s.from + s.count <= |ps|
    && ring[s.slot..s.slot + s.count] == ChainAt(s, bus, ps, ep, fixed, toDevice)
  }

  lemma {:induction false} ReadRingSays(ring: seq<Desc>, ss: seq<Slice>, bus: nat, ps: seq<Entry>, ep: nat, fixed: bool,
                                        toDevice: bool)
    requires Holds(ring, ss, bus, ps, ep, fixed, toDevice)
    ensures Within(ss, |ps|)
    ensures ReadRing(ring, ss, toDevice) == Concatenated(ss, bus, ps, ep, fixed, toDevice)
  {
    if ss != [] {
      assert HoldsOne(ring, ss[0], bus, ps, ep, fixed, toDevice);
      forall k | 0 <= k < |ss[1..]|
        ensures HoldsOne(ring, ss[1..][k], bus, ps, ep, fixed, toDevice)
      {
        assert ss[1..][k] == ss[k + 1];
      }
      ReadRingSays(ring, ss[1..], bus, ps, ep, fixed, toDevice);
    }
  }

  /** Slot j is none of the n slots from `slot` on, round the ring. */
  predicate Apart(j: nat, slot: nat, n: nat, slots: nat) {
    !(slot <= j < slot + n) && !(j + slots < slot + n)
  }

  lemma OneHolds(ring: seq<Desc>, s: Slice, bus: nat, ps: seq<Entry>, ep: nat, fixed: bool,
                 toDevice: bool)
    requires s.slot + s.count <= |ring| && s.from + s.count <= |ps|
    ensures var after := Put(ring, s.slot, ChainAt(s, bus, ps, ep, fixed, toDevice));
            && HoldsOne(after, s, bus, ps, ep, fixed, toDevice)
            && forall j :: 0 <= j < |ring| && !(s.slot <= j < s.slot + s.count) ==> after[j] == ring[j]
  {
    PutReads(ring, s.slot, ChainAt(s, bus, ps, ep, fixed, toDevice), 0, 0);
  }

  lemma OtherHolds(ring: seq<Desc>, t: Slice, s: Slice, bus: nat, ps: seq<Entry>, ep: nat, fixed: bool, toDevice: bool,
                   c: seq<Desc>)
    requires HoldsOne(ring, s, bus, ps, ep, fixed, toDevice)
    requires t.slot + |c| <= |ring| && t.slot + |c| <= s.slot
    ensures HoldsOne(Put(ring, t.slot, c), s, bus, ps, ep, fixed, toDevice)
  {
    PutReads(ring, t.slot, c, s.slot, s.count);
  }

  /** The one or two slices of a request that fits the ring. */
  lemma {:induction false} BothHold(ring: seq<Desc>, slot: nat, bus: nat, ps: seq<Entry>, ep: nat, fixed: bool,
                                    toDevice: bool)
    requires slot < |ring| && 0 < |ps| <= |ring|
    ensures var ss := Slices(slot, 0, |ps|, |ring|);
            var after := Written(ring, ss, |ss|, bus, ps, ep, fixed, toDevice);
            && Holds(after, ss, bus, ps, ep, fixed, toDevice)
            && forall j :: 0 <= j < |ring| && Apart(j, slot, |ps|, |ring|) ==> after[j] == ring[j]
  {
    var ss := Slices(slot, 0, |ps|, |ring|);
    TwoSuffice(slot, |ps|, |ring|);
    SlicesOnce(slot, 0, |ps|, |ring|);
    WrittenOnce(ring, ss, 0, bus, ps, ep, fixed, toDevice);
    OneHolds(ring, ss[0], bus, ps, ep, fixed, toDevice);
    if |ss| == 2 {
      var one := Written(ring, ss, 1, bus, ps, ep, fixed, toDevice);
      TwoSlices(slot, |ps|, |ring|);
      WrittenOnce(ring, ss, 1, bus, ps, ep, fixed, toDevice);
      OneHolds(one, ss[1], bus, ps, ep, fixed, toDevice);
      OtherHolds(one, ss[1], ss[0], bus, ps, ep, fixed, toDevice, ChainAt(ss[1], bus, ps, ep, fixed, toDevice));
    }
  }

  lemma {:induction false} OneSlice(slot: nat, n: nat, slots: nat)
    requires slot < slots && 0 < n <= slots - slot
    ensures Slices(slot, 0, n, slots) == [Slice(slot, 0, n)]
  {
    SlicesOnce(slot, 0, n, slots);
    assert Slices(Following(slot, n, slots), n, n, slots) == [];
  }

  lemma {:induction false} TwoSlices(slot: nat, n: nat, slots: nat)
    requires slot < slots && 0 < n <= slots && |Slices(slot, 0, n, slots)| == 2
    ensures n > slots - slot
    ensures Slices(slot, 0, n, slots) == [Slice(slot, 0, slots - slot), Slice(0, slots - slot, n - (slots - slot))]
  {
    SlicesOnce(slot, 0, n, slots);
    var count := slots - slot;
    if n <= count {
      OneSlice(slot, n, slots);
    }
    if n > count {
      SlicesOnce(0, count, n, slots);
      assert Slices(Following(0, n - count, slots), n, n, slots) == [];
    }
  }

  /** The unsplit items, spelled out. */
  lemma ItemsAre(ps: seq<Entry>, ep: nat, fixed: bool)
    ensures |Items(ps, ep, fixed)| == |ps|
    ensures forall k :: 0 <= k < |ps| ==>
      Items(ps, ep, fixed)[k] == Item(ps[k].addr, ps[k].len, if fixed then ep else ep + Total(ps[..k]))
  {
    forall k | 0 <= k < |ps|
      ensures Items(ps, ep, fixed)[k] == Item(ps[k].addr, ps[k].len, if fixed then ep else ep + Total(ps[..k]))
    {
      EpAtIs(ps, k, ep, fixed);
    }
  }

  /** A slice whose chain stands in the ring is fetched from the address of its first slot. */
  lemma SliceFetched(ring: seq<Desc>, s: Slice, bus: nat, ps: seq<Entry>, ep: nat, fixed: bool, toDevice: bool)
    requires bus % DESC_SIZE == 0 && 0 < s.count && HoldsOne(ring, s, bus, ps, ep, fixed, toDevice)
    ensures Prefetch.Fetches(ring, bus, bus + 32 * s.slot, NextAdj(s.count, LowWord(bus + 32 * s.slot)), s.slot,
                             s.count)
  {
    SliceLinked(s, bus + DESC_SIZE * s.slot, ps, ep, fixed, toDevice);
    Prefetch.ChainFetched(ring, bus, s.slot, s.count);
  }

  /** Descriptor i of a slice whose chain stands in the ring, field by field. */
  lemma SlotSays(ring: seq<Desc>, s: Slice, bus: nat, ps: seq<Entry>, ep: nat, fixed: bool, toDevice: bool, i: nat)
    requires HoldsOne(ring, s, bus, ps, ep, fixed, toDevice) && i < s.count
    ensures var d, k := ring[s.slot + i], s.from + i;
            var there := if fixed then ep else ep + Total(ps[..k]);
            && d.bytes == ps[k].len
            && (toDevice ==> d.src == ps[k].addr && d.dst == there)
            && (!toDevice ==> d.dst == ps[k].addr && d.src == there)
  {
    EpAtIs(ps, s.from + i, ep, fixed);
    assert ring[s.slot + i] == ring[s.slot..s.slot + s.count][i];
    assert ring[s.slot + i] == SliceDesc(s, i, bus + DESC_SIZE * s.slot, ps, ep, fixed, toDevice);
  }

  /** Each slice whose chain stands in the ring is fetched. */
  ghost predicate AllFetched(ring: seq<Desc>, ss: seq<Slice>, bus: nat) {
    forall k :: 0 <= k < |ss| ==>
      Prefetch.Fetches(ring, bus, bus + 32 * ss[k].slot, NextAdj(ss[k].count, LowWord(bus + 32 * ss[k].slot)),
                       ss[k].slot, ss[k].count)
  }

  lemma HeldIsFetched(ring: seq<Desc>, ss: seq<Slice>, bus: nat, ps: seq<Entry>, ep: nat, fixed: bool, toDevice: bool)
    requires bus % DESC_SIZE == 0 && Holds(ring, ss, bus, ps, ep, fixed, toDevice)
    requires forall k :: 0 <= k < |ss| ==> 0 < ss[k].count
    ensures AllFetched(ring, ss, bus)
  {
    forall k | 0 <= k < |ss|
      ensures Prefetch.Fetches(ring, bus, bus + 32 * ss[k].slot, NextAdj(ss[k].count, LowWord(bus + 32 * ss[k].slot)),
                               ss[k].slot, ss[k].count)
    {
      assert HoldsOne(ring, ss[k], bus, ps, ep, fixed, toDevice);
      SliceFetched(ring, ss[k], bus, ps, ep, fixed, toDevice);
    }
  }

  /** The items are the request's pieces in order, each with its endpoint. */
  ghost predicate SaysRequest(items: seq<Item>, ps: seq<Entry>, ep: nat, fixed: bool) {
    && |items| == |ps|
    && forall k :: 0 <= k < |ps| ==>
         items[k] == Item(ps[k].addr, ps[k].len, if fixed then ep else ep + Total(ps[..k]))
  }

  lemma {:induction false} HeldSays(ring: seq<Desc>, slot: nat, bus: nat, ps: seq<Entry>, ep: nat, fixed: bool,
                                    toDevice: bool)
    requires slot < |ring| && bus % DESC_SIZE == 0
    requires Holds(ring, Slices(slot, 0, |ps|, |ring|), bus, ps, ep, fixed, toDevice)
    ensures var ss := Slices(slot, 0, |ps|, |ring|);
            AllFetched(ring, ss, bus) && SaysRequest(ReadRing(ring, ss, toDevice), ps, ep, fixed)
  {
    var ss := Slices(slot, 0, |ps|, |ring|);
    SlicesInRing(slot, 0, |ps|, |ring|);
    HeldIsFetched(ring, ss, bus, ps, ep, fixed, toDevice);
    ReadRingSays(ring, ss, bus, ps, ep, fixed, toDevice);
    SplitSaysTheSame(slot, |ring|, bus, ps, ep, fixed, toDevice);
    ItemsAre(ps, ep, fixed);
  }

  /**
   Every transfer's slots are fetched, together they say the request, and the
   ring's other slots are as before.
   */
  ghost predicate Stands(was: seq<Desc>, now: seq<Desc>, slot: nat, bus: nat, ps: seq<Entry>, ep: nat, fixed: bool,
                         toDevice: bool)
    requires slot < |now|
  {
    var ss := Slices(slot, 0, |ps|, |now|);
    && |was| == |now| && AllFetched(now, ss, bus) && SaysRequest(ReadRing(now, ss, toDevice), ps, ep, fixed)
    && forall j :: 0 <= j < |now| && Apart(j, slot, |ps|, |now|) ==> now[j] == was[j]
  }

  /**
   A request that fits the ring stands in it complete when the last slice has
   been built. Slice by slice, from the address of its first slot, the engine
   fetches exactly the slice's slots; together they say, for piece k, its
   address, its length and the endpoint that lies as far behind `ep` as the
   pieces before it are long. No slot outside the request's is touched.
   */
  lemma {:induction false} RingSaysRequest(ring: seq<Desc>, slot: nat, bus: nat, ps: seq<Entry>, ep: nat, fixed: bool,
                                           toDevice: bool)
    requires slot < |ring| && 0 < |ps| <= |ring| && bus % DESC_SIZE == 0
    ensures var ss := Slices(slot, 0, |ps|, |ring|);
            var after := Written(ring, ss, |ss|, bus, ps, ep, fixed, toDevice);
            Holds(after, ss, bus, ps, ep, fixed, toDevice)
            && Stands(ring, after, slot, bus, ps, ep, fixed, toDevice)
  {
    var ss := Slices(slot, 0, |ps|, |ring|);
    BothHold(ring, slot, bus, ps, ep, fixed, toDevice);
    HeldSays(Written(ring, ss, |ss|, bus, ps, ep, fixed, toDevice), slot, bus, ps, ep, fixed, toDevice);
  }

  // -------------------------------------------------------------- the code

  /** The driver's record of a request being turned into transfers. */
  class Request {
    const pieces: seq<Entry>
    /** The endpoint address the request was made with. */
    const base: nat
    var index: nat
    var ep: nat

    constructor (pieces: seq<Entry>, base: nat)
      ensures this.pieces == pieces && this.base == base && index == 0 && ep == base
    {
      this.pieces, this.base, index, ep := pieces, base, 0, base;
    }

    ghost predicate At(k: nat, fixed: bool)
      reads this
    {
      index == k <= |pieces| && ep == EpAt(pieces, k, base, fixed)
    }
  }

  /** `xdma_desc_set`: the direction decides which end is the source. */
  method DescSet(ring: array<Desc>, slot: nat, i: Item, toDevice: bool)
    requires slot < ring.Length
    modifies ring
    ensures ring[slot] == Says(old(ring[slot]), i, toDevice)
    ensures forall j :: 0 <= j < ring.Length && j != slot ==> ring[j] == old(ring[j])
  {
    var d := ring[slot].(bytes := i.len);
    if toDevice {
      d := d.(src := i.addr, dst := i.ep);
    } else {
      d := d.(src := i.ep, dst := i.addr);
    }
    ring[slot] := d;
  }

  /** `transfer_build`: fill `count` chained slots with the request's next pieces. */
  method TransferBuild(ring: array<Desc>, at: nat, count: nat, req: Request, fixed: bool, toDevice: bool)
    returns (len: nat)
    requires at + count <= ring.Length && req.index + count <= |req.pieces| && req.At(req.index, fixed)
    modifies ring, req
    ensures req.At(old(req.index) + count, fixed)
    ensures req.ep == if fixed then req.base else req.base + Total(req.pieces[..req.index])
    ensures len == Length(req.pieces, old(req.index), count)
    ensures forall j :: at <= j < at + count ==>
      ring[j] == Says(old(ring[j]), ItemAt(req.pieces, old(req.index) + (j - at), req.base, fixed), toDevice)
    ensures forall j :: 0 <= j < ring.Length && !(at <= j < at + count) ==> ring[j] == old(ring[j])
  {
    ghost var from := req.index;
    len := 0;
    var i := 0;
    while i < count
      invariant 0 <= i <= count && req.index == from
      invariant req.ep == EpAt(req.pieces, from + i, req.base, fixed)
      invariant len == Length(req.pieces, from, i)
      invariant forall j :: at <= j < at + i ==>
        ring[j] == Says(old(ring[j]), ItemAt(req.pieces, from + (j - at), req.base, fixed), toDevice)
      invariant forall j :: 0 <= j < ring.Length && !(at <= j < at + i) ==> ring[j] == old(ring[j])
    {
      var piece := req.pieces[req.index + i];
      DescSet(ring, at + i, Item(piece.addr, piece.len, req.ep), toDevice);
      len := len + piece.len;
      if !fixed {
        req.ep := req.ep + piece.len;
      }
      i := i + 1;
    }
    req.index := req.index + count;
    EpAtIs(req.pieces, req.index, req.base, fixed);
  }

  /** What filling and terminating leave of a chained descriptor. */
  function Filled(d: Desc, s: Slice, k: nat, ps: seq<Entry>, ep: nat, fixed: bool, toDevice: bool): Desc
    requires k < s.count && s.from + s.count <= |ps|
  {
    Ended(Says(d, ItemAt(ps, s.from + k, ep, fixed), toDevice), k + 1 == s.count)
  }

  function Ended(d: Desc, last: bool): Desc {
    if last then d.(control := ControlSet(d.control, DESC_FINAL).1) else d
  }

  /** The pieces of one slice, its last descriptor made to stop, end the packet and report completion. */
  method FillSlice(ring: array<Desc>, s: Slice, req: Request, fixed: bool, toDevice: bool) returns (len: nat)
    requires 0 < s.count && s.slot + s.count <= ring.Length
    requires s.from + s.count <= |req.pieces| && req.At(s.from, fixed)
    modifies ring, req
    ensures req.At(s.from + s.count, fixed)
    ensures len == Length(req.pieces, s.from, s.count)
    ensures forall j :: s.slot <= j < s.slot + s.count ==>
      ring[j] == Filled(old(ring[j]), s, j - s.slot, req.pieces, req.base, fixed, toDevice)
    ensures forall j :: 0 <= j < ring.Length && !(s.slot <= j < s.slot + s.count) ==> ring[j] == old(ring[j])
  {
    len := TransferBuild(ring, s.slot, s.count, req, fixed, toDevice);
    var last := s.slot + s.count - 1;
    var (ok, word) := ControlSet(ring[last].control, DESC_STOPPED | DESC_EOP | DESC_COMPLETED);
    ring[last] := ring[last].(control := word);
  }

  lemma MagicOnly()
    ensures ControlSet(DESC_MAGIC, 0).1 == DESC_MAGIC
  {
  }

  /** The passes over one slot, in the order the driver makes them. */
  lemma SlotIs(d: Desc, s: Slice, k: nat, first: nat, ps: seq<Entry>, ep: nat, fixed: bool,
               toDevice: bool)
    requires k < s.count && s.from + s.count <= |ps|
    ensures WithAdjacency(Filled(Chained(d, s.count, k, first), s, k, ps, ep, fixed, toDevice), s.count, k)
         == SliceDesc(s, k, first, ps, ep, fixed, toDevice)
  {
    MagicOnly();
  }

  /** Chain and fill: the first two passes over a slice. */
  method ChainSlice(ring: array<Desc>, first: nat, s: Slice, req: Request, fixed: bool, toDevice: bool)
    returns (len: nat)
    requires 0 < s.count && s.slot + s.count <= ring.Length
    requires s.from + s.count <= |req.pieces| && req.At(s.from, fixed)
    modifies ring, req
    ensures req.At(s.from + s.count, fixed)
    ensures len == Length(req.pieces, s.from, s.count)
    ensures forall j :: s.slot <= j < s.slot + s.count ==>
      ring[j] == Filled(Chained(old(ring[j]), s.count, j - s.slot, first), s, j - s.slot, req.pieces, req.base, fixed,
                        toDevice)
    ensures forall j :: 0 <= j < ring.Length && !(s.slot <= j < s.slot + s.count) ==> ring[j] == old(ring[j])
  {
    TransferDescInit(ring, s.slot, s.count, first);
    len := FillSlice(ring, s, req, fixed, toDevice);
  }

  lemma PutByIndex(was: seq<Desc>, now: seq<Desc>, at: nat, c: seq<Desc>, f: nat -> Desc)
    requires |was| == |now| && at + |c| <= |was| && forall k :: 0 <= k < |c| ==> c[k] == f(k)
    requires forall j :: at <= j < at + |c| ==> now[j] == f(j - at)
    requires forall j :: 0 <= j < |was| && !(at <= j < at + |c|) ==> now[j] == was[j]
    ensures now == Put(was, at, c)
  {
    assert now[at..at + |c|] == c;
    PutIs(was, now, at, c);
  }

  lemma ChainAtIs(s: Slice, bus: nat, ps: seq<Entry>, ep: nat, fixed: bool, toDevice: bool)
    requires s.from + s.count <= |ps|
    ensures ChainAt(s, bus, ps, ep, fixed, toDevice)
         == SliceChain(s, bus + DESC_SIZE * s.slot, ps, ep, fixed, toDevice)
  {
  }

  /** A slice whose slots hold the right descriptors holds its chain. */
  lemma SlotsAreChain(was: seq<Desc>, now: seq<Desc>, s: Slice, first: nat, ps: seq<Entry>, ep: nat,
                      fixed: bool, toDevice: bool)
    requires |was| == |now| && s.slot + s.count <= |was| && s.from + s.count <= |ps|
    requires forall j :: s.slot <= j < s.slot + s.count ==>
      now[j] == SliceDesc(s, j - s.slot, first, ps, ep, fixed, toDevice)
    requires forall j :: 0 <= j < |was| && !(s.slot <= j < s.slot + s.count) ==> now[j] == was[j]
    ensures now == Put(was, s.slot, SliceChain(s, first, ps, ep, fixed, toDevice))
  {
    var f := (k: nat) => if k < s.count then SliceDesc(s, k, first, ps, ep, fixed, toDevice) else CLEARED;
    PutByIndex(was, now, s.slot, SliceChain(s, first, ps, ep, fixed, toDevice), f);
  }

  lemma SlotsAre(was: seq<Desc>, now: seq<Desc>, s: Slice, bus: nat, ps: seq<Entry>, ep: nat,
                 fixed: bool, toDevice: bool)
    requires |was| == |now| && s.slot + s.count <= |was| && s.from + s.count <= |ps|
    requires forall j :: s.slot <= j < s.slot + s.count ==>
      now[j] == SliceDesc(s, j - s.slot, bus + DESC_SIZE * s.slot, ps, ep, fixed, toDevice)
    requires forall j :: 0 <= j < |was| && !(s.slot <= j < s.slot + s.count) ==> now[j] == was[j]
    ensures now == Put(was, s.slot, ChainAt(s, bus, ps, ep, fixed, toDevice))
  {
    SlotsAreChain(was, now, s, bus + DESC_SIZE * s.slot, ps, ep, fixed, toDevice);
    ChainAtIs(s, bus, ps, ep, fixed, toDevice);
  }

  /** Chain, fill and mark adjacency: the slice ends up holding one complete chain. */
  method BuildSlice(ring: array<Desc>, bus: nat, s: Slice, req: Request, fixed: bool, toDevice: bool)
    returns (len: nat)
    requires 0 < s.count && s.slot + s.count <= ring.Length
    requires s.from + s.count <= |req.pieces| && req.At(s.from, fixed)
    modifies ring, req
    ensures req.At(s.from + s.count, fixed)
    ensures len == Length(req.pieces, s.from, s.count)
    ensures ring[..] == Put(old(ring[..]), s.slot, ChainAt(s, bus, req.pieces, req.base, fixed, toDevice))
  {
    ghost var was := ring[..];
    var first := bus + DESC_SIZE * s.slot;
    len := ChainSlice(ring, first, s, req, fixed, toDevice);
    FillAdjacent(ring, s.slot, s.count);
    forall j | s.slot <= j < s.slot + s.count
      ensures ring[j] == SliceDesc(s, j - s.slot, first, req.pieces, req.base, fixed, toDevice)
    {
      SlotIs(was[j], s, j - s.slot, first, req.pieces, req.base, fixed, toDevice);
    }
    SlotsAre(was, ring[..], s, bus, req.pieces, req.base, fixed, toDevice);
  }

  /** The transfer record that goes with a slice of a request. */
  ghost predicate Records(t: Transfer, s: Slice, e: Engine, req: Request) {
    && t.slot == s.slot && t.count == s.count && t.bus == e.bus + 32 * s.slot
    && s.from + s.count <= |req.pieces| && t.len == Length(req.pieces, s.from, s.count)
    && (t.lastInRequest <==> s.from + s.count == |req.pieces|) && t.hasCallback
  }

  /** How many descriptors fit, and their chain. */
  method BuildNext(ring: array<Desc>, at: nat, bus: nat, req: Request, fixed: bool, toDevice: bool)
    returns (s: Slice, len: nat)
    requires at < ring.Length && req.index < |req.pieces| && req.At(req.index, fixed)
    modifies ring, req
    ensures s == NextSlice(at, old(req.index), |req.pieces|, ring.Length)
    ensures req.At(s.from + s.count, fixed) && len == Length(req.pieces, s.from, s.count)
    ensures ring[..] == Put(old(ring[..]), s.slot, ChainAt(s, bus, req.pieces, req.base, fixed, toDevice))
  {
    var left := |req.pieces| - req.index;
    var count := if left < ring.Length then left else ring.Length;
    if at + count >= ring.Length {
      count := ring.Length - at;
    }
    s := Slice(at, req.index, count);
    len := BuildSlice(ring, bus, s, req, fixed, toDevice);
  }

  /** `transfer_init`; its caller attaches the callback and marks the last transfer as soon as this returns. */
  method TransferInit(e: Engine, req: Request, fixed: bool, toDevice: bool) returns (t: Transfer, ghost s: Slice)
    requires e.descIdx < e.ring.Length && req.index < |req.pieces| && req.At(req.index, fixed)
    modifies e`descIdx, e`descUsed, e.ring, req
    ensures fresh(t) && t.state == New
    ensures s == NextSlice(old(e.descIdx), old(req.index), |req.pieces|, e.ring.Length) && Records(t, s, e, req)
    ensures req.At(s.from + s.count, fixed) && s.slot + s.count <= e.ring.Length
    ensures e.ring[..] == Put(old(e.ring[..]), s.slot, ChainAt(s, e.bus, req.pieces, req.base, fixed, toDevice))
    ensures e.descIdx == Following(s.slot, s.count, e.ring.Length) && e.descUsed == old(e.descUsed) + s.count
  {
    var at := e.descIdx;
    var part, len := BuildNext(e.ring, at, e.bus, req, fixed, toDevice);
    e.descIdx := NextIndex(at, part.count, e.ring.Length);
    e.descUsed := e.descUsed + part.count;
    t := new Transfer(at, part.count, e.bus + DESC_SIZE * at, len, req.index == |req.pieces|, true);
    s := part;
  }

  ghost predicate AllRecorded(ts: seq<Transfer>, ss: seq<Slice>, e: Engine, req: Request) {
    |ts| <= |ss| && forall k :: 0 <= k < |ts| ==> Records(ts[k], ss[k], e, req)
  }

  lemma RecordOneMore(ts: seq<Transfer>, ss: seq<Slice>, e: Engine, req: Request, t: Transfer)
    requires AllRecorded(ts, ss, e, req) && |ts| < |ss| && Records(t, ss[|ts|], e, req)
    ensures AllRecorded(ts + [t], ss, e, req)
  {
  }

  /** The slices from the k-th on are those of the pieces from `from` on, starting in slot `at`. */
  ghost predicate Onward(ss: seq<Slice>, k: nat, at: nat, from: nat, n: nat, slots: nat) {
    k <= |ss| && at < slots && from <= n && ss[k..] == Slices(at, from, n, slots)
  }

  lemma OnwardOnce(ss: seq<Slice>, k: nat, at: nat, from: nat, n: nat, slots: nat)
    requires Onward(ss, k, at, from, n, slots) && from < n
    ensures k < |ss| && ss[k] == NextSlice(at, from, n, slots)
    ensures var s := ss[k];
            && s.from == from && s.slot == at && 0 < s.count && from + s.count <= n && at + s.count <= slots
            && Onward(ss, k + 1, Following(at, s.count, slots), from + s.count, n, slots)
  {
    SlicesOnce(at, from, n, slots);
    assert ss[k..][0] == ss[k] && ss[k..][1..] == ss[k + 1..];
  }

  /** What a submission is measured against: the ring before, the slices to come, and the request. */
  datatype Plan = Plan(ring: seq<Desc>, cuts: seq<Slice>, used: int, bus: nat, ps: seq<Entry>, ep: nat, fixed: bool,
                       toDevice: bool) {
    /** The ring after the first m slices. */
    function Ring(m: nat): seq<Desc> {
      if m <= |cuts| then Written(ring, cuts, m, bus, ps, ep, fixed, toDevice) else ring
    }
  }

  /** The plan of a request about to be submitted. */
  function PlanOf(e: Engine, req: Request, fixed: bool, toDevice: bool): Plan
    requires e.descIdx < e.ring.Length
    reads e`descIdx, e`descUsed, e.ring
  {
    Plan(e.ring[..], Slices(e.descIdx, 0, |req.pieces|, e.ring.Length), e.descUsed, e.bus, req.pieces, req.base, fixed,
         toDevice)
  }

  /** The ring, next free slot, usage and request position once exactly the plan's first k slices are built. */
  ghost predicate Reached(p: Plan, k: nat, ring: seq<Desc>, idx: nat, used: int, index: nat) {
    && k <= |p.cuts| && |ring| == |p.ring|
    && Onward(p.cuts, k, idx, index, |p.ps|, |p.ring|)
    && used == p.used + index
    && ring == p.Ring(k)
  }

  /** The slice the driver builds next. */
  lemma ReachedNext(p: Plan, k: nat, ring: seq<Desc>, idx: nat, used: int, index: nat)
    requires Reached(p, k, ring, idx, used, index) && index < |p.ps|
    ensures idx < |p.ring| && k < |p.cuts| && p.cuts[k] == NextSlice(idx, index, |p.ps|, |p.ring|)
    ensures var s := p.cuts[k]; s.from == index && 0 < s.count && s.slot + s.count <= |p.ring|
  {
    OnwardOnce(p.cuts, k, idx, index, |p.ps|, |p.ring|);
  }

  /** One slice further, in the driver's steps. */
  lemma ReachedMore(p: Plan, k: nat, ring: seq<Desc>, idx: nat, used: int, index: nat, s: Slice, k': nat,
                    ring': seq<Desc>, idx': nat, used': int, index': nat)
    requires Reached(p, k, ring, idx, used, index) && index < |p.ps| && k' == k + 1
    requires s == NextSlice(idx, index, |p.ps|, |p.ring|)
    requires ring' == Put(ring, s.slot, ChainAt(s, p.bus, p.ps, p.ep, p.fixed, p.toDevice))
    requires idx' == Following(s.slot, s.count, |p.ring|) && used' == used + s.count && index' == s.from + s.count
    ensures Reached(p, k', ring', idx', used', index')
  {
    OnwardOnce(p.cuts, k, idx, index, |p.ps|, |p.ring|);
    PlanRing(p, k, ring, ring');
  }

  /** The engine and the request are where the plan is after the transfers ts, which are its first slices. */
  ghost predicate Built(e: Engine, req: Request, p: Plan, ts: seq<Transfer>)
    reads e`descIdx, e`descUsed, e.ring, req
  {
    && OfPlan(e, req, p) && AllRecorded(ts, p.cuts, e, req)
    && req.At(req.index, p.fixed)
    && Reached(p, |ts|, e.ring[..], e.descIdx, e.descUsed, req.index)
  }

  ghost predicate OfPlan(e: Engine, req: Request, p: Plan) {
    e.bus == p.bus && e.ring.Length == |p.ring| && req.pieces == p.ps && req.base == p.ep
  }

  lemma PlanRing(p: Plan, k: nat, before: seq<Desc>, after: seq<Desc>)
    requires k < |p.cuts| && before == p.Ring(k)
    requires after == Put(before, p.cuts[k].slot, ChainAt(p.cuts[k], p.bus, p.ps, p.ep, p.fixed, p.toDevice))
    ensures after == p.Ring(k + 1)
  {
    WrittenOnce(p.ring, p.cuts, k, p.bus, p.ps, p.ep, p.fixed, p.toDevice);
  }

  lemma OnwardDone(ss: seq<Slice>, k: nat, at: nat, n: nat, slots: nat)
    requires Onward(ss, k, at, n, n, slots)
    ensures k == |ss|
  {
  }

  /** The plan one transfer on, given where it stood before. */
  lemma BuiltMore(e: Engine, req: Request, p: Plan, ts: seq<Transfer>, t: Transfer, before: seq<Desc>, idx: nat,
                  used: int, index: nat, s: Slice)
    requires OfPlan(e, req, p) && AllRecorded(ts, p.cuts, e, req)
    requires Reached(p, |ts|, before, idx, used, index) && index < |p.ps|
    requires s == NextSlice(idx, index, |p.ps|, |p.ring|)
    requires Records(t, s, e, req) && req.At(s.from + s.count, p.fixed)
    requires e.ring[..] == Put(before, s.slot, ChainAt(s, p.bus, p.ps, p.ep, p.fixed, p.toDevice))
    requires e.descIdx == Following(s.slot, s.count, |p.ring|) && e.descUsed == used + s.count
    ensures Built(e, req, p, ts + [t])
    ensures |ts| < |p.cuts| && p.cuts[|ts|] == s && s.from == index && 0 < s.count
  {
    ReachedNext(p, |ts|, before, idx, used, index);
    ReachedMore(p, |ts|, before, idx, used, index, s, |ts + [t]|, e.ring[..], e.descIdx, e.descUsed, req.index);
    RecordOneMore(ts, p.cuts, e, req, t);
  }

  /** Build the plan's next transfer. */
  method BuildOne(e: Engine, req: Request, ghost p: Plan, fixed: bool, toDevice: bool, ghost ts: seq<Transfer>)
    returns (t: Transfer)
    requires e.descIdx < e.ring.Length && Built(e, req, p, ts) && req.index < |req.pieces|
    requires p.fixed == fixed && p.toDevice == toDevice
    modifies e`descIdx, e`descUsed, e.ring, req
    ensures fresh(t) && t.state == New && t.count > 0 && e.descIdx < e.ring.Length && old(req.index) < req.index
    ensures |ts| < |p.cuts| && req.index == p.cuts[|ts|].from + p.cuts[|ts|].count
    ensures Built(e, req, p, ts + [t])
  {
    ghost var before, idx, used, index := e.ring[..], e.descIdx, e.descUsed, req.index;
    ghost var s;
    t, s := TransferInit(e, req, fixed, toDevice);
    BuiltMore(e, req, p, ts, t, before, idx, used, index, s);
  }

  /** Nothing to do, or an engine not shutting down and a device on line at each of n attempts. */
  predicate Online(offline: set<nat>, shutdown: bool, n: nat) {
    n == 0 || (!shutdown && forall k :: 0 <= k < n ==> k !in offline)
  }

  lemma OnlineMore(offline: set<nat>, shutdown: bool, n: nat)
    requires Online(offline, shutdown, n) && !shutdown && n !in offline
    ensures Online(offline, shutdown, n + 1)
  {
  }

  /** One round of the loop: build the next transfer and queue it. */
  method SubmitOne(e: Engine, req: Request, ghost p: Plan, fixed: bool, toDevice: bool, offline: bool,
                   now: StatusWord, ghost ts: seq<Transfer>) returns (ok: bool, t: Transfer)
    requires e.Valid() && Built(e, req, p, ts) && req.index < |req.pieces|
    requires p.fixed == fixed && p.toDevice == toDevice
    modifies e, e.ring, req
    ensures e.Valid() && Built(e, req, p, ts + [t]) && old(req.index) < req.index
    ensures |ts| < |p.cuts| && req.index == p.cuts[|ts|].from + p.cuts[|ts|].count
    ensures ok <==> !offline && !old(e.shutdownRequested)
    ensures e.shutdownRequested == old(e.shutdownRequested)
    ensures e.queue == if ok then old(e.queue) + [t] else old(e.queue)
    ensures ok && !old(e.running) ==> e.RunStarted()
    ensures !ok || old(e.running) ==> unchanged(e`running, e`firstDesc, e`firstAdjacent, e`descDequeued)
  {
    t := BuildOne(e, req, p, fixed, toDevice, ts);
    ok := e.Enqueue(t, offline, now);
  }

  /**
   The loop, the device being off line at the given attempts; `built` has the
   refused transfer, if any, behind the queued ones.
   */
  method SubmitAll(e: Engine, req: Request, ghost p: Plan, fixed: bool, toDevice: bool, offline: set<nat>,
                   status: nat -> StatusWord)
    returns (ok: bool, ts: seq<Transfer>, ghost built: seq<Transfer>)
    requires e.Valid() && Built(e, req, p, []) && p.fixed == fixed && p.toDevice == toDevice
    modifies e, e.ring, req
    ensures e.Valid() && e.queue == old(e.queue) + ts && Built(e, req, p, built)
    ensures Online(offline, old(e.shutdownRequested), |ts|)
    ensures ts != [] && !old(e.running) ==> e.RunStarted()
    ensures ts == [] || old(e.running) ==> unchanged(e`running, e`firstDesc, e`firstAdjacent, e`descDequeued)
    ensures ok ==> built == ts && req.index == |req.pieces|
    ensures !ok ==> |ts| < |built| && built == ts + [built[|ts|]] && (old(e.shutdownRequested) || |ts| in offline)
    ensures !ok ==> |ts| < |p.cuts| && req.index == p.cuts[|ts|].from + p.cuts[|ts|].count
  {
    ts, built, ok := [], [], true;
    ghost var queue := e.queue;
    while req.index < |req.pieces|
      invariant e.Valid() && e.queue == queue + ts && Built(e, req, p, ts)
      invariant e.shutdownRequested == old(e.shutdownRequested)
      invariant Online(offline, old(e.shutdownRequested), |ts|)
      invariant ts != [] && !old(e.running) ==> e.RunStarted()
      invariant ts == [] || old(e.running) ==> unchanged(e`running, e`firstDesc, e`firstAdjacent, e`descDequeued)
      decreases |req.pieces| - req.index
    {
      var accepted, t := SubmitOne(e, req, p, fixed, toDevice, |ts| in offline, status(|ts|), ts);
      if !accepted {
        return false, ts, ts + [t];
      }
      Assoc(queue, ts, [t]);
      OnlineMore(offline, old(e.shutdownRequested), |ts|);
      ts := ts + [t];
    }
    built := ts;
  }

  /** What a plan carried out to its end leaves in the ring. */
  lemma {:induction false} PlanDone(p: Plan, slot: nat, ring: seq<Desc>)
    requires slot < |p.ring| && p.bus % DESC_SIZE == 0 && 0 < |p.ps| <= |p.ring|
    requires p.cuts == Slices(slot, 0, |p.ps|, |p.ring|) && ring == p.Ring(|p.cuts|)
    ensures Stands(p.ring, ring, slot, p.bus, p.ps, p.ep, p.fixed, p.toDevice)
  {
    RingSaysRequest(p.ring, slot, p.bus, p.ps, p.ep, p.fixed, p.toDevice);
  }

  /** The first transfer's record is what the registers need to fetch it. */
  lemma FirstFetched(ring: seq<Desc>, ss: seq<Slice>, bus: nat, t: Transfer)
    requires AllFetched(ring, ss, bus) && ss != []
    requires t.slot == ss[0].slot && t.count == ss[0].count && t.bus == bus + 32 * t.slot
    ensures Prefetch.Fetches(ring, bus, t.bus, NextAdj(t.count, LowWord(t.bus)), t.slot, t.count)
  {
    assert Prefetch.Fetches(ring, bus, bus + 32 * ss[0].slot, NextAdj(ss[0].count, LowWord(bus + 32 * ss[0].slot)),
                            ss[0].slot, ss[0].count);
  }

  lemma FirstRecorded(ts: seq<Transfer>, built: seq<Transfer>, ss: seq<Slice>, e: Engine, req: Request)
    requires |ts| < |built| && built == ts + [built[|ts|]] && AllRecorded(built, ss, e, req)
    ensures AllRecorded(ts, ss, e, req)
  {
    forall k | 0 <= k < |ts|
      ensures Records(ts[k], ss[k], e, req)
    {
      assert ts[k] == built[k];
    }
  }

  lemma PlanStarts(e: Engine, req: Request, p: Plan)
    requires e.descIdx < e.ring.Length && req.At(0, p.fixed) && p == PlanOf(e, req, p.fixed, p.toDevice)
    ensures Built(e, req, p, [])
  {
    assert p.cuts[0..] == p.cuts;
  }

  /** Where the loop leaves the plan: with all of its slices built, or with those up to the refused one. */
  ghost predicate Left(e: Engine, p: Plan, ok: bool, n: nat)
    reads e`descUsed, e.ring
  {
    && (ok ==> n == |p.cuts| && e.ring[..] == p.Ring(|p.cuts|) && e.descUsed == p.used + |p.ps|)
    && (!ok ==> n < |p.cuts| && e.ring[..] == p.Ring(n + 1) && e.descUsed == p.used + p.cuts[n].from + p.cuts[n].count)
  }

  lemma PlanLeft(e: Engine, req: Request, p: Plan, ok: bool, ts: seq<Transfer>, built: seq<Transfer>)
    requires Built(e, req, p, built)
    requires ok ==> built == ts && req.index == |p.ps|
    requires !ok ==> |ts| < |built| && built == ts + [built[|ts|]] && |ts| < |p.cuts|
                     && req.index == p.cuts[|ts|].from + p.cuts[|ts|].count
    ensures Left(e, p, ok, |ts|) && AllRecorded(ts, p.cuts, e, req)
  {
    if ok {
      OnwardDone(p.cuts, |built|, e.descIdx, |p.ps|, |p.ring|);
    } else {
      FirstRecorded(ts, built, p.cuts, e, req);
    }
  }

  /** The loop and where it leaves the plan. */
  method SubmitPlan(e: Engine, req: Request, ghost p: Plan, fixed: bool, toDevice: bool, offline: set<nat>,
                    status: nat -> StatusWord)
    returns (ok: bool, ts: seq<Transfer>)
    requires e.Valid() && req.At(0, fixed) && p == PlanOf(e, req, fixed, toDevice)
    modifies e, e.ring, req
    ensures e.Valid() && e.queue == old(e.queue) + ts && AllRecorded(ts, p.cuts, e, req) && Left(e, p, ok, |ts|)
    ensures Online(offline, old(e.shutdownRequested), |ts|)
    ensures !ok ==> old(e.shutdownRequested) || |ts| in offline
    ensures ts != [] && !old(e.running) ==> e.RunStarted()
    ensures ts == [] || old(e.running) ==> unchanged(e`running, e`firstDesc, e`firstAdjacent, e`descDequeued)
  {
    ghost var built;
    PlanStarts(e, req, p);
    ok, ts, built := SubmitAll(e, req, p, fixed, toDevice, offline, status);
    PlanLeft(e, req, p, ok, ts, built);
  }

  /**
   The loop of `xdma_xfer_submit_nowait`: build and queue transfer after
   transfer. A refused transfer ends the loop; it has been built, and its slots
   stay counted as used. A request that fits the ring then stands in it as it
   should, and an engine that had nothing to do is told of its first transfer.
   */
  method SubmitRequest(e: Engine, req: Request, fixed: bool, toDevice: bool, offline: set<nat>,
                       status: nat -> StatusWord)
    returns (ok: bool, ts: seq<Transfer>)
    requires e.Valid() && req.At(0, fixed)
    modifies e, e.ring, req
    ensures e.Valid() && e.queue == old(e.queue) + ts
    ensures var ss := Slices(old(e.descIdx), 0, |req.pieces|, e.ring.Length);
            && AllRecorded(ts, ss, e, req)
            && (ok <==> ss == [] || (!old(e.shutdownRequested) && forall k :: 0 <= k < |ss| ==> k !in offline))
            && (ok ==> |ts| == |ss| && e.descUsed == old(e.descUsed) + |req.pieces|)
            && (!ok ==> |ts| < |ss| && e.descUsed == old(e.descUsed) + ss[|ts|].from + ss[|ts|].count
                        && (old(e.shutdownRequested) || |ts| in offline))
            && var m := if ok then |ss| else |ts| + 1;
            e.ring[..] == Written(old(e.ring[..]), ss, m, e.bus, req.pieces, req.base, fixed, toDevice)
    ensures ok && 0 < |req.pieces| <= e.ring.Length ==>
      Stands(old(e.ring[..]), e.ring[..], old(e.descIdx), e.bus, req.pieces, req.base, fixed, toDevice)
    ensures ts != [] && !old(e.running) ==> e.RunStarted()
    ensures ts == [] || old(e.running) ==> unchanged(e`running, e`firstDesc, e`firstAdjacent, e`descDequeued)
    ensures ok && 0 < |req.pieces| <= e.ring.Length && !old(e.running) && old(e.queue) == [] ==>
      ts != [] && Prefetch.Fetches(e.ring[..], e.bus, e.firstDesc, e.firstAdjacent, ts[0].slot, ts[0].count)
  {
    ghost var p := PlanOf(e, req, fixed, toDevice);
    ok, ts := SubmitPlan(e, req, p, fixed, toDevice, offline, status);
    if ok && 0 < |req.pieces| <= e.ring.Length {
      PlanDone(p, old(e.descIdx), e.ring[..]);
      SlicesOnce(old(e.descIdx), 0, |p.ps|, |p.ring|);
      assert Records(ts[0], p.cuts[0], e, req);
      FirstFetched(e.ring[..], p.cuts, e.bus, ts[0]);
    }
  }
}
