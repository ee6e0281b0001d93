/**
 Hardware descriptors of the XDMA engine and the chain they form in memory.

 A descriptor is eight little-endian 32-bit words. Its control word packs a
 magic number (bits 16..31), the count of adjacent descriptors the engine may
 prefetch together with the next one (bits 8..13) and the flags (bits 0..7).
 The two halves of each 64-bit address are kept here as one number; where the
 driver looks at the low half only, the model takes it modulo 2^32.
 */
module Descriptors {

  datatype Desc = Desc(control: bv32, bytes: nat, src: nat, dst: nat, next: nat)

  const DESC_SIZE: nat := 32
  const PAGE_SIZE: nat := 0x1000
  const MAX_ADJ_BLOCK: nat := 64
  const DESC_MAGIC: bv32 := 0xAD4B0000
  const DESC_STOPPED: bv32 := 0x01
  const DESC_COMPLETED: bv32 := 0x02
  const DESC_EOP: bv32 := 0x10
  const DESC_FINAL: bv32 := 0x13

  const CLEARED := Desc(0, 0, 0, 0, 0)

  // ---------------------------------------------------------------- control

  /** A count below 64 as a machine word. */
  function AdjBits(n: nat): bv32
    requires n < MAX_ADJ_BLOCK
  {
    if n == 0 then 0 else AdjBits(n - 1) + 1
  }

  function Weigh(word: bv32, mask: bv32, weight: nat): nat {
    if word & mask != 0 then weight else 0
  }

  /** The adjacent count the engine reads out of a control word. */
  function AdjacentOf(control: bv32): nat {
    Weigh(control, 0x0100, 1) + Weigh(control, 0x0200, 2) + Weigh(control, 0x0400, 4) +
    Weigh(control, 0x0800, 8) + Weigh(control, 0x1000, 16) + Weigh(control, 0x2000, 32)
  }

  function FlagsOf(control: bv32): bv32 { control & 0xff }

  function MagicOf(control: bv32): bv32 { control & 0xffff0000 }

  predicate Stopped(d: Desc) { FlagsOf(d.control) & DESC_STOPPED != 0 }

  predicate EndOfPacket(d: Desc) { FlagsOf(d.control) & DESC_EOP != 0 }

  /** Flags, magic and a shifted count merged into one word. */
  function Join(flags: bv32, bits: bv32): bv32 { flags | DESC_MAGIC | (bits << 8) }

  /** `xdma_desc_control_set`, with its refusal of a control field wider than a byte. */
  function ControlSet(control: bv32, field: bv32): (r: (bool, bv32))
  {
    if field & !0xff != 0 then (false, control) else (true, (control & !0xff) | field)
  }

  /** `xdma_desc_adjacent`. Bits 12..15 survive, so it is exact only on a word where they are clear. */
  function SetAdjacent(control: bv32, adj: nat): bv32
    requires adj < MAX_ADJ_BLOCK
  {
    (control & 0x0000f0ff) | DESC_MAGIC | (AdjBits(adj) << 8)
  }

  /** The number in the low six bits of a word. */
  function LowValue(word: bv32): nat {
    Weigh(word, 0x01, 1) + Weigh(word, 0x02, 2) + Weigh(word, 0x04, 4) +
    Weigh(word, 0x08, 8) + Weigh(word, 0x10, 16) + Weigh(word, 0x20, 32)
  }

  lemma Increment(word: bv32)
    requires word < 63
    ensures LowValue(word + 1) == LowValue(word) + 1
  {
  }

  lemma NotFull(word: bv32)
    requires word < 64 && LowValue(word) < 63
    ensures word < 63
  {
    assert word >= 63 ==> word == 63;
  }

  /** The word stands for the number. */
  ghost predicate StandsFor(word: bv32, n: nat) { word < 64 && LowValue(word) == n }

  lemma StandsForNext(word: bv32, n: nat)
    requires StandsFor(word, n) && n < 63
    ensures StandsFor(word + 1, n + 1)
  {
    NotFull(word);
    Increment(word);
  }

  lemma {:induction false} AdjBitsValue(n: nat)
    requires n < MAX_ADJ_BLOCK
    ensures StandsFor(AdjBits(n), n)
  {
    if n > 0 {
      AdjBitsValue(n - 1);
      StandsForNext(AdjBits(n - 1), n - 1);
    }
  }

  /** The count is read eight bits further up, whatever the flags below it. */
  lemma ShiftedValue(word: bv32, flags: bv32)
    requires word < 64 && flags & !0xff == 0
    ensures AdjacentOf(Join(flags, word)) == LowValue(word)
  {
  }

  lemma {:induction false} AdjBitsDecode(n: nat, flags: bv32)
    requires n < MAX_ADJ_BLOCK && flags & !0xff == 0
    ensures AdjacentOf(Join(flags, AdjBits(n))) == n
    ensures AdjBits(n) < 64
  {
    AdjBitsValue(n);
    ShiftedValue(AdjBits(n), flags);
  }

  /** A flags byte merged into a word that carries only the magic. */
  lemma FlagsMerge(flags: bv32)
    requires flags & !0xff == 0
    ensures ControlSet(DESC_MAGIC, flags) == (true, DESC_MAGIC | flags)
    ensures (DESC_MAGIC | flags) & 0x0000f0ff == flags
  {
  }

  lemma FieldsApart(flags: bv32, a: bv32)
    requires flags & !0xff == 0 && a < 64
    ensures Join(flags, a) & 0xffff0000 == DESC_MAGIC
    ensures Join(flags, a) & 0xff == flags
  {
  }

  /** The word that magic, then flags, then adjacency leave behind. */
  function ControlWord(flags: bv32, adj: nat): bv32
    requires adj < MAX_ADJ_BLOCK
  {
    SetAdjacent(ControlSet(DESC_MAGIC, flags).1, adj)
  }

  lemma {:induction false} ControlWordJoins(flags: bv32, adj: nat)
    requires flags & !0xff == 0 && adj < MAX_ADJ_BLOCK
    ensures ControlWord(flags, adj) == Join(flags, AdjBits(adj))
  {
    FlagsMerge(flags);
  }

  /** It decodes to exactly the three fields that went in. */
  lemma ControlDecodes(flags: bv32, adj: nat)
    requires flags & !0xff == 0 && adj < MAX_ADJ_BLOCK
    ensures MagicOf(ControlWord(flags, adj)) == DESC_MAGIC
    ensures AdjacentOf(ControlWord(flags, adj)) == adj
    ensures FlagsOf(ControlWord(flags, adj)) == flags
  {
    ControlWordJoins(flags, adj);
    AdjBitsDecode(adj, flags);
    FieldsApart(flags, AdjBits(adj));
  }

  // -------------------------------------------------------------- adjacency

  /** `xdma_get_next_adj`. The mask and the shift by five are the remainder and quotient below. */
  function NextAdj(remaining: nat, nextLo: nat): (adj: nat)
    ensures adj < MAX_ADJ_BLOCK
  {
    if remaining <= 1 then 0
    else
      var nextIndex := nextLo % PAGE_SIZE / DESC_SIZE % MAX_ADJ_BLOCK;
      if MAX_ADJ_BLOCK - nextIndex - 1 < remaining - 1 then MAX_ADJ_BLOCK - nextIndex - 1 else remaining - 1
  }

  function LowWord(addr: nat): nat { addr % 0x1_0000_0000 }

  /** Bus address the k-th of n chained descriptors points at; zero terminates. */
  function NextAddr(n: nat, k: nat, first: nat): nat {
    if k + 1 < n then first + DESC_SIZE * (k + 1) else 0
  }

  /** What every builder must leave behind: n descriptors, chained from `first`, adjacency filled in. */
  ghost predicate Linked(c: seq<Desc>, first: nat) {
    forall k :: 0 <= k < |c| ==>
      && c[k].next == NextAddr(|c|, k, first)
      && MagicOf(c[k].control) == DESC_MAGIC
      && AdjacentOf(c[k].control) == NextAdj(|c| - k - 1, LowWord(c[k].next))
  }

  /** Only the final descriptor stops the engine. */
  ghost predicate StopsAtEnd(c: seq<Desc>) {
    forall k :: 0 <= k < |c| ==> (Stopped(c[k]) <==> k == |c| - 1)
  }

  /** The chain's pointers: each names the slot behind it, and the last one nothing. */
  lemma PointersOf(c: seq<Desc>, first: nat)
    requires Linked(c, first)
    ensures forall k :: 0 <= k < |c| - 1 ==> c[k].next == first + 32 * (k + 1)
    ensures c != [] ==> c[|c| - 1].next == 0
  {
  }

  predicate ReportsCompletion(d: Desc) { FlagsOf(d.control) & DESC_COMPLETED != 0 }

  /** Only the final descriptor has the engine report a completion. */
  ghost predicate ReportsAtEnd(c: seq<Desc>) {
    forall k :: 0 <= k < |c| ==> (ReportsCompletion(c[k]) <==> k == |c| - 1)
  }

  // --------------------------------------------------------------- builders

  /** The k-th of n descriptors as `transfer_desc_init` leaves it. */
  function Chained(d: Desc, n: nat, k: nat, first: nat): Desc {
    d.(control := DESC_MAGIC, bytes := 0, next := NextAddr(n, k, first))
  }

  /** The k-th of n descriptors once its adjacent count has been stored. */
  function WithAdjacency(d: Desc, n: nat, k: nat): Desc {
    d.(control := SetAdjacent(d.control, NextAdj(if k < n then n - k - 1 else 0, LowWord(d.next))))
  }

  /** `transfer_desc_init`: chain `count` descriptors of the ring, starting at slot `at`. */
  method TransferDescInit(ring: array<Desc>, at: nat, count: nat, first: nat)
    requires 0 < count && at + count <= ring.Length
    modifies ring
    ensures forall j :: at <= j < at + count ==> ring[j] == Chained(old(ring[j]), count, j - at, first)
    ensures forall j :: 0 <= j < ring.Length && !(at <= j < at + count) ==> ring[j] == old(ring[j])
  {
    var bus := first;
    var i := 0;
    while i < count - 1
      invariant 0 <= i <= count - 1
      invariant bus == first + DESC_SIZE * i
      invariant forall j :: at <= j < at + i ==> ring[j] == Chained(old(ring[j]), count, j - at, first)
      invariant forall j :: 0 <= j < ring.Length && !(at <= j < at + i) ==> ring[j] == old(ring[j])
    {
      bus := bus + DESC_SIZE;
      ring[at + i] := ring[at + i].(next := bus, bytes := 0, control := DESC_MAGIC);
      i := i + 1;
    }
    ring[at + i] := ring[at + i].(next := 0, bytes := 0, control := DESC_MAGIC);
  }

  /** The loop that stores each descriptor's adjacent count once the chain is complete. */
  method FillAdjacent(ring: array<Desc>, at: nat, count: nat)
    requires at + count <= ring.Length
    modifies ring
    ensures forall j :: at <= j < at + count ==> ring[j] == WithAdjacency(old(ring[j]), count, j - at)
    ensures forall j :: 0 <= j < ring.Length && !(at <= j < at + count) ==> ring[j] == old(ring[j])
  {
    var i := 0;
    while i < count
      invariant 0 <= i <= count
      invariant forall j :: at <= j < at + i ==> ring[j] == WithAdjacency(old(ring[j]), count, j - at)
      invariant forall j :: 0 <= j < ring.Length && !(at <= j < at + i) ==> ring[j] == old(ring[j])
    {
      ring[at + i] := WithAdjacency(ring[at + i], count, i);
      i := i + 1;
    }
  }

  /** `xdma_desc_done`: recycle a slice of the ring. */
  method DescDone(ring: array<Desc>, at: nat, count: nat)
    requires at + count <= ring.Length
    modifies ring
    ensures forall j :: at <= j < at + count ==> ring[j] == CLEARED
    ensures forall j :: 0 <= j < ring.Length && !(at <= j < at + count) ==> ring[j] == old(ring[j])
  {
    for i := 0 to count
      invariant forall j :: at <= j < at + i ==> ring[j] == CLEARED
      invariant forall j :: 0 <= j < ring.Length && !(at <= j < at + i) ==> ring[j] == old(ring[j])
    {
      ring[at + i] := CLEARED;
    }
  }
}
