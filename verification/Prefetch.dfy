/**
 The engine's block prefetch over a finished descriptor chain.

 The engine is told the bus address of the first descriptor and how many
 descriptors adjoin it, reads that whole block at once, and continues from the
 block's last descriptor: its next pointer gives the following block, its
 adjacent count that block's size. A block must not cross a 64-descriptor
 (2 KiB) boundary of the bus address space.
 */
module Prefetch {
  import opened Arithmetic
  import opened Descriptors

  /** Descriptors index, index + 1, ..., index + count - 1 of a transfer, read at once. */
  datatype Block = Block(index: nat, count: nat)

  const BLOCK_BYTES: nat := 2048

  /** Descriptors index .. index + count - 1 are intact and none before the last stops the engine. */
  ghost predicate Readable(c: seq<Desc>, b: Block) {
    && 0 < b.count && b.index + b.count <= |c|
    && (forall k :: b.index <= k < b.index + b.count ==> MagicOf(c[k].control) == DESC_MAGIC)
    && (forall k :: b.index <= k < b.index + b.count - 1 ==> !Stopped(c[k]))
  }

  /**
   `blocks` is what the engine reads of the chain `c`, in memory at `first`,
   when told to fetch the descriptor at `addr` and `adj` adjacent ones. Every
   next block is dictated by the last descriptor of the one before: there is
   at most one such sequence.
   */
  ghost predicate Walks(c: seq<Desc>, first: nat, addr: nat, adj: nat, blocks: seq<Block>)
    decreases |blocks|
  {
    && blocks != []
    && var b := blocks[0];
    && addr == first + DESC_SIZE * b.index
    && b.count == adj + 1
    && Readable(c, b)
    && var last := c[b.index + adj];
    && (if Stopped(last) then |blocks| == 1
        else Walks(c, first, last.next, AdjacentOf(last.control), blocks[1..]))
  }

  lemma {:induction false} WalksUnique(c: seq<Desc>, first: nat, addr: nat, adj: nat, p: seq<Block>, q: seq<Block>)
    requires Walks(c, first, addr, adj, p) && Walks(c, first, addr, adj, q)
    ensures p == q
    decreases |p|
  {
    var last := c[p[0].index + adj];
    assert p[0] == q[0];
    if !Stopped(last) {
      WalksUnique(c, first, last.next, AdjacentOf(last.control), p[1..], q[1..]);
    }
    assert p == [p[0]] + p[1..] && q == [q[0]] + q[1..];
  }

  /** The blocks cover from, from + 1, ..., upto - 1 once each and in order. */
  ghost predicate Tiles(blocks: seq<Block>, from: nat, upto: nat) {
    if blocks == [] then from == upto
    else blocks[0].index == from && blocks[0].count > 0 && Tiles(blocks[1..], from + blocks[0].count, upto)
  }

  /** No block reaches across a 2 KiB boundary of the bus address space. */
  ghost predicate WithinBoundaries(blocks: seq<Block>, first: nat) {
    forall b :: b in blocks ==> WithinBoundary(b, first)
  }

  predicate WithinBoundary(b: Block, first: nat) {
    && b.count > 0
    && (first + DESC_SIZE * b.index) / BLOCK_BYTES == (first + DESC_SIZE * (b.index + b.count - 1)) / BLOCK_BYTES
  }

  /** The low twelve address bits of a descriptor slot, as slots. */
  lemma SlotInPage(slot: nat)
    ensures LowWord(DESC_SIZE * slot) % PAGE_SIZE / DESC_SIZE % MAX_ADJ_BLOCK == slot % MAX_ADJ_BLOCK
  {
    var a, v := slot / 64, slot % 64;
    var q, c := a / 0x20_0000, a % 0x20_0000;
    var u, p := c / 2, c % 2;
    QuotientIs(DESC_SIZE * slot, 0x1_0000_0000, q, 2048 * c + 32 * v);
    QuotientIs(2048 * c + 32 * v, PAGE_SIZE, u, 2048 * p + 32 * v);
    QuotientIs(2048 * p + 32 * v, DESC_SIZE, 64 * p + v, 0);
    QuotientIs(64 * p + v, MAX_ADJ_BLOCK, p, v);
  }

  /** The adjacent count for the block that starts at slot s of the address space. */
  lemma AdjacentInSlots(slot: nat, remaining: nat)
    requires remaining > 0
    ensures NextAdj(remaining, LowWord(DESC_SIZE * slot)) ==
            if MAX_ADJ_BLOCK - slot % MAX_ADJ_BLOCK - 1 < remaining - 1 then MAX_ADJ_BLOCK - slot % MAX_ADJ_BLOCK - 1
            else remaining - 1
  {
    SlotInPage(slot);
  }

  lemma SameBlock(slot: nat, adj: nat)
    requires slot % MAX_ADJ_BLOCK + adj < MAX_ADJ_BLOCK
    ensures DESC_SIZE * slot / BLOCK_BYTES == DESC_SIZE * (slot + adj) / BLOCK_BYTES
  {
    assert DESC_SIZE * slot / BLOCK_BYTES == slot / MAX_ADJ_BLOCK;
    assert DESC_SIZE * (slot + adj) / BLOCK_BYTES == (slot + adj) / MAX_ADJ_BLOCK;
  }

  /** The block the driver announces for descriptor i of n. */
  function BlockAt(n: nat, i: nat, first: nat): Block
    requires i < n
  {
    Block(i, NextAdj(n - i, LowWord(first + DESC_SIZE * i)) + 1)
  }

  lemma BlockFits(n: nat, i: nat, first: nat)
    requires i < n && first % DESC_SIZE == 0
    ensures i + BlockAt(n, i, first).count <= n && WithinBoundary(BlockAt(n, i, first), first)
  {
    var slot := first / DESC_SIZE + i;
    assert first + DESC_SIZE * i == DESC_SIZE * slot;
    AdjacentInSlots(slot, n - i);
    SameBlock(slot, BlockAt(n, i, first).count - 1);
  }

  /** In a well-formed chain the last descriptor of a block announces the next block. */
  lemma NextBlock(c: seq<Desc>, first: nat, i: nat, j: nat)
    requires i < |c| && Linked(c, first) && j == i + BlockAt(|c|, i, first).count && j < |c|
    ensures c[j - 1].next == first + DESC_SIZE * j
    ensures AdjacentOf(c[j - 1].control) == BlockAt(|c|, j, first).count - 1
  {
  }

  /** A block, and the walk its last descriptor announces. */
  lemma {:induction false} WalkOn(c: seq<Desc>, first: nat, b: Block, rest: seq<Block>)
    requires Readable(c, b) && !Stopped(c[b.index + b.count - 1])
    requires var last := c[b.index + b.count - 1]; Walks(c, first, last.next, AdjacentOf(last.control), rest)
    ensures Walks(c, first, first + DESC_SIZE * b.index, b.count - 1, [b] + rest)
  {
    assert ([b] + rest)[1..] == rest;
  }

  lemma {:induction false} WalkFrom(c: seq<Desc>, first: nat, i: nat) returns (blocks: seq<Block>)
    requires i < |c|
    requires first % DESC_SIZE == 0 && Linked(c, first) && StopsAtEnd(c)
    ensures Walks(c, first, first + DESC_SIZE * i, BlockAt(|c|, i, first).count - 1, blocks)
    ensures Tiles(blocks, i, |c|) && WithinBoundaries(blocks, first)
    decreases |c| - i
  {
    var block := BlockAt(|c|, i, first);
    var j := i + block.count;
    BlockFits(|c|, i, first);
    assert Readable(c, block);
    if j < |c| {
      NextBlock(c, first, i, j);
      var rest := WalkFrom(c, first, j);
      blocks := [block] + rest;
      assert blocks[1..] == rest;
      WalkOn(c, first, block, rest);
    } else {
      blocks := [block];
      assert Stopped(c[j - 1]) && blocks[1..] == [];
    }
  }

  /**
   `engine_start` hands the engine the transfer's bus address and the adjacent
   count computed from it. From there the prefetch reads every descriptor of
   the transfer once, in order, stops on the last one, and no block crosses a
   2 KiB boundary. No alignment beyond the descriptor size is assumed.
   */
  lemma PrefetchWalk(c: seq<Desc>, first: nat) returns (blocks: seq<Block>)
    requires c != [] && first % DESC_SIZE == 0
    requires Linked(c, first) && StopsAtEnd(c)
    ensures Walks(c, first, first, NextAdj(|c|, LowWord(first)), blocks)
    ensures Tiles(blocks, 0, |c|) && WithinBoundaries(blocks, first)
  {
    blocks := WalkFrom(c, first, 0);
  }

  // ----------------------------------------------------- a chain in the ring

  /**
   The bus shows slot j of `ring` at address bus + 32 * j. Told of the
   descriptor at `addr` and of `adj` adjacent ones, the engine reads exactly the
   n slots from `at` on, each once and in order, stops on the last of them, and
   reads no block across a 2 KiB boundary.
   */
  ghost predicate Fetches(ring: seq<Desc>, bus: nat, addr: nat, adj: nat, at: nat, n: nat) {
    exists blocks ::
      Walks(ring, bus, addr, adj, blocks) && Tiles(blocks, at, at + n) && WithinBoundaries(blocks, bus)
  }

  function Shifted(blocks: seq<Block>, at: nat): (r: seq<Block>)
    ensures |r| == |blocks|
  {
    if blocks == [] then [] else [Block(blocks[0].index + at, blocks[0].count)] + Shifted(blocks[1..], at)
  }

  /** A block of a part of the ring is the same block of the ring. */
  lemma ReadableInRing(ring: seq<Desc>, at: nat, n: nat, b: Block)
    requires at + n <= |ring| && Readable(ring[at..at + n], b)
    ensures Readable(ring, Block(b.index + at, b.count))
    ensures ring[b.index + at + b.count - 1] == ring[at..at + n][b.index + b.count - 1]
  {
    forall k | b.index + at <= k < b.index + at + b.count
      ensures ring[k] == ring[at..at + n][k - at]
    {
    }
  }

  /** One step of the walk, in the ring. */
  lemma StepInRing(ring: seq<Desc>, bus: nat, at: nat, n: nat, addr: nat, adj: nat, b: Block)
    requires at + n <= |ring| && addr == bus + DESC_SIZE * at + DESC_SIZE * b.index && b.count == adj + 1
    requires Readable(ring[at..at + n], b)
    ensures addr == bus + DESC_SIZE * (b.index + at) && Readable(ring, Block(b.index + at, b.count))
    ensures ring[b.index + at + adj] == ring[at..at + n][b.index + adj]
  {
    ReadableInRing(ring, at, n, b);
  }

  lemma {:induction false} WalksInRing(ring: seq<Desc>, bus: nat, at: nat, n: nat, addr: nat, adj: nat,
                                       blocks: seq<Block>)
    requires at + n <= |ring| && Walks(ring[at..at + n], bus + DESC_SIZE * at, addr, adj, blocks)
    ensures Walks(ring, bus, addr, adj, Shifted(blocks, at))
    decreases |blocks|
  {
    var c, b, moved := ring[at..at + n], blocks[0], Shifted(blocks, at);
    StepInRing(ring, bus, at, n, addr, adj, b);
    var last := c[b.index + adj];
    assert moved[0] == Block(b.index + at, b.count) && ring[moved[0].index + adj] == last;
    if !Stopped(last) {
      WalksInRing(ring, bus, at, n, last.next, AdjacentOf(last.control), blocks[1..]);
      assert moved[1..] == Shifted(blocks[1..], at);
    }
  }

  lemma {:induction false} TilesInRing(blocks: seq<Block>, at: nat, from: nat, upto: nat)
    requires Tiles(blocks, from, upto)
    ensures Tiles(Shifted(blocks, at), at + from, at + upto)
  {
    if blocks != [] {
      TilesInRing(blocks[1..], at, from + blocks[0].count, upto);
      assert Shifted(blocks, at)[1..] == Shifted(blocks[1..], at);
    }
  }

  lemma {:induction false} BoundariesInRing(blocks: seq<Block>, bus: nat, at: nat)
    requires WithinBoundaries(blocks, bus + DESC_SIZE * at)
    ensures WithinBoundaries(Shifted(blocks, at), bus)
  {
    if blocks != [] {
      var b, moved := blocks[0], Block(blocks[0].index + at, blocks[0].count);
      assert WithinBoundary(b, bus + DESC_SIZE * at);
      assert bus + DESC_SIZE * at + DESC_SIZE * b.index == bus + DESC_SIZE * moved.index;
      assert bus + DESC_SIZE * at + DESC_SIZE * (b.index + b.count - 1)
          == bus + DESC_SIZE * (moved.index + moved.count - 1);
      forall c | c in blocks[1..]
        ensures WithinBoundary(c, bus + DESC_SIZE * at)
      {
        assert c in blocks;
      }
      BoundariesInRing(blocks[1..], bus, at);
    }
  }

  /** Blocks that read a part of the ring from its first slot read those slots of the ring. */
  lemma PartFetched(ring: seq<Desc>, bus: nat, at: nat, n: nat, addr: nat, adj: nat, blocks: seq<Block>)
    requires at + n <= |ring| && Walks(ring[at..at + n], bus + DESC_SIZE * at, addr, adj, blocks)
    requires Tiles(blocks, 0, n) && WithinBoundaries(blocks, bus + DESC_SIZE * at)
    ensures Fetches(ring, bus, addr, adj, at, n)
  {
    WalksInRing(ring, bus, at, n, addr, adj, blocks);
    TilesInRing(blocks, at, 0, n);
    BoundariesInRing(blocks, bus, at);
  }

  /** A finished chain in n slots of the ring is fetched from the bus address of its first slot. */
  lemma ChainFetched(ring: seq<Desc>, bus: nat, at: nat, n: nat)
    requires bus % DESC_SIZE == 0 && 0 < n && at + n <= |ring|
    requires Linked(ring[at..at + n], bus + DESC_SIZE * at) && StopsAtEnd(ring[at..at + n])
    ensures Fetches(ring, bus, bus + 32 * at, NextAdj(n, LowWord(bus + 32 * at)), at, n)
  {
    var c, first := ring[at..at + n], bus + DESC_SIZE * at;
    assert |c| == n && first % DESC_SIZE == 0;
    var blocks := PrefetchWalk(c, first);
    PartFetched(ring, bus, at, n, first, NextAdj(n, LowWord(first)), blocks);
  }
}
