/**
 Cutting a user buffer into one piece per memory page. Lengths are 64-bit, but
 the page count and the size of each piece pass through 32-bit integers.
 */
module UserBuffer {
  import opened Arithmetic
  import opened Scatter
  import RequestList

  const PAGE: nat := 4096
  const U32: nat := 0x1_0000_0000
  const U64: nat := 0x1_0000_0000_0000_0000

  /** A piece of the k-th pinned page. */
  datatype Piece = Piece(page: nat, offset: nat, bytes: nat)

  datatype Outcome = Mapped(pieces: seq<Piece>) | Invalid | NoMemory | Fault

  /** What the kernel answers: allocations, and the pages it pinned or the refusal to pin any. */
  datatype Kernel = Kernel(table: bool, room: bool, pinned: Pinned)
  datatype Pinned = NonePinned | Pages(frames: seq<nat>)

  function PagesNr(buf: nat, len: nat): nat {
    (buf % PAGE + len + PAGE - 1) % U64 / PAGE % U32
  }

  /** Bytes of the next piece, as `min_t(unsigned int, ...)` computes them. */
  function Chunk(buf: nat, len: nat): nat {
    if PAGE - buf % PAGE <= len % U32 then PAGE - buf % PAGE else len % U32
  }

  /** The pieces of pages k, k + 1, ..., n - 1. */
  function Split(buf: nat, len: nat, k: nat, n: nat): seq<Piece>
    requires k <= n
    decreases n - k
  {
    if k == n then []
    else [Piece(k, buf % PAGE, Chunk(buf, len))] + Split(buf + Chunk(buf, len), len - Chunk(buf, len), k + 1, n)
  }

  /** Bytes still unmapped after those pages. */
  function Leftover(buf: nat, len: nat, k: nat, n: nat): nat
    requires k <= n
    decreases n - k
  {
    if k == n then len else Leftover(buf + Chunk(buf, len), len - Chunk(buf, len), k + 1, n)
  }

  // ------------------------------------------------------------- properties

  /** The user addresses the pieces stand for when page 0 is the `first`-th page of memory. */
  function Addresses(ps: seq<Piece>, first: nat): seq<nat> {
    if ps == [] then [] else Span(PAGE * (first + ps[0].page) + ps[0].offset, ps[0].bytes) + Addresses(ps[1..], first)
  }

  /** A 4 GiB part of the length is never worked off. */
  lemma {:induction false} HighPartStays(buf: nat, len: nat, k: nat, n: nat)
    requires k <= n
    ensures Leftover(buf, len, k, n) >= len / U32 * U32
    decreases n - k
  {
    if k < n {
      var c := Chunk(buf, len);
      assert len - c == len / U32 * U32 + (len % U32 - c);
      QuotientIs(len - c, U32, len / U32, len % U32 - c);
      HighPartStays(buf + c, len - c, k + 1, n);
    }
  }

  /** One step: the piece ends at the page's end or the buffer's, and lies in page k. */
  lemma ChunkStep(buf: nat, len: nat, first: nat, k: nat)
    requires 0 < len < U32 && buf / PAGE == first + k
    ensures var c := Chunk(buf, len);
            && 0 < c <= len && buf % PAGE + c <= PAGE
            && buf == PAGE * (first + k) + buf % PAGE
            && (c < len ==> (buf + c) % PAGE == 0 && (buf + c) / PAGE == first + k + 1 && c == PAGE - buf % PAGE)
  {
    Small(len, U32);
    if PAGE - buf % PAGE < len {
      QuotientIs(buf + (PAGE - buf % PAGE), PAGE, first + k + 1, 0);
    }
  }

  /** Enough pages: every byte of the buffer is mapped once and in order, no page is touched in vain. */
  lemma {:induction false} SplitCovers(buf: nat, len: nat, first: nat, k: nat, n: nat)
    requires len < U32 && k <= n && (len == 0 || buf / PAGE == first + k)
    requires len == 0 || (buf % PAGE + len <= PAGE * (n - k) && PAGE * (n - k - 1) < buf % PAGE + len)
    requires len == 0 ==> k == n
    ensures Leftover(buf, len, k, n) == 0
    ensures Addresses(Split(buf, len, k, n), first) == Span(buf, len)
    ensures forall p :: p in Split(buf, len, k, n) ==> 0 < p.bytes && p.offset + p.bytes <= PAGE
    decreases n - k
  {
    if len > 0 {
      var c := Chunk(buf, len);
      ChunkStep(buf, len, first, k);
      SplitCovers(buf + c, len - c, first, k + 1, n);
      SpanSplit(buf, len, c);
    }
  }

  /** For a buffer under 4 GiB the formula counts exactly the pages the buffer touches. */
  lemma PagesTouched(buf: nat, len: nat)
    requires 0 < len < U32
    ensures PagesNr(buf, len) == (buf + len - 1) / PAGE - buf / PAGE + 1
    ensures PAGE * (PagesNr(buf, len) - 1) < buf % PAGE + len <= PAGE * PagesNr(buf, len)
  {
    var offset, first := buf % PAGE, buf / PAGE;
    var n := CeilDiv(offset + len, PAGE);
    CeilBounds(offset + len, PAGE);
    Small(offset + len + PAGE - 1, U64);
    Small(n, U32);
    QuotientIs(buf + len - 1, PAGE, first + n - 1, offset + len - 1 - PAGE * (n - 1));
  }

  /** Its pieces then are the whole buffer, one per page, each inside its page. */
  lemma {:induction false} BufferIsCovered(buf: nat, len: nat)
    requires 0 < len < U32
    ensures var ps := Split(buf, len, 0, PagesNr(buf, len));
            && Leftover(buf, len, 0, PagesNr(buf, len)) == 0
            && Addresses(ps, buf / PAGE) == Span(buf, len)
            && forall p :: p in ps ==> 0 < p.bytes && p.offset + p.bytes <= PAGE
  {
    PagesTouched(buf, len);
    SplitCovers(buf, len, buf / PAGE, 0, PagesNr(buf, len));
  }

  /** No length error exactly below 4 GiB, and nothing to map only for an empty, page-aligned buffer. */
  lemma {:induction false} LengthErrors(buf: nat, len: nat)
    ensures len < U32 ==> (PagesNr(buf, len) == 0 <==> len == 0 && buf % PAGE == 0)
    ensures Leftover(buf, len, 0, PagesNr(buf, len)) == 0 <==> len < U32
  {
    if len >= U32 {
      HighPartStays(buf, len, 0, PagesNr(buf, len));
    } else if len > 0 {
      PagesTouched(buf, len);
      BufferIsCovered(buf, len);
    } else {
      EmptyLeavesNothing(buf, 0, PagesNr(buf, 0));
    }
  }

  lemma {:induction false} EntryInTotal(es: seq<Entry>, e: Entry)
    requires e in es
    ensures e.len <= Total(es)
  {
    if e != es[0] {
      EntryInTotal(es[1..], e);
    }
  }

  /**
   Wherever the pages are mapped: neither entries of at most a page, nor
   entries merged in any way while the whole length plus the limit stays within
   4 GiB, make the request builder's rounding wrap. It finds room for every piece.
   */
  lemma {:induction false} MappedBufferFits(es: seq<Entry>, max: nat)
    requires 0 < max < U32
    requires Total(es) + max <= U32 || forall e :: e in es ==> e.len <= PAGE
    ensures |RequestList.AllPieces(es, max)| <= RequestList.Reserved(es, max)
    ensures Bytes(RequestList.AllPieces(es, max)) == Bytes(es)
  {
    forall e | e in es
      ensures e.len < U32 && !RequestList.Wraps(e.len, max)
    {
      EntryInTotal(es, e);
    }
    RequestList.ListExact(es, max);
    RequestList.AllPiecesCover(es, max);
  }

  lemma {:induction false} EmptyLeavesNothing(buf: nat, k: nat, n: nat)
    requires k <= n
    ensures Leftover(buf, 0, k, n) == 0
    decreases n - k
  {
    if k < n {
      EmptyLeavesNothing(buf, k + 1, n);
    }
  }

  // ------------------------------------------------------------------- code

  ghost predicate NeighboursDiffer(frames: seq<nat>) {
    forall i :: 0 < i < |frames| ==> frames[i - 1] != frames[i]
  }

  /** The loop that fills the scatter table. */
  method CutPages(buf: nat, len: nat, n: nat) returns (pieces: seq<Piece>, left: nat)
    ensures pieces == Split(buf, len, 0, n) && left == Leftover(buf, len, 0, n)
  {
    var at := buf;
    pieces, left := [], len;
    var i := 0;
    while i < n
      invariant 0 <= i <= n && 0 <= at
      invariant Split(buf, len, 0, n) == pieces + Split(at, left, i, n)
      invariant Leftover(buf, len, 0, n) == Leftover(at, left, i, n)
    {
      var offset := at % PAGE;
      var bytes := if PAGE - offset <= left % U32 then PAGE - offset else left % U32;
      Assoc(pieces, [Piece(i, offset, bytes)], Split(at + bytes, left - bytes, i + 1, n));
      pieces := pieces + [Piece(i, offset, bytes)];
      at, left := at + bytes, left - bytes;
      i := i + 1;
    }
    assert pieces + [] == pieces;
  }

  /** `char_sgdma_map_user_buf_to_sgl`. */
  method MapUserBuffer(buf: nat, len: nat, kernel: Kernel) returns (r: Outcome)
    ensures r.Mapped? <==>
      && len < U32 && !(len == 0 && buf % PAGE == 0)
      && kernel.table && kernel.room && kernel.pinned.Pages? && |kernel.pinned.frames| == PagesNr(buf, len)
      && NeighboursDiffer(kernel.pinned.frames)
    ensures r.Mapped? ==> r.pieces == Split(buf, len, 0, PagesNr(buf, len))
    ensures r.NoMemory? <==> PagesNr(buf, len) != 0 && !(kernel.table && kernel.room)
    ensures r.Fault? <==>
      && PagesNr(buf, len) != 0 && kernel.table && kernel.room
      && (kernel.pinned.NonePinned? || |kernel.pinned.frames| != PagesNr(buf, len)
          || !NeighboursDiffer(kernel.pinned.frames))
  {
    LengthErrors(buf, len);
    var n := PagesNr(buf, len);
    if n == 0 {
      return Invalid;
    }
    if !kernel.table || !kernel.room {
      return NoMemory;
    }
    if kernel.pinned.NonePinned? || |kernel.pinned.frames| != n {
      return Fault;
    }
    var frames := kernel.pinned.frames;
    for i := 1 to n
      invariant forall j :: 0 < j < i ==> frames[j - 1] != frames[j]
    {
      if frames[i - 1] == frames[i] {
        return Fault;
      }
    }
    var pieces, left := CutPages(buf, len, n);
    if left != 0 {
      return Invalid;
    }
    r := Mapped(pieces);
  }
}
