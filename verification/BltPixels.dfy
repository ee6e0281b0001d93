/**
 What the block transfers mean in pixels: an in-frame copy is simultaneous, a
 buffer survives the trip to the frame and back, and nothing outside the visible
 frame is ever touched.
 */
module BltPixels {
  import opened Rows
  import opened Blt

  /** Byte k of pixel (x, y) of the visible frame. */
  function PixelByte(g: Gop, bar: seq<Byte>, x: nat, y: nat, k: nat): Byte
    reads g`pixelsPerScanLine
  {
    Get(bar, g.Frame(x, y).base + k)
  }

  predicate InRect(x: nat, y: nat, left: nat, top: nat, w: nat, h: nat) {
    left <= x < left + w && top <= y < top + h
  }

  lemma PixelIsCell(g: Gop, x: nat, y: nat, left: nat, top: nat, k: nat)
    requires left <= x && top <= y
    ensures g.Frame(x, y).base + k ==
            Cell(g.Frame(left, top).base, g.Frame(left, top).stride, y - top, (x - left) * BPP + k)
  {
    FrameCell(g, left, top, y - top, (x - left) * BPP + k);
  }

  /** A pixel of the frame outside the rectangle lies in none of its rows. */
  lemma PixelOutside(g: Gop, x: nat, y: nat, left: nat, top: nat, w: nat, h: nat, k: nat)
    requires x < g.pixelsPerScanLine && left + w <= g.pixelsPerScanLine && k < BPP
    requires !InRect(x, y, left, top, w, h)
    ensures Outside(g.Frame(x, y).base + k, g.Frame(left, top).base, g.Frame(left, top).stride, w * BPP, 0, h)
  {
    forall r | 0 <= r < h
      ensures !(Cell(g.Frame(left, top).base, g.Frame(left, top).stride, r, 0) <= g.Frame(x, y).base + k
                < Cell(g.Frame(left, top).base, g.Frame(left, top).stride, r, w * BPP))
    {
      FrameRow(g, left, top, r);
      if top + r < y {
        FrameRowsApart(g, left, top + r, x, y, w);
      } else if y < top + r {
        FrameRowsApart(g, x, y, left, top + r, 1);
      }
    }
  }

  /**
   After a successful copy inside the frame every pixel of the destination
   holds what its source pixel held before the call, overlap or not, and every
   other pixel of the frame is unchanged.
   */
  lemma CopyIsSimultaneous(g: Gop, q: Request, now: seq<Byte>, was: seq<Byte>, x: nat, y: nat,
                           k: nat)
    requires g.ModeSet() && g.Valid() && q.op.VideoToVideo? && Accepted(q, g.width, g.height)
    requires |was| == g.bar.Length
    requires Copied(now, was, g.Frame(q.dx, q.dy), was, g.Frame(q.sx, q.sy), q.w * BPP, 0, q.h)
    requires x < g.width && y < g.height && k < BPP
    ensures PixelByte(g, now, x, y, k) ==
            if InRect(x, y, q.dx, q.dy, q.w, q.h)
            then PixelByte(g, was, x - q.dx + q.sx, y - q.dy + q.sy, k)
            else PixelByte(g, was, x, y, k)
  {
    if InRect(x, y, q.dx, q.dy, q.w, q.h) {
      PixelIsCell(g, x, y, q.dx, q.dy, k);
      PixelIsCell(g, x - q.dx + q.sx, y - q.dy + q.sy, q.sx, q.sy, k);
    } else {
      PixelOutside(g, x, y, q.dx, q.dy, q.w, q.h, k);
      RowInFrame(g, x, y, 1);
    }
  }

  lemma FillByte(fill: seq<Byte>, pixel: seq<Byte>, w: nat, r: nat, x: nat, k: nat)
    requires Repeats(fill, pixel, w) && x < w && k < BPP
    ensures Get(fill, Cell(0, 0, r, x * BPP + k)) == pixel[k]
  {
    assert r * 0 == 0 && (x * BPP + k) % BPP == k;
  }

  /** After a successful fill the rectangle holds the pixel everywhere, the rest of the frame is unchanged. */
  lemma FillIsUniform(g: Gop, q: Request, now: seq<Byte>, was: seq<Byte>, pixel: seq<Byte>,
                      fill: seq<Byte>, x: nat, y: nat, k: nat)
    requires g.ModeSet() && g.Valid() && q.op.VideoFill? && Accepted(q, g.width, g.height)
    requires |was| == g.bar.Length && Repeats(fill, pixel, q.w)
    requires Copied(now, was, g.Frame(q.dx, q.dy), fill, Rect(0, 0), q.w * BPP, 0, q.h)
    requires x < g.width && y < g.height && k < BPP
    ensures PixelByte(g, now, x, y, k) ==
            if InRect(x, y, q.dx, q.dy, q.w, q.h) then pixel[k] else PixelByte(g, was, x, y, k)
  {
    if InRect(x, y, q.dx, q.dy, q.w, q.h) {
      PixelIsCell(g, x, y, q.dx, q.dy, k);
      var r, c := y - q.dy, (x - q.dx) * BPP + k;
      FillByte(fill, pixel, q.w, r, x - q.dx, k);
      assert Get(now, Cell(g.Frame(q.dx, q.dy).base, g.Frame(q.dx, q.dy).stride, r, c)) == Get(fill, Cell(0, 0, r, c));
    } else {
      PixelOutside(g, x, y, q.dx, q.dy, q.w, q.h, k);
      RowInFrame(g, x, y, 1);
    }
  }

  /**
   No accepted request, complete or broken off, changes a byte of the BAR
   outside the visible frame: not the registers below it, not the scratch page.
   */
  lemma OnlyTheFrame(g: Gop, now: seq<Byte>, was: seq<Byte>, src: seq<Byte>, from: Rect, x: nat,
                     y: nat, w: nat, h: nat, lo: nat, hi: nat, i: nat)
    requires InFrame(g, x, y, w, h) && hi <= h && |was| == g.bar.Length
    requires Copied(now, was, g.Frame(x, y), src, from, w * BPP, lo, hi)
    requires i < |was| && !(FRAMEBUFFER_OFFSET <= i < FRAMEBUFFER_OFFSET + g.width * g.height * BPP)
    ensures now[i] == was[i]
    ensures FRAMEBUFFER_OFFSET + g.width * g.height * BPP <= SCRATCH_OFFSET
  {
    RowInFrame(g, x, y, w);
    forall r | lo <= r < hi
      ensures !(Cell(g.Frame(x, y).base, g.Frame(x, y).stride, r, 0) <= i
                < Cell(g.Frame(x, y).base, g.Frame(x, y).stride, r, w * BPP))
    {
      FrameRow(g, x, y, r);
      RowInFrame(g, x, y + r, w);
    }
  }

  /**
   Buffer to video and back: a rectangle stored from one buffer layout and
   loaded into any other returns the same bytes, and whatever lies outside the
   two rectangles is as it was.
   */
  lemma RoundTrip(g: Gop, bar0: seq<Byte>, bar1: seq<Byte>, sent: seq<Byte>, from: Rect,
                  got0: seq<Byte>, got1: seq<Byte>, to: Rect, x: nat, y: nat, w: nat, h: nat, r: nat,
                  k: nat)
    requires Copied(bar1, bar0, g.Frame(x, y), sent, from, w * BPP, 0, h)
    requires Copied(got1, got0, to, bar1, g.Frame(x, y), w * BPP, 0, h)
    requires r < h && k < w * BPP
    ensures Get(got1, Cell(to.base, to.stride, r, k)) == Get(sent, Cell(from.base, from.stride, r, k))
    ensures forall i :: 0 <= i < |bar0| && Outside(i, g.Frame(x, y).base, g.Frame(x, y).stride, w * BPP, 0, h) ==>
      bar1[i] == bar0[i]
    ensures forall i :: 0 <= i < |got0| && Outside(i, to.base, to.stride, w * BPP, 0, h) ==> got1[i] == got0[i]
  {
    assert Get(bar1, Cell(g.Frame(x, y).base, g.Frame(x, y).stride, r, k)) ==
           Get(sent, Cell(from.base, from.stride, r, k));
  }

  /** The request that fetches what q stored, into a buffer of any layout. */
  function FetchBack(q: Request, bufX: UINTN, bufY: UINTN, delta: UINTN): Request {
    Request(VideoToBuffer, true, q.dx, q.dy, bufX, bufY, q.w, q.h, delta)
  }

  /** A run of accesses works throughout exactly if both its parts do. */
  lemma {:induction false} WorkingJoins(failing: set<nat>, from: nat, m: nat, n: nat)
    ensures Working(failing, from, m + n) == m + n <==>
            Working(failing, from, m) == m && Working(failing, from + m, n) == n
    decreases m
  {
    if m > 0 && from !in failing {
      WorkingJoins(failing, from + 1, m - 1, n);
    }
  }

  /** Two calls of the protocol: store a rectangle, then fetch it again. */
  method StoreAndFetch(g: Gop, failing: set<nat>, memory: bool, q: Request, src: array<Byte>, bufX: UINTN, bufY: UINTN,
                       delta: UINTN, dst: array<Byte>) returns (ok: bool)
    requires g.Valid() && q.op.BufferToVideo?
    requires BufferProvided(g, q, src) && BufferProvided(g, FetchBack(q, bufX, bufY, delta), dst)
    modifies g`accesses, g.bar, src, dst
    ensures ok <==>
      && g.ModeSet() && Accepted(q, g.width, g.height) && Accepted(FetchBack(q, bufX, bufY, delta), g.width, g.height)
      && Working(failing, old(g.accesses), q.h + q.h) == q.h + q.h
    ensures ok ==>
      && Accepted(q, g.width, g.height) && Accepted(FetchBack(q, bufX, bufY, delta), g.width, g.height)
      && (src != dst ==> src[..] == old(src[..]))
      && var from, to := q.Buffer(), FetchBack(q, bufX, bufY, delta).Buffer();
      && (forall r, k :: 0 <= r < q.h && 0 <= k < q.w * BPP ==>
            Get(dst[..], Cell(to.base, to.stride, r, k)) == Get(old(src[..]), Cell(from.base, from.stride, r, k)))
      && (forall i :: 0 <= i < dst.Length && Outside(i, to.base, to.stride, q.w * BPP, 0, q.h) ==>
            dst[i] == old(dst[i]))
  {
    ghost var sent, got, bar0 := src[..], dst[..], g.bar[..];
    var status, lo, hi, fill := Blt.Blt(g, failing, memory, q, src);
    WorkingJoins(failing, old(g.accesses), q.h, q.h);
    if status != Success {
      return false;
    }
    ghost var bar1 := g.bar[..];
    var back := FetchBack(q, bufX, bufY, delta);
    status, lo, hi, fill := Blt.Blt(g, failing, memory, back, dst);
    ok := status == Success;
    if ok {
      ghost var from, to := q.Buffer(), back.Buffer();
      forall r, k | 0 <= r < q.h && 0 <= k < q.w * BPP
        ensures Get(dst[..], Cell(to.base, to.stride, r, k)) == Get(sent, Cell(from.base, from.stride, r, k))
      {
        RoundTrip(g, bar0, bar1, sent, from, got, dst[..], to, q.dx, q.dy, q.w, q.h, r, k);
      }
    }
  }

  /**
   `SimpleDisplaySetMode` on mode 0 of the table: only a mode whose frame fits
   the BAR is ever selected, and the fresh frame is black.
   */
  method SetMode(g: Gop, failing: set<nat>, memory: bool, number: nat, width: nat, height: nat, programmed: bool)
    returns (ok: bool)
    requires g.Valid()
    modifies g, g.bar
    ensures g.Valid()
    ensures number >= GOP_MODE_COUNT || !BoundsOk(width, height, g.bar.Length) || !programmed ==>
      !ok && unchanged(g) && unchanged(g.bar)
    ensures number < GOP_MODE_COUNT && BoundsOk(width, height, g.bar.Length) && programmed ==>
      g.ModeSet() && g.width == width && g.height == height
    ensures ok <==>
      && number < GOP_MODE_COUNT && BoundsOk(width, height, g.bar.Length) && programmed
      && memory && Working(failing, old(g.accesses), height) == height
    ensures ok ==> forall x, y, k :: 0 <= x < width && 0 <= y < height && 0 <= k < BPP ==>
      PixelByte(g, g.bar[..], x, y, k) == 0
  {
    if number >= GOP_MODE_COUNT || !BoundsOk(width, height, g.bar.Length) || !programmed {
      return false;
    }
    g.width, g.height, g.pixelsPerScanLine := width, height, width;
    g.mode := number;
    var black := new Byte[BPP](_ => 0);
    var q := Request(VideoFill, true, 0, 0, 0, 0, width, height, 0);
    ghost var was := g.bar[..];
    ghost var zero := black[..];
    var status, lo, hi, fill := Blt.Blt(g, failing, memory, q, black);
    ok := status == Success;
    if ok {
      forall x, y, k | 0 <= x < width && 0 <= y < height && 0 <= k < BPP
        ensures PixelByte(g, g.bar[..], x, y, k) == 0
      {
        FillIsUniform(g, q, g.bar[..], was, zero, fill, x, y, k);
      }
    }
  }
}
