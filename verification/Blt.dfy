/**
 The graphics output protocol's block transfers over a linear framebuffer that
 sits inside a PCI BAR (section 12.9.2.3 of the UEFI Specification 2.10). Every
 access goes through PCI I/O one row at a time and may fail; a copy inside the
 frame bounces each row through memory.
 */
module Blt {
  import opened Arithmetic
  import opened Rows

  const MAX_UINTN: nat := 0xFFFF_FFFF_FFFF_FFFF
  const MAX_UINT32: nat := 0xFFFF_FFFF
  const FRAMEBUFFER_OFFSET: nat := 0x0200_0000
  const SCRATCH_OFFSET: nat := 0x03FF_F000
  const MAX_WIDTH: nat := 1920
  const MAX_HEIGHT: nat := 1080
  const MAX_FRAME_BYTES: nat := 0x007E_9000
  const GOP_MODE_COUNT: nat := 1
  const BPP: nat := 4

  type UINTN = n: nat | n <= MAX_UINTN

  datatype Status = Success | InvalidParameter | NotReady | OutOfResources | DeviceError

  datatype Operation = VideoFill | VideoToBuffer | BufferToVideo | VideoToVideo | Unknown

  class Gop {
    const bar: array<Byte>
    var mode: nat
    var width: nat
    var height: nat
    var pixelsPerScanLine: nat
    /** PCI accesses made so far; whether the next one fails is decided by its number. */
    var accesses: nat

    constructor (bar: array<Byte>, width: nat, height: nat)
      ensures Valid() && !ModeSet() && this.bar == bar
    {
      this.bar := bar;
      mode := MAX_UINT32;
      this.width, this.height, pixelsPerScanLine := width, height, width;
      accesses := 0;
    }

    predicate ModeSet()
      reads this`mode
    {
      mode != MAX_UINT32 && mode < GOP_MODE_COUNT
    }

    /** A selected mode has passed `SimpleDisplayHwValidateModeBounds`. */
    ghost predicate Valid()
      reads this`mode, this`width, this`height, this`pixelsPerScanLine
    {
      ModeSet() ==> pixelsPerScanLine == width && BoundsOk(width, height, bar.Length)
    }

    /** Where the rectangle at (x, y) of the visible frame lies in the BAR. */
    function Frame(x: nat, y: nat): Rect
      reads this`pixelsPerScanLine
    {
      Rect(FRAMEBUFFER_OFFSET + (y * pixelsPerScanLine + x) * BPP, pixelsPerScanLine * BPP)
    }
  }

  /** `SimpleDisplayHwValidateModeBounds`. */
  predicate BoundsOk(width: nat, height: nat, barLength: nat) {
    && 0 < width <= MAX_WIDTH && 0 < height <= MAX_HEIGHT
    && 0 < width * height * BPP <= MAX_FRAME_BYTES
    && FRAMEBUFFER_OFFSET <= barLength
    && width * height * BPP <= barLength - FRAMEBUFFER_OFFSET
  }

  /** The bounds in plain numbers: a frame of at most 1920 by 1080 pixels of four bytes that ends inside the BAR. */
  lemma BoundsExact(width: nat, height: nat, barLength: nat)
    ensures BoundsOk(width, height, barLength) <==>
            0 < width <= 1920 && 0 < height <= 1080 && 0x0200_0000 + width * height * 4 <= barLength
  {
    if 0 < width <= 1920 && 0 < height <= 1080 {
      ProductGrows(width, 1920, height);
      NotSmaller(width, height);
    }
  }

  // -------------------------------------------------------------- validation

  predicate RectFits(start: nat, length: nat, limit: nat) {
    length != 0 && start <= limit && length <= limit - start
  }

  /** The driver's overflow tests on a caller's buffer; the result is the row stride it will use. */
  function Stride(bufX: UINTN, bufY: UINTN, w: UINTN, h: UINTN, delta: UINTN): (d: UINTN)
    requires 0 < w && 0 < h
  {
    if bufX > MAX_UINTN - w || bufX + w > MAX_UINTN / BPP then 0
    else
      var rowBytes := (bufX + w) * BPP;
      if delta == 0 && (bufX != 0 || bufY != 0) then 0
      else if delta != 0 && delta < rowBytes then 0
      else
        var d := if delta == 0 then rowBytes else delta;
        if bufY > MAX_UINTN - (h - 1) || bufY + h - 1 > MAX_UINTN / d then 0
        else if (bufY + h - 1) * d > MAX_UINTN - rowBytes then 0
        else d
  }

  /**
   Those tests accept exactly the layouts whose last byte address can be
   computed without overflow: a stride of at least one row, or none with the
   rectangle at the origin, and every row offset plus a row within 64 bits.
   */
  lemma StrideExact(bufX: UINTN, bufY: UINTN, w: UINTN, h: UINTN, delta: UINTN)
    requires 0 < w && 0 < h
    ensures var rowBytes := (bufX + w) * BPP;
            var d := if delta == 0 then rowBytes else delta;
            Stride(bufX, bufY, w, h, delta) ==
            if d >= rowBytes && (delta == 0 ==> bufX == 0 && bufY == 0) && (bufY + h - 1) * d + rowBytes <= MAX_UINTN
            then d else 0
  {
    var rowBytes := (bufX + w) * BPP;
    var d := if delta == 0 then rowBytes else delta;
    if d > 0 {
      QuotientBound(bufY + h - 1, d, MAX_UINTN);
      NotSmaller(bufY + h - 1, d);
    }
  }

  /** No row address of an accepted layout overflows, whatever Delta was given. */
  lemma NoRowOverflows(bufX: UINTN, bufY: UINTN, w: UINTN, h: UINTN, delta: UINTN, row: nat)
    requires 0 < w && 0 < h && row < h && Stride(bufX, bufY, w, h, delta) != 0
    ensures (bufY + row) * Stride(bufX, bufY, w, h, delta) + bufX * BPP + w * BPP <= MAX_UINTN
  {
    StrideExact(bufX, bufY, w, h, delta);
    var d := Stride(bufX, bufY, w, h, delta);
    ProductGrows(bufY + row, bufY + h - 1, d);
  }

  datatype Request = Request(op: Operation, hasBuffer: bool, sx: UINTN, sy: UINTN, dx: UINTN, dy: UINTN,
                             w: UINTN, h: UINTN, delta: UINTN) {
    predicate UsesBuffer() { op.VideoToBuffer? || op.BufferToVideo? }
    function BufferX(): UINTN { if op.VideoToBuffer? then dx else sx }
    function BufferY(): UINTN { if op.VideoToBuffer? then dy else sy }
    function BufferStride(): UINTN
      requires 0 < w && 0 < h
    {
      Stride(BufferX(), BufferY(), w, h, delta)
    }
    /** The rectangle in the caller's buffer. */
    function Buffer(): Rect
      requires 0 < w && 0 < h
    {
      Rect(BufferY() * BufferStride() + BufferX() * BPP, BufferStride())
    }
    predicate SourceFits(width: nat, height: nat) { RectFits(sx, w, width) && RectFits(sy, h, height) }
    predicate DestinationFits(width: nat, height: nat) { RectFits(dx, w, width) && RectFits(dy, h, height) }
  }

  /** The requests the driver goes on to execute. */
  predicate Accepted(q: Request, width: nat, height: nat) {
    && q.w != 0 && q.h != 0
    && (match q.op
        case VideoFill => q.hasBuffer && q.DestinationFits(width, height)
        case VideoToBuffer => q.hasBuffer && q.SourceFits(width, height)
        case BufferToVideo => q.hasBuffer && q.DestinationFits(width, height)
        case VideoToVideo => q.SourceFits(width, height) && q.DestinationFits(width, height)
        case Unknown => false)
    && (q.UsesBuffer() ==> q.BufferStride() != 0)
  }

  /**
   The tests in plain geometry. A request is executed exactly if it is one of
   the four, names a rectangle with pixels in it, lies in the frame wherever it
   reads or writes it, and has a buffer wherever it needs one, laid out so that
   its last byte can be addressed.
   */
  lemma AcceptedExactly(q: Request, width: nat, height: nat)
    ensures Accepted(q, width, height) <==>
            && !q.op.Unknown? && 0 < q.w && 0 < q.h
            && (!q.op.VideoToVideo? ==> q.hasBuffer)
            && (q.op.VideoToBuffer? || q.op.VideoToVideo? ==> q.sx + q.w <= width && q.sy + q.h <= height)
            && (!q.op.VideoToBuffer? ==> q.dx + q.w <= width && q.dy + q.h <= height)
            && (q.op.VideoToBuffer? || q.op.BufferToVideo? ==>
                  var x := if q.op.VideoToBuffer? then q.dx else q.sx;
                  var y := if q.op.VideoToBuffer? then q.dy else q.sy;
                  var d := if q.delta == 0 then (x + q.w) * 4 else q.delta;
                  && (x + q.w) * 4 <= d && (q.delta == 0 ==> x == 0 && y == 0)
                  && (y + q.h - 1) * d + (x + q.w) * 4 <= MAX_UINTN)
  {
    if 0 < q.w && 0 < q.h && q.UsesBuffer() {
      StrideExact(q.BufferX(), q.BufferY(), q.w, q.h, q.delta);
    }
  }

  // ---------------------------------------------------------------- geometry

  /** Byte k of row r of the request's rectangle in the caller's buffer, with the stride Delta asks for. */
  lemma BufferCell(q: Request, width: nat, height: nat, r: nat, k: nat)
    requires Accepted(q, width, height) && q.UsesBuffer()
    ensures var x := if q.op.VideoToBuffer? then q.dx else q.sx;
            var y := if q.op.VideoToBuffer? then q.dy else q.sy;
            var d := if q.delta == 0 then (x + q.w) * 4 else q.delta;
            Cell(q.Buffer().base, q.Buffer().stride, r, k) == (y + r) * d + x * 4 + k
  {
    StrideExact(q.BufferX(), q.BufferY(), q.w, q.h, q.delta);
    Distribute(q.BufferY(), r, q.BufferStride());
  }

  lemma RowBytes(r: nat, p: nat)
    ensures r * (p * BPP) == r * p * BPP
  {
  }

  lemma FrameCell(g: Gop, x: nat, y: nat, r: nat, k: nat)
    ensures Cell(g.Frame(x, y).base, g.Frame(x, y).stride, r, k) ==
            FRAMEBUFFER_OFFSET + ((y + r) * g.pixelsPerScanLine + x) * BPP + k
  {
    var p := g.pixelsPerScanLine;
    Distribute(y, r, p);
    RowBytes(r, p);
  }

  /** A row of an in-bounds rectangle lies in the visible frame: inside the BAR, clear of registers and scratch. */
  lemma RowInFrame(g: Gop, x: nat, y: nat, w: nat)
    requires g.ModeSet() && g.Valid() && x + w <= g.width && y < g.height
    ensures var o := g.Frame(x, y).base;
            FRAMEBUFFER_OFFSET <= o && o + w * BPP <= FRAMEBUFFER_OFFSET + g.width * g.height * BPP
    ensures FRAMEBUFFER_OFFSET + g.width * g.height * BPP <= g.bar.Length
    ensures FRAMEBUFFER_OFFSET + g.width * g.height * BPP <= SCRATCH_OFFSET
  {
    StepUp(y, g.height, g.width);
    OneMore(y, g.width);
    Swap(g.height, g.width);
  }

  /** Rows of the frame at different heights share no byte. */
  lemma FrameRowsApart(g: Gop, x: nat, y: nat, x': nat, y': nat, w: nat)
    requires y < y' && x + w <= g.pixelsPerScanLine
    ensures g.Frame(x, y).base + w * BPP <= g.Frame(x', y').base
  {
    StepUp(y, y', g.pixelsPerScanLine);
    OneMore(y, g.pixelsPerScanLine);
  }

  // ------------------------------------------------------------- row access

  /** Of n accesses from number `from` on, those made before the first that fails. */
  function Working(failing: set<nat>, from: nat, n: nat): (k: nat)
    ensures k <= n
    decreases n
  {
    if n == 0 || from in failing then 0 else 1 + Working(failing, from + 1, n - 1)
  }

  /** All the accesses before work, and the next one is the first to fail. */
  lemma {:induction false} WorkingMeans(failing: set<nat>, from: nat, n: nat)
    ensures var k := Working(failing, from, n);
            && (forall i :: from <= i < from + k ==> i !in failing)
            && (k < n ==> from + k in failing)
    ensures Working(failing, from, n) == n <==> forall i :: from <= i < from + n ==> i !in failing
    decreases n
  {
    if n > 0 && from !in failing {
      WorkingMeans(failing, from + 1, n - 1);
    }
  }

  /** Accesses made in all: the failing one, if any, is the last. */
  function Made(k: nat, n: nat): nat { if k < n then k + 1 else k }

  lemma WorkingPair(failing: set<nat>, from: nat, n: nat)
    ensures var k := Working(failing, from, 2);
            Working(failing, from, n + 2) == if k == 2 then 2 + Working(failing, from + 2, n) else k
  {
    assert Working(failing, from + 1, n + 1) ==
           if from + 1 in failing then 0 else 1 + Working(failing, from + 2, n);
  }

  /** `ReadFrameBufferRow`: w pixels at (x, y) into `dst` from byte `at` on. */
  method ReadFrameBufferRow(g: Gop, failing: set<nat>, x: nat, y: nat, w: nat, dst: array<Byte>, at: nat)
    returns (status: Status)
    requires g.ModeSet() && g.Valid() && 0 < w && x + w <= g.width && y < g.height
    requires dst != g.bar && at + w * BPP <= dst.Length
    modifies g`accesses, dst
    ensures status == if old(g.accesses) in failing then DeviceError else Success
    ensures g.accesses == old(g.accesses) + 1
    ensures status == Success ==>
      Patched(dst[..], old(dst[..]), at, g.bar[..], g.Frame(x, y).base, w * BPP)
    ensures status != Success ==> dst[..] == old(dst[..])
  {
    var rowBytes := w * BPP;
    var offset := FRAMEBUFFER_OFFSET + (y * g.pixelsPerScanLine + x) * BPP;
    RowInFrame(g, x, y, w);
    if rowBytes > g.bar.Length || offset > g.bar.Length - rowBytes {
      return InvalidParameter;
    }
    g.accesses := g.accesses + 1;
    if g.accesses - 1 in failing {
      return DeviceError;
    }
    forall i | at <= i < at + rowBytes {
      dst[i] := g.bar[offset + (i - at)];
    }
    return Success;
  }

  /** `WriteFrameBufferRow`: w pixels from byte `at` of `src` on, to (x, y). */
  method WriteFrameBufferRow(g: Gop, failing: set<nat>, x: nat, y: nat, w: nat, src: array<Byte>, at: nat)
    returns (status: Status)
    requires g.ModeSet() && g.Valid() && 0 < w && x + w <= g.width && y < g.height
    requires src != g.bar && at + w * BPP <= src.Length
    modifies g`accesses, g.bar
    ensures status == if old(g.accesses) in failing then DeviceError else Success
    ensures g.accesses == old(g.accesses) + 1
    ensures status == Success ==>
      Patched(g.bar[..], old(g.bar[..]), g.Frame(x, y).base, src[..], at, w * BPP)
    ensures status != Success ==> g.bar[..] == old(g.bar[..])
  {
    var rowBytes := w * BPP;
    var offset := FRAMEBUFFER_OFFSET + (y * g.pixelsPerScanLine + x) * BPP;
    RowInFrame(g, x, y, w);
    if rowBytes > g.bar.Length || offset > g.bar.Length - rowBytes {
      return InvalidParameter;
    }
    g.accesses := g.accesses + 1;
    if g.accesses - 1 in failing {
      return DeviceError;
    }
    forall i | offset <= i < offset + rowBytes {
      g.bar[i] := src[at + (i - offset)];
    }
    return Success;
  }

  // ---------------------------------------------------------------- the loops

  /** The rectangle of the request lies in the visible frame. */
  ghost predicate InFrame(g: Gop, x: nat, y: nat, w: nat, h: nat)
    reads g
  {
    g.ModeSet() && g.Valid() && 0 < w && 0 < h && x + w <= g.width && y + h <= g.height
  }

  lemma FrameRow(g: Gop, x: nat, y: nat, r: nat)
    ensures g.Frame(x, y + r).base == Cell(g.Frame(x, y).base, g.Frame(x, y).stride, r, 0)
  {
    FrameCell(g, x, y, r, 0);
  }

  /**
   Fill: every row gets the same row buffer. A failed access ends the loop
   after `rows` rows.
   */
  method FillRows(g: Gop, failing: set<nat>, row: array<Byte>, x: nat, y: nat, w: nat, h: nat)
    returns (status: Status, rows: nat)
    requires InFrame(g, x, y, w, h) && row != g.bar && row.Length == w * BPP
    modifies g`accesses, g.bar
    ensures rows == Working(failing, old(g.accesses), h) && g.accesses == old(g.accesses) + Made(rows, h)
    ensures status == if rows == h then Success else DeviceError
    ensures Copied(g.bar[..], old(g.bar[..]), g.Frame(x, y), row[..], Rect(0, 0), w * BPP, 0, rows)
  {
    ghost var was, src := g.bar[..], row[..];
    NothingCopied(was, g.Frame(x, y), src, Rect(0, 0), w * BPP, 0);
    ghost var start := g.accesses;
    status, rows := Success, 0;
    while rows < h
      invariant rows <= h && status == Success && g.accesses == start + rows
      invariant Working(failing, start, h) == rows + Working(failing, g.accesses, h - rows)
      invariant row[..] == src
      invariant Copied(g.bar[..], was, g.Frame(x, y), src, Rect(0, 0), w * BPP, 0, rows)
    {
      ghost var mid := g.bar[..];
      FrameRow(g, x, y, rows);
      status := WriteFrameBufferRow(g, failing, x, y + rows, w, row, 0);
      if status != Success {
        return;
      }
      OneRowMore(g.bar[..], mid, was, g.Frame(x, y), src, Rect(0, 0), w * BPP, 0, rows, rows);
      rows := rows + 1;
    }
  }

  /** Rows of the caller's buffer, `buffer` being its rectangle, into the frame. */
  method StoreRows(g: Gop, failing: set<nat>, src: array<Byte>, buffer: Rect, x: nat, y: nat, w: nat, h: nat)
    returns (status: Status, rows: nat)
    requires InFrame(g, x, y, w, h) && src != g.bar
    requires Cell(buffer.base, buffer.stride, h - 1, w * BPP) <= src.Length
    modifies g`accesses, g.bar
    ensures rows == Working(failing, old(g.accesses), h) && g.accesses == old(g.accesses) + Made(rows, h)
    ensures status == if rows == h then Success else DeviceError
    ensures Copied(g.bar[..], old(g.bar[..]), g.Frame(x, y), src[..], buffer, w * BPP, 0, rows)
  {
    ghost var was, from := g.bar[..], src[..];
    NothingCopied(was, g.Frame(x, y), from, buffer, w * BPP, 0);
    ghost var start := g.accesses;
    status, rows := Success, 0;
    while rows < h
      invariant rows <= h && status == Success && g.accesses == start + rows
      invariant Working(failing, start, h) == rows + Working(failing, g.accesses, h - rows)
      invariant src[..] == from
      invariant Copied(g.bar[..], was, g.Frame(x, y), from, buffer, w * BPP, 0, rows)
    {
      ghost var mid := g.bar[..];
      FrameRow(g, x, y, rows);
      LastRowBounds(buffer, rows, h, w * BPP);
      status := WriteFrameBufferRow(g, failing, x, y + rows, w, src, Cell(buffer.base, buffer.stride, rows, 0));
      if status != Success {
        return;
      }
      OneRowMore(g.bar[..], mid, was, g.Frame(x, y), from, buffer, w * BPP, 0, rows, rows);
      rows := rows + 1;
    }
  }

  lemma LastRowBounds(rect: Rect, r: nat, h: nat, n: nat)
    requires r < h
    ensures Cell(rect.base, rect.stride, r, 0) + n <= Cell(rect.base, rect.stride, h - 1, n)
  {
    ProductGrows(r, h - 1, rect.stride);
  }

  /** Rows of the frame into the caller's buffer. */
  method LoadRows(g: Gop, failing: set<nat>, dst: array<Byte>, buffer: Rect, x: nat, y: nat, w: nat, h: nat)
    returns (status: Status, rows: nat)
    requires InFrame(g, x, y, w, h) && dst != g.bar && w * BPP <= buffer.stride
    requires Cell(buffer.base, buffer.stride, h - 1, w * BPP) <= dst.Length
    modifies g`accesses, dst
    ensures rows == Working(failing, old(g.accesses), h) && g.accesses == old(g.accesses) + Made(rows, h)
    ensures status == if rows == h then Success else DeviceError
    ensures Copied(dst[..], old(dst[..]), buffer, g.bar[..], g.Frame(x, y), w * BPP, 0, rows)
  {
    ghost var was, from := dst[..], g.bar[..];
    NothingCopied(was, buffer, from, g.Frame(x, y), w * BPP, 0);
    ghost var start := g.accesses;
    status, rows := Success, 0;
    while rows < h
      invariant rows <= h && status == Success && g.accesses == start + rows
      invariant Working(failing, start, h) == rows + Working(failing, g.accesses, h - rows)
      invariant g.bar[..] == from
      invariant Copied(dst[..], was, buffer, from, g.Frame(x, y), w * BPP, 0, rows)
    {
      ghost var mid := dst[..];
      FrameRow(g, x, y, rows);
      LastRowBounds(buffer, rows, h, w * BPP);
      status := ReadFrameBufferRow(g, failing, x, y + rows, w, dst, Cell(buffer.base, buffer.stride, rows, 0));
      if status != Success {
        return;
      }
      OneRowMore(dst[..], mid, was, buffer, from, g.Frame(x, y), w * BPP, 0, rows, rows);
      rows := rows + 1;
    }
  }

  /**
   A source row that none of the rows written so far shares a height with
   still holds what it held at the start.
   */
  lemma SourceIntact(g: Gop, now: seq<Byte>, was: seq<Byte>, sx: nat, sy: nat, dx: nat, dy: nat,
                     w: nat, lo: nat, hi: nat, r: nat)
    requires sx + w <= g.pixelsPerScanLine && dx + w <= g.pixelsPerScanLine
    requires Copied(now, was, g.Frame(dx, dy), was, g.Frame(sx, sy), w * BPP, lo, hi)
    requires dy + hi <= sy + r || sy + r < dy + lo
    requires Cell(g.Frame(sx, sy).base, g.Frame(sx, sy).stride, r, w * BPP) <= |was|
    ensures var o := Cell(g.Frame(sx, sy).base, g.Frame(sx, sy).stride, r, 0);
            forall i :: o <= i < o + w * BPP ==> now[i] == was[i]
  {
    var o := Cell(g.Frame(sx, sy).base, g.Frame(sx, sy).stride, r, 0);
    var to := g.Frame(dx, dy);
    FrameRow(g, sx, sy, r);
    forall i | o <= i < o + w * BPP
      ensures Outside(i, to.base, to.stride, w * BPP, lo, hi)
    {
      forall q | lo <= q < hi
        ensures !(Cell(to.base, to.stride, q, 0) <= i < Cell(to.base, to.stride, q, w * BPP))
      {
        FrameRow(g, dx, dy, q);
        if dy + q < sy + r {
          FrameRowsApart(g, dx, dy + q, sx, sy + r, w);
        } else {
          FrameRowsApart(g, sx, sy + r, dx, dy + q, w);
        }
      }
    }
  }

  /** One row through the bounce buffer. */
  method BounceRow(g: Gop, failing: set<nat>, row: array<Byte>, sx: nat, sy: nat, dx: nat, dy: nat, w: nat)
    returns (status: Status)
    requires InFrame(g, sx, sy, w, 1) && InFrame(g, dx, dy, w, 1)
    requires row != g.bar && row.Length == w * BPP
    modifies g`accesses, g.bar, row
    ensures var k := Working(failing, old(g.accesses), 2);
            && status == (if k == 2 then Success else DeviceError)
            && g.accesses == old(g.accesses) + Made(k, 2)
    ensures status == Success ==>
      Patched(g.bar[..], old(g.bar[..]), g.Frame(dx, dy).base, old(g.bar[..]), g.Frame(sx, sy).base, w * BPP)
    ensures status != Success ==> g.bar[..] == old(g.bar[..])
  {
    status := ReadFrameBufferRow(g, failing, sx, sy, w, row, 0);
    if status != Success {
      return;
    }
    RowInFrame(g, sx, sy, w);
    status := WriteFrameBufferRow(g, failing, dx, dy, w, row, 0);
  }

  /** The next row of a move: it was bounced from the frame as it stood, yet equals the original. */
  lemma OneMoveMore(g: Gop, now: seq<Byte>, mid: seq<Byte>, was: seq<Byte>, sx: nat, sy: nat,
                    dx: nat, dy: nat, w: nat, lo: nat, hi: nat, r: nat)
    requires sx + w <= g.pixelsPerScanLine && dx + w <= g.pixelsPerScanLine && lo <= hi
    requires Copied(mid, was, g.Frame(dx, dy), was, g.Frame(sx, sy), w * BPP, lo, hi)
    requires Patched(now, mid, g.Frame(dx, dy + r).base, mid, g.Frame(sx, sy + r).base, w * BPP)
    requires g.Frame(sx, sy + r).base + w * BPP <= |was|
    requires dy + hi <= sy + r || sy + r < dy + lo
    ensures r == hi ==> Copied(now, was, g.Frame(dx, dy), was, g.Frame(sx, sy), w * BPP, lo, hi + 1)
    ensures lo > 0 && r == lo - 1 ==> Copied(now, was, g.Frame(dx, dy), was, g.Frame(sx, sy), w * BPP, r, hi)
  {
    FrameRow(g, sx, sy, r);
    FrameRow(g, dx, dy, r);
    SourceIntact(g, mid, was, sx, sy, dx, dy, w, lo, hi, r);
    if r == hi || (lo > 0 && r == lo - 1) {
      OneRowMore(now, mid, was, g.Frame(dx, dy), was, g.Frame(sx, sy), w * BPP, lo, hi, r);
    }
  }

  /** The 2r accesses that move r of h rows have worked. */
  ghost predicate MovedOn(failing: set<nat>, start: nat, h: nat, r: nat) {
    r <= h && Working(failing, start, 2 * h) == 2 * r + Working(failing, start + 2 * r, 2 * (h - r))
  }

  lemma MovedOnce(failing: set<nat>, start: nat, h: nat, r: nat)
    requires MovedOn(failing, start, h, r) && r < h
    ensures var k, all := Working(failing, start + 2 * r, 2), Working(failing, start, 2 * h);
            && (k == 2 ==> MovedOn(failing, start, h, r + 1))
            && (k != 2 ==> all == 2 * r + k && all < 2 * h && all / 2 == r && Made(all, 2 * h) == 2 * r + Made(k, 2))
  {
    WorkingPair(failing, start + 2 * r, 2 * (h - r - 1));
  }

  /** The first of the n rows a move of h rows has done, from either end. */
  function FirstMoved(upwards: bool, h: nat, n: nat): (lo: nat)
    requires n <= h
    ensures lo + n <= h
  {
    if upwards then h - n else 0
  }

  /** The n-th row of the move. */
  function MovesRow(upwards: bool, h: nat, n: nat): (r: nat)
    requires n < h
    ensures r < h
  {
    if upwards then h - n - 1 else n
  }

  /** A move with n of its h rows done, each as it was in the frame before. */
  ghost predicate PartMoved(now: seq<Byte>, was: seq<Byte>, to: Rect, from: Rect, bytes: nat, upwards: bool, h: nat,
                            n: nat)
    requires n <= h
  {
    var lo := FirstMoved(upwards, h, n);
    Copied(now, was, to, was, from, bytes, lo, lo + n)
  }

  /** The next row of a move. */
  method MoveOne(g: Gop, failing: set<nat>, row: array<Byte>, sx: nat, sy: nat, dx: nat, dy: nat, w: nat, h: nat,
                 n: nat, ghost was: seq<Byte>)
    returns (status: Status)
    requires InFrame(g, sx, sy, w, h) && InFrame(g, dx, dy, w, h) && n < h
    requires row != g.bar && row.Length == w * BPP && |was| == g.bar.Length
    requires PartMoved(g.bar[..], was, g.Frame(dx, dy), g.Frame(sx, sy), w * BPP, dy > sy, h, n)
    modifies g`accesses, g.bar, row
    ensures var k := Working(failing, old(g.accesses), 2);
            && status == (if k == 2 then Success else DeviceError)
            && g.accesses == old(g.accesses) + Made(k, 2)
    ensures status == Success ==>
      PartMoved(g.bar[..], was, g.Frame(dx, dy), g.Frame(sx, sy), w * BPP, dy > sy, h, n + 1)
    ensures status != Success ==> g.bar[..] == old(g.bar[..])
  {
    var r := MovesRow(dy > sy, h, n);
    ghost var mid, lo := g.bar[..], FirstMoved(dy > sy, h, n);
    status := BounceRow(g, failing, row, sx, sy + r, dx, dy + r, w);
    if status == Success {
      RowInFrame(g, sx, sy + r, w);
      OneMoveMore(g, g.bar[..], mid, was, sx, sy, dx, dy, w, lo, lo + n, r);
    }
  }

  /**
   Copy inside the frame through a one-row bounce buffer, downwards unless the
   destination is lower than the source. However the rectangles overlap, the
   result is that of copying the whole source at once: every row comes from the
   frame as it was before the call.
   */
  method MoveRows(g: Gop, failing: set<nat>, row: array<Byte>, sx: nat, sy: nat, dx: nat, dy: nat, w: nat, h: nat)
    returns (status: Status, lo: nat, hi: nat)
    requires InFrame(g, sx, sy, w, h) && InFrame(g, dx, dy, w, h)
    requires row != g.bar && row.Length == w * BPP
    modifies g`accesses, g.bar, row
    ensures var k := Working(failing, old(g.accesses), 2 * h);
            && status == (if k == 2 * h then Success else DeviceError)
            && g.accesses == old(g.accesses) + Made(k, 2 * h)
            && (lo, hi) == (if dy > sy then (h - k / 2, h) else (0, k / 2))
    ensures lo <= hi <= h
    ensures Copied(g.bar[..], old(g.bar[..]), g.Frame(dx, dy), old(g.bar[..]), g.Frame(sx, sy), w * BPP, lo, hi)
  {
    ghost var was := g.bar[..];
    ghost var start := g.accesses;
    NothingCopied(was, g.Frame(dx, dy), was, g.Frame(sx, sy), w * BPP, FirstMoved(dy > sy, h, 0));
    status := Success;
    var n := 0;
    while n < h
      invariant n <= h && status == Success && g.accesses == start + 2 * n
      invariant MovedOn(failing, start, h, n)
      invariant PartMoved(g.bar[..], was, g.Frame(dx, dy), g.Frame(sx, sy), w * BPP, dy > sy, h, n)
    {
      MovedOnce(failing, start, h, n);
      status := MoveOne(g, failing, row, sx, sy, dx, dy, w, h, n, was);
      if status != Success {
        break;
      }
      n := n + 1;
    }
    lo := FirstMoved(dy > sy, h, n);
    hi := lo + n;
  }

  // --------------------------------------------------------------------- Blt

  /** The pixel at byte `at` of the caller's buffer, w times over. */
  ghost predicate Repeats(row: seq<Byte>, pixel: seq<Byte>, w: nat) {
    |row| == w * BPP && |pixel| == BPP && forall i :: 0 <= i < |row| ==> row[i] == pixel[i % BPP]
  }

  /** What a caller must provide: a buffer, apart from the BAR, that holds the rectangle it names. */
  ghost predicate BufferProvided(g: Gop, q: Request, buffer: array<Byte>)
    reads g
  {
    && buffer != g.bar
    && (Accepted(q, g.width, g.height) && q.op.VideoFill? ==> buffer.Length >= BPP)
    && (Accepted(q, g.width, g.height) && q.UsesBuffer() ==>
          Cell(q.Buffer().base, q.Buffer().stride, q.h - 1, q.w * BPP) <= buffer.Length)
  }

  /**
   The outcome of a request that reached the loops: rows lo .. hi - 1 have been
   transferred and not another byte of the BAR or of the buffer has changed.
   */
  ghost predicate Transferred(g: Gop, q: Request, bar: seq<Byte>, bar0: seq<Byte>, buf: seq<Byte>, buf0: seq<Byte>,
                              fill: seq<Byte>, lo: nat, hi: nat)
    requires 0 < q.w && 0 < q.h
    reads g
  {
    match q.op
    case VideoFill => buf == buf0 && Copied(bar, bar0, g.Frame(q.dx, q.dy), fill, Rect(0, 0), q.w * BPP, lo, hi)
    case VideoToBuffer => bar == bar0 && Copied(buf, buf0, q.Buffer(), bar0, g.Frame(q.sx, q.sy), q.w * BPP, lo, hi)
    case BufferToVideo => buf == buf0 && Copied(bar, bar0, g.Frame(q.dx, q.dy), buf0, q.Buffer(), q.w * BPP, lo, hi)
    case VideoToVideo =>
      buf == buf0 && Copied(bar, bar0, g.Frame(q.dx, q.dy), bar0, g.Frame(q.sx, q.sy), q.w * BPP, lo, hi)
    case Unknown => false
  }

  /** PCI accesses a request needs: a copy inside the frame reads and writes every row. */
  function Accesses(q: Request): nat { if q.op.VideoToVideo? then 2 * q.h else q.h }

  /** The rows transferred once k accesses have worked. */
  function RowsDone(q: Request, k: nat): (nat, nat)
    requires k <= Accesses(q)
  {
    if !q.op.VideoToVideo? then (0, k) else if q.dy > q.sy then (q.h - k / 2, q.h) else (0, k / 2)
  }

  /** How a request that reached the loops ends, `from` accesses having been made before and `to` after. */
  ghost predicate Ended(q: Request, failing: set<nat>, from: nat, to: nat, status: Status, lo: nat, hi: nat) {
    var k := Working(failing, from, Accesses(q));
    && status == (if k == Accesses(q) then Success else DeviceError)
    && to == from + Made(k, Accesses(q))
    && (lo, hi) == RowsDone(q, k) && lo <= hi <= q.h
  }

  /** A fill: one pixel of the caller's, repeated along the row buffer. */
  method Fill(g: Gop, failing: set<nat>, q: Request, buffer: array<Byte>)
    returns (status: Status, ghost lo: nat, ghost hi: nat, ghost fill: seq<Byte>)
    requires g.Valid() && g.ModeSet() && q.op.VideoFill?
    requires Accepted(q, g.width, g.height) && BufferProvided(g, q, buffer)
    modifies g`accesses, g.bar
    ensures Ended(q, failing, old(g.accesses), g.accesses, status, lo, hi)
    ensures Transferred(g, q, g.bar[..], old(g.bar[..]), buffer[..], buffer[..], fill, lo, hi)
    ensures Repeats(fill, buffer[..BPP], q.w)
  {
    var row := new Byte[q.w * BPP];
    forall i | 0 <= i < row.Length {
      row[i] := buffer[i % BPP];
    }
    fill := row[..];
    var rows;
    status, rows := FillRows(g, failing, row, q.dx, q.dy, q.w, q.h);
    lo, hi := 0, rows;
  }

  method Move(g: Gop, failing: set<nat>, q: Request, ghost buffer: seq<Byte>)
    returns (status: Status, ghost lo: nat, ghost hi: nat)
    requires g.Valid() && g.ModeSet() && q.op.VideoToVideo? && Accepted(q, g.width, g.height)
    modifies g`accesses, g.bar
    ensures Ended(q, failing, old(g.accesses), g.accesses, status, lo, hi)
    ensures Transferred(g, q, g.bar[..], old(g.bar[..]), buffer, buffer, [], lo, hi)
  {
    var row := new Byte[q.w * BPP];
    var from, to;
    status, from, to := MoveRows(g, failing, row, q.sx, q.sy, q.dx, q.dy, q.w, q.h);
    lo, hi := from, to;
  }

  /** Rows between the frame and the caller's buffer, either way. */
  method Exchange(g: Gop, failing: set<nat>, q: Request, buffer: array<Byte>)
    returns (status: Status, ghost lo: nat, ghost hi: nat)
    requires g.Valid() && g.ModeSet() && q.UsesBuffer()
    requires Accepted(q, g.width, g.height) && BufferProvided(g, q, buffer)
    modifies g`accesses, g.bar, buffer
    ensures Ended(q, failing, old(g.accesses), g.accesses, status, lo, hi)
    ensures Transferred(g, q, g.bar[..], old(g.bar[..]), buffer[..], old(buffer[..]), [], lo, hi)
  {
    var rect := q.Buffer();
    assert q.w * BPP <= rect.stride by {
      StrideExact(q.BufferX(), q.BufferY(), q.w, q.h, q.delta);
    }
    var rows;
    if q.op.VideoToBuffer? {
      status, rows := LoadRows(g, failing, buffer, rect, q.sx, q.sy, q.w, q.h);
    } else {
      status, rows := StoreRows(g, failing, buffer, rect, q.dx, q.dy, q.w, q.h);
    }
    lo, hi := 0, rows;
  }

  /** `SimpleDisplayBlt`. `buffer` stands in for a null pointer when the request has none. */
  method Blt(g: Gop, failing: set<nat>, memory: bool, q: Request, buffer: array<Byte>)
    returns (status: Status, ghost lo: nat, ghost hi: nat, ghost fill: seq<Byte>)
    requires g.Valid() && BufferProvided(g, q, buffer)
    modifies g`accesses, g.bar, buffer
    ensures status == NotReady <==> !g.ModeSet()
    ensures status == InvalidParameter <==> g.ModeSet() && !Accepted(q, g.width, g.height)
    ensures status == OutOfResources <==>
      g.ModeSet() && Accepted(q, g.width, g.height) && !q.UsesBuffer() && !memory
    ensures status == NotReady || status == InvalidParameter || status == OutOfResources ==>
      g.accesses == old(g.accesses) && g.bar[..] == old(g.bar[..]) && buffer[..] == old(buffer[..])
    ensures status == Success || status == DeviceError ==>
      && g.ModeSet() && Accepted(q, g.width, g.height)
      && Ended(q, failing, old(g.accesses), g.accesses, status, lo, hi)
      && Transferred(g, q, g.bar[..], old(g.bar[..]), buffer[..], old(buffer[..]), fill, lo, hi)
      && (q.op.VideoFill? ==> Repeats(fill, old(buffer[..BPP]), q.w))
  {
    lo, hi, fill := 0, 0, [];
    if !g.ModeSet() {
      return NotReady, lo, hi, fill;
    }
    if !Accepted(q, g.width, g.height) {
      return InvalidParameter, lo, hi, fill;
    }
    if q.UsesBuffer() {
      status, lo, hi := Exchange(g, failing, q, buffer);
    } else if !memory {
      status := OutOfResources;
    } else if q.op.VideoFill? {
      status, lo, hi, fill := Fill(g, failing, q, buffer);
    } else {
      status, lo, hi := Move(g, failing, q, buffer[..]);
    }
  }
}
