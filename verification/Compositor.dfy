/**
 CPU composition of a frame into the line buffers: the primary plane row by
 row, then the overlay rectangle on top. Framebuffers are addressed in bytes
 with a pitch of any size; a pixel is four bytes.
 */
module Compositor {

  type Byte = bv8

  const BPP: nat := 4

  datatype Rect = Rect(x1: int, y1: int, x2: int, y2: int) {
    function Width(): int { x2 - x1 }
    function Height(): int { y2 - y1 }
  }

  /** A framebuffer and the memory its mapping shows; `mapped` is false for a null vaddr. */
  datatype Surface = Surface(width: nat, height: nat, pitch: nat, xrgb8888: bool, mapped: bool, data: seq<Byte>)

  datatype Snapshot = Snapshot(enabled: bool, hasFb: bool, fb: Surface, src: Rect, dst: Rect)

  datatype Mode = Mode(hdisplay: nat, vdisplay: nat) {
    function LineBytes(): nat { hdisplay * BPP }
  }

  /** What the framebuffer's owner guarantees: the mapping holds `height` rows of `pitch` bytes. */
  ghost predicate Backed(fb: Surface) { |fb.data| >= fb.height * fb.pitch }

  /** Snapshots are made of sizes, so their rectangles are never inside out. */
  ghost predicate Proper(s: Snapshot) {
    s.src.Width() >= 0 && s.src.Height() >= 0 && s.dst.Width() >= 0 && s.dst.Height() >= 0
  }

  /** Byte b of row y. */
  function At(fb: Surface, y: nat, b: nat): Byte {
    if y * fb.pitch + b < |fb.data| then fb.data[y * fb.pitch + b] else 0
  }

  lemma RowInside(rows: nat, pitch: nat, y: nat, n: nat)
    requires y < rows && n <= pitch
    ensures y * pitch + n <= rows * pitch
  {
    assert (y + 1) * pitch <= rows * pitch;
  }

  /** The tests the primary plane must pass. */
  predicate PrimaryUsable(p: Snapshot, mode: Mode) {
    && p.fb.mapped && p.enabled && p.hasFb && p.fb.xrgb8888
    && p.fb.width == mode.hdisplay && p.fb.height == mode.vdisplay
    && p.fb.pitch >= mode.LineBytes()
  }

  /** The tests the overlay must pass. */
  predicate OverlayUsable(o: Snapshot, mode: Mode) {
    && o.fb.mapped && o.hasFb && o.fb.xrgb8888
    && o.src.x1 >= 0 && o.src.y1 >= 0 && o.dst.x1 >= 0 && o.dst.y1 >= 0
    && o.src.x2 <= o.fb.width && o.src.y2 <= o.fb.height
    && o.dst.x2 <= mode.hdisplay && o.dst.y2 <= mode.vdisplay
    && o.src.Width() == o.dst.Width() && o.src.Height() == o.dst.Height()
    && o.fb.pitch >= o.fb.width * BPP
  }

  /** `fpga_drm_copy_primary_frame`. */
  method CopyPrimaryFrame(lines: array2<Byte>, p: Snapshot, mode: Mode) returns (ok: bool)
    requires mode.vdisplay <= lines.Length0 && mode.LineBytes() <= lines.Length1 && Backed(p.fb)
    modifies lines
    ensures ok == PrimaryUsable(p, mode)
    ensures ok <==>
      && p.fb.mapped && p.enabled && p.hasFb && p.fb.xrgb8888
      && p.fb.width == mode.hdisplay && p.fb.height == mode.vdisplay && mode.hdisplay * 4 <= p.fb.pitch
    ensures forall y, b :: 0 <= y < lines.Length0 && 0 <= b < lines.Length1 ==>
      lines[y, b] == if ok && y < mode.vdisplay && b < mode.LineBytes() then At(p.fb, y, b) else old(lines[y, b])
  {
    if !p.fb.mapped {
      return false;
    }
    if !p.enabled || !p.hasFb || !p.fb.xrgb8888 || p.fb.width != mode.hdisplay || p.fb.height != mode.vdisplay {
      return false;
    }
    if p.fb.pitch < mode.LineBytes() {
      return false;
    }
    for y := 0 to mode.vdisplay
      invariant forall r, b :: 0 <= r < lines.Length0 && 0 <= b < lines.Length1 ==>
        lines[r, b] == if r < y && b < mode.LineBytes() then At(p.fb, r, b) else old(lines[r, b])
    {
      RowInside(p.fb.height, p.fb.pitch, y, mode.LineBytes());
      forall b | 0 <= b < mode.LineBytes() {
        lines[y, b] := p.fb.data[y * p.fb.pitch + b];
      }
    }
    ok := true;
  }

  /** The overlay byte shown at byte b of row y, inside the destination rectangle. */
  function OverlayAt(o: Snapshot, y: int, b: int): Byte {
    var sy := o.src.y1 + y - o.dst.y1;
    var sb := o.src.x1 * BPP + b - o.dst.x1 * BPP;
    if sy >= 0 && sb >= 0 then At(o.fb, sy, sb) else 0
  }

  /** Byte b of row y lies in the destination rectangle. */
  predicate Covers(o: Snapshot, y: int, b: int) {
    o.dst.y1 <= y < o.dst.y2 && o.dst.x1 * BPP <= b < o.dst.x2 * BPP
  }

  /** Where row `row` of the source rectangle starts in the framebuffer's memory. */
  function RowStart(o: Snapshot, row: nat): int { (o.src.y1 + row) * o.fb.pitch + o.src.x1 * BPP }

  /** The overlay bytes of one row are consecutive in the framebuffer. */
  lemma RowShows(o: Snapshot, mode: Mode, row: nat, k: nat)
    requires OverlayUsable(o, mode) && Proper(o) && Backed(o.fb)
    requires row < o.dst.Height() && k < o.dst.Width() * BPP
    ensures 0 <= RowStart(o, row) + k < |o.fb.data|
    ensures OverlayAt(o, o.dst.y1 + row, o.dst.x1 * BPP + k) == o.fb.data[RowStart(o, row) + k]
  {
    RowInside(o.fb.height, o.fb.pitch, o.src.y1 + row, o.fb.width * BPP);
    assert RowStart(o, row) + k == (o.src.y1 + row) * o.fb.pitch + (o.src.x1 * BPP + k);
  }

  /** One 32-bit copy. */
  method CopyPixel(lines: array2<Byte>, y: nat, b: nat, data: seq<Byte>, from: nat)
    requires y < lines.Length0 && b + BPP <= lines.Length1 && from + BPP <= |data|
    modifies lines
    ensures forall r, c :: 0 <= r < lines.Length0 && 0 <= c < lines.Length1 ==>
      lines[r, c] == if r == y && b <= c < b + BPP then data[from + (c - b)] else old(lines[r, c])
  {
    forall c | b <= c < b + BPP {
      lines[y, c] := data[from + (c - b)];
    }
  }

  /** The inner loop: n pixels side by side. */
  method CopyPixels(lines: array2<Byte>, y: nat, b: nat, data: seq<Byte>, from: nat, n: nat)
    requires y < lines.Length0 && b + n * BPP <= lines.Length1 && from + n * BPP <= |data|
    modifies lines
    ensures forall r, c :: 0 <= r < lines.Length0 && 0 <= c < lines.Length1 ==>
      lines[r, c] == if r == y && b <= c < b + n * BPP then data[from + (c - b)] else old(lines[r, c])
  {
    for x := 0 to n
      invariant forall r, c :: 0 <= r < lines.Length0 && 0 <= c < lines.Length1 ==>
        lines[r, c] == if r == y && b <= c < b + x * BPP then data[from + (c - b)] else old(lines[r, c])
    {
      CopyPixel(lines, y, b + x * BPP, data, from + x * BPP);
    }
  }

  /** One row of the overlay. */
  method BlendRow(lines: array2<Byte>, row: nat, o: Snapshot, ghost mode: Mode)
    requires OverlayUsable(o, mode) && Proper(o) && Backed(o.fb)
    requires mode.vdisplay <= lines.Length0 && mode.LineBytes() <= lines.Length1
    requires row < o.dst.Height()
    modifies lines
    ensures forall y, b :: 0 <= y < lines.Length0 && 0 <= b < lines.Length1 ==>
      lines[y, b] == if y == o.dst.y1 + row && Covers(o, y, b) then OverlayAt(o, y, b) else old(lines[y, b])
  {
    var to, first, from := o.dst.y1 + row, o.dst.x1 * BPP, RowStart(o, row);
    RowInside(o.fb.height, o.fb.pitch, o.src.y1 + row, o.fb.width * BPP);
    CopyPixels(lines, to, first, o.fb.data, from, o.dst.Width());
    forall b | Covers(o, to, b)
      ensures OverlayAt(o, to, b) == o.fb.data[from + (b - first)]
    {
      RowShows(o, mode, row, b - first);
    }
  }

  /** `fpga_drm_blend_overlay_cpu`. */
  method BlendOverlay(lines: array2<Byte>, o: Snapshot, mode: Mode) returns (ok: bool)
    requires mode.vdisplay <= lines.Length0 && mode.LineBytes() <= lines.Length1 && Backed(o.fb) && Proper(o)
    modifies lines
    ensures ok == (!o.enabled || OverlayUsable(o, mode))
    ensures ok <==> o.enabled ==>
      && o.fb.mapped && o.hasFb && o.fb.xrgb8888
      && 0 <= o.src.x1 && 0 <= o.src.y1 && o.src.x2 <= o.fb.width && o.src.y2 <= o.fb.height
      && 0 <= o.dst.x1 && 0 <= o.dst.y1 && o.dst.x2 <= mode.hdisplay && o.dst.y2 <= mode.vdisplay
      && o.src.x2 - o.src.x1 == o.dst.x2 - o.dst.x1 && o.src.y2 - o.src.y1 == o.dst.y2 - o.dst.y1
      && o.fb.width * 4 <= o.fb.pitch
    ensures forall y, b :: 0 <= y < lines.Length0 && 0 <= b < lines.Length1 ==>
      lines[y, b] == if ok && o.enabled && Covers(o, y, b) then OverlayAt(o, y, b) else old(lines[y, b])
  {
    if !o.enabled {
      return true;
    }
    if !o.fb.mapped || !o.hasFb || !o.fb.xrgb8888 {
      return false;
    }
    if o.src.x1 < 0 || o.src.y1 < 0 || o.dst.x1 < 0 || o.dst.y1 < 0 {
      return false;
    }
    if o.src.x2 > o.fb.width || o.src.y2 > o.fb.height || o.dst.x2 > mode.hdisplay || o.dst.y2 > mode.vdisplay {
      return false;
    }
    if o.src.Width() != o.dst.Width() || o.src.Height() != o.dst.Height() {
      return false;
    }
    if o.fb.pitch < o.fb.width * BPP {
      return false;
    }
    for row := 0 to o.dst.Height()
      invariant forall y, b :: 0 <= y < lines.Length0 && 0 <= b < lines.Length1 ==>
        lines[y, b] == if y < o.dst.y1 + row && Covers(o, y, b) then OverlayAt(o, y, b) else old(lines[y, b])
    {
      BlendRow(lines, row, o, mode);
    }
    ok := true;
  }

  /** The composed byte at (y, b): overlay where it covers, primary elsewhere. */
  function Composed(p: Snapshot, o: Snapshot, y: int, b: int): Byte
    requires y >= 0 && b >= 0
  {
    if o.enabled && Covers(o, y, b) then OverlayAt(o, y, b) else At(p.fb, y, b)
  }

  /**
   `fpga_drm_compose_frame`. On success every byte of the visible frame is the
   overlay's where it covers and the primary's elsewhere; rows past `vdisplay`
   and bytes past the line are never written, whatever the outcome.
   */
  method ComposeFrame(lines: array2<Byte>, p: Snapshot, o: Snapshot, mode: Mode) returns (ok: bool, blended: bool)
    requires mode.vdisplay <= lines.Length0 && mode.LineBytes() <= lines.Length1
    requires Backed(p.fb) && Backed(o.fb) && Proper(o)
    modifies lines
    ensures ok == (PrimaryUsable(p, mode) && (o.enabled ==> OverlayUsable(o, mode)))
    ensures blended == (ok && o.enabled)
    ensures ok ==> forall y, b :: 0 <= y < mode.vdisplay && 0 <= b < mode.LineBytes() ==>
      lines[y, b] == Composed(p, o, y, b)
    ensures forall y, b :: 0 <= y < lines.Length0 && 0 <= b < lines.Length1 ==>
      (y >= mode.vdisplay || b >= mode.LineBytes()) ==> lines[y, b] == old(lines[y, b])
    ensures !PrimaryUsable(p, mode) ==>
      forall y, b :: 0 <= y < lines.Length0 && 0 <= b < lines.Length1 ==> lines[y, b] == old(lines[y, b])
  {
    blended := false;
    ok := CopyPrimaryFrame(lines, p, mode);
    if !ok {
      return;
    }
    if o.enabled {
      ok := BlendOverlay(lines, o, mode);
      blended := ok;
    }
  }

  // ---------------------------------------------------------------- pixels

  /** Where byte k of pixel (x, y) of a framebuffer lies in its memory. */
  lemma PixelInside(fb: Surface, x: nat, y: nat, k: nat)
    requires Backed(fb) && fb.width * BPP <= fb.pitch && x < fb.width && y < fb.height && k < BPP
    ensures y * fb.pitch + x * 4 + k < |fb.data|
    ensures At(fb, y, x * BPP + k) == fb.data[y * fb.pitch + x * 4 + k]
  {
    RowInside(fb.height, fb.pitch, y, fb.width * BPP);
    assert y * fb.pitch + (x * BPP + k) == y * fb.pitch + x * 4 + k;
  }

  /**
   Composition is pointwise in pixels. Byte k of visible pixel (x, y) comes from
   the same byte of one framebuffer pixel: inside the destination rectangle of
   an enabled overlay from the overlay's pixel moved by the rectangle offset,
   outside it from the primary's own pixel. No pixel mixes the two.
   */
  lemma ComposedIsPointwise(p: Snapshot, o: Snapshot, mode: Mode, x: nat, y: nat, k: nat)
    requires PrimaryUsable(p, mode) && (o.enabled ==> OverlayUsable(o, mode))
    requires Backed(p.fb) && Backed(o.fb) && Proper(o)
    requires x < mode.hdisplay && y < mode.vdisplay && k < 4
    ensures o.enabled && o.dst.x1 <= x < o.dst.x2 && o.dst.y1 <= y < o.dst.y2 ==>
      var sx, sy := o.src.x1 + x - o.dst.x1, o.src.y1 + y - o.dst.y1;
      && 0 <= sx < o.fb.width && 0 <= sy < o.fb.height && 0 <= sy * o.fb.pitch + sx * 4 + k < |o.fb.data|
      && Composed(p, o, y, x * 4 + k) == o.fb.data[sy * o.fb.pitch + sx * 4 + k]
    ensures !(o.enabled && o.dst.x1 <= x < o.dst.x2 && o.dst.y1 <= y < o.dst.y2) ==>
      && y * p.fb.pitch + x * 4 + k < |p.fb.data|
      && Composed(p, o, y, x * 4 + k) == p.fb.data[y * p.fb.pitch + x * 4 + k]
  {
    if o.enabled && o.dst.x1 <= x < o.dst.x2 && o.dst.y1 <= y < o.dst.y2 {
      var sx, sy := o.src.x1 + x - o.dst.x1, o.src.y1 + y - o.dst.y1;
      PixelInside(o.fb, sx, sy, k);
      assert OverlayAt(o, y, x * 4 + k) == At(o.fb, sy, sx * BPP + k);
    } else {
      PixelInside(p.fb, x, y, k);
    }
  }

  /** Overlay pixels come from inside the source rectangle, hence from inside the framebuffer. */
  lemma SourceInside(o: Snapshot, mode: Mode, x: int, y: int)
    requires OverlayUsable(o, mode) && o.dst.x1 <= x < o.dst.x2 && o.dst.y1 <= y < o.dst.y2
    ensures 0 <= o.src.x1 + x - o.dst.x1 < o.fb.width && 0 <= o.src.y1 + y - o.dst.y1 < o.fb.height
    ensures (o.src.y1 + y - o.dst.y1) * o.fb.pitch + (o.src.x1 + x - o.dst.x1) * BPP + BPP <= o.fb.height * o.fb.pitch
  {
    RowInside(o.fb.height, o.fb.pitch, o.src.y1 + y - o.dst.y1, o.fb.width * BPP);
  }
}
