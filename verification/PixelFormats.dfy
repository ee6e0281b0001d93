/**
 The pixel stream kernels: 24-bit pixels regrouped into 32-bit words and back,
 in five modes. Colours are kept as bytes, least significant first. One call of
 a kernel handles one line: it reads groups until one carries the last flag.
 */
module PixelFormats {

  newtype Byte = x: int | 0 <= x < 256

  datatype Narrow = Narrow(b0: Byte, b1: Byte, b2: Byte, user: bool, last: bool)
  datatype Wide = Wide(b0: Byte, b1: Byte, b2: Byte, b3: Byte, user: bool, last: bool)
  datatype Mode = V_24 | V_32 | V_8 | V_16 | V_16C

  /** A call's output, how much input it has read, and whether it waits for more. */
  datatype Run<T> = Run(out: seq<T>, used: nat, stalled: bool)

  function Prepend<T>(out: seq<T>, used: nat, r: Run<T>): Run<T> {
    Run(out + r.out, used + r.used, r.stalled)
  }

  function PixelsPer(m: Mode): (n: nat)
    ensures n > 0
  {
    match m case V_24 => 4 case V_32 => 1 case V_8 => 4 case V_16 => 2 case V_16C => 2
  }

  function WordsPer(m: Mode): (n: nat)
    ensures n > 0
  {
    if m.V_24? then 3 else 1
  }

  /** The mean of two bytes, rounded down, from their nine-bit sum. */
  function Mean(a: Byte, b: Byte): Byte { ((a as int + b as int) / 2) as Byte }

  lemma MeanIsFloor(a: Byte, b: Byte)
    ensures 2 * (Mean(a, b) as int) <= a as int + b as int < 2 * (Mean(a, b) as int) + 2
  {
  }

  // --------------------------------------------------------- pixels to words

  /** The flag of any of the first n elements. */
  predicate AnyUser(ps: seq<Narrow>) { exists i :: 0 <= i < |ps| && ps[i].user }

  /** Pixels the next group takes; `V_24` and `V_8` stop early at a last flag, the others do not look. */
  function GroupSize(m: Mode, ps: seq<Narrow>, room: nat): (n: nat)
    ensures n <= room
  {
    if room == 0 then 0
    else if ps != [] && ps[0].last && (m.V_24? || m.V_8?) then 1
    else 1 + GroupSize(m, if ps == [] then [] else ps[1..], room - 1)
  }

  /** The register contents after a group: what was read, and stale pixels behind it. */
  function Registers(group: seq<Narrow>, stale: seq<Narrow>): (r: seq<Narrow>)
    requires |group| <= |stale| == 4
    ensures |r| == 4
  {
    group + stale[|group|..]
  }

  function PackGroup(m: Mode, g: seq<Narrow>, alpha: Byte, stale: seq<Narrow>): seq<Wide>
    requires 0 < |g| <= PixelsPer(m) && |stale| == 4 && (m.V_24? || m.V_8? || |g| == PixelsPer(m))
  {
    var r := Registers(g, stale);
    var last := g[|g| - 1].last;
    match m
    case V_24 => [
      Wide(r[0].b0, r[0].b1, r[0].b2, r[1].b0, r[0].user, r[1].last),
      Wide(r[1].b1, r[1].b2, r[2].b0, r[2].b1, r[1].user, r[2].last),
      Wide(r[2].b2, r[3].b0, r[3].b1, r[3].b2, r[2].user, r[3].last)]
    case V_32 => [Wide(g[0].b0, g[0].b1, g[0].b2, alpha, g[0].user, last)]
    case V_8 => [Wide(r[0].b0, r[1].b0, r[2].b0, r[3].b0, AnyUser(g), last)]
    case V_16 => [Wide(g[0].b0, g[0].b1, g[1].b0, g[1].b1, AnyUser(g), last)]
    case V_16C => [Wide(g[0].b0, Mean(g[0].b1, g[1].b1), g[1].b0, Mean(g[0].b2, g[1].b2), AnyUser(g), last)]
  }

  /** One call of `pixel_pack` on a stream; `stale` is what its registers hold where a short group left them unset. */
  function Pack(m: Mode, ps: seq<Narrow>, alpha: Byte, stale: seq<Narrow>): Run<Wide>
    requires |stale| == 4
    decreases |ps|
  {
    var n := GroupSize(m, ps, PixelsPer(m));
    if n == 0 || n > |ps| then Run([], |ps|, true)
    else
      assert m.V_24? || m.V_8? || n == PixelsPer(m) by { FixedSize(m, ps, PixelsPer(m)); }
      var out := PackGroup(m, ps[..n], alpha, stale);
      if ps[n - 1].last then Run(out, n, false) else Prepend(out, n, Pack(m, ps[n..], alpha, stale))
  }

  lemma {:induction false} FixedSize(m: Mode, ps: seq<Narrow>, room: nat)
    ensures !m.V_24? && !m.V_8? ==> GroupSize(m, ps, room) == room
    ensures room > 0 ==> GroupSize(m, ps, room) > 0
  {
    if room > 0 && ps != [] {
      FixedSize(m, ps[1..], room - 1);
    } else if room > 0 {
      FixedSize(m, [], room - 1);
    }
  }

  // --------------------------------------------------------- words to pixels

  predicate AnyWideUser(ws: seq<Wide>) { exists i :: 0 <= i < |ws| && ws[i].user }

  predicate AnyWideLast(ws: seq<Wide>) { exists i :: 0 <= i < |ws| && ws[i].last }

  function UnpackGroup(m: Mode, ws: seq<Wide>): (ps: seq<Narrow>)
    requires |ws| == WordsPer(m)
    ensures |ps| == PixelsPer(m)
  {
    var w, user, last := ws[0], AnyWideUser(ws), AnyWideLast(ws);
    match m
    case V_24 => [
      Narrow(w.b0, w.b1, w.b2, user, false),
      Narrow(w.b3, ws[1].b0, ws[1].b1, false, false),
      Narrow(ws[1].b2, ws[1].b3, ws[2].b0, false, false),
      Narrow(ws[2].b1, ws[2].b2, ws[2].b3, false, last)]
    case V_32 => [Narrow(w.b0, w.b1, w.b2, user, last)]
    case V_8 => [
      Narrow(w.b0, 0, 0, user, false), Narrow(w.b1, 0, 0, false, false),
      Narrow(w.b2, 0, 0, false, false), Narrow(w.b3, 0, 0, false, last)]
    case V_16 => [Narrow(w.b0, w.b1, 0, user, false), Narrow(w.b2, w.b3, 0, false, last)]
    case V_16C => [Narrow(w.b0, w.b1, w.b3, user, false), Narrow(w.b2, w.b1, w.b3, false, last)]
  }

  /** One call of `pixel_unpack` on a stream. */
  function Unpack(m: Mode, ws: seq<Wide>): Run<Narrow>
    decreases |ws|
  {
    var n := WordsPer(m);
    if |ws| < n then Run([], |ws|, true)
    else
      var out := UnpackGroup(m, ws[..n]);
      if AnyWideLast(ws[..n]) then Run(out, n, false) else Prepend(out, n, Unpack(m, ws[n..]))
  }

  // ------------------------------------------------------------- whole lines

  /** Whole groups, the last flag on the final element and nowhere else. */
  ghost predicate WordLine(m: Mode, ws: seq<Wide>) {
    ws != [] && |ws| % WordsPer(m) == 0 && forall i :: 0 <= i < |ws| ==> (ws[i].last <==> i == |ws| - 1)
  }

  ghost predicate PixelLine(m: Mode, ps: seq<Narrow>) {
    ps != [] && |ps| % PixelsPer(m) == 0 && forall i :: 0 <= i < |ps| ==> (ps[i].last <==> i == |ps| - 1)
  }

  /** Word i of a line after unpacking and packing again. */
  function Restored(m: Mode, ws: seq<Wide>, alpha: Byte, i: nat): Wide
    requires i < |ws| && |ws| % WordsPer(m) == 0
  {
    match m
    case V_24 => ws[i].(user := i % 3 == 0 && (ws[i].user || ws[i + 1].user || ws[i + 2].user))
    case V_32 => ws[i].(b3 := alpha)
    case _ => ws[i]
  }

  /** Pixel i of a line after packing and unpacking again. */
  function Kept(m: Mode, ps: seq<Narrow>, i: nat): Narrow
    requires i < |ps| && |ps| % PixelsPer(m) == 0
  {
    var p := ps[i];
    match m
    case V_24 => p.(user := i % 4 == 0 && (p.user || ps[i + 1].user || ps[i + 2].user))
    case V_32 => p
    case V_8 => Narrow(p.b0, 0, 0,
                       i % 4 == 0 && (p.user || ps[i + 1].user || ps[i + 2].user || ps[i + 3].user), p.last)
    case V_16 => Narrow(p.b0, p.b1, 0, i % 2 == 0 && (p.user || ps[i + 1].user), p.last)
    case V_16C =>
      var even := i - i % 2;
      Narrow(p.b0, ((ps[even].b1 as int + ps[even + 1].b1 as int) / 2) as Byte,
             ((ps[even].b2 as int + ps[even + 1].b2 as int) / 2) as Byte,
             i % 2 == 0 && (p.user || ps[i + 1].user), p.last)
  }
}
