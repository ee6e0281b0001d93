/**
 The kernels themselves: loops that read a stream element by element, fill
 registers and write the other stream. A read from an exhausted stream waits
 for ever, which ends the run with `stalled`.
 */
module PixelKernels {
  import opened PixelFormats

  lemma PrependTwice<T>(a: seq<T>, i: nat, b: seq<T>, j: nat, r: Run<T>)
    ensures Prepend(a, i, Prepend(b, j, r)) == Prepend(a + b, i + j, r)
  {
    assert a + (b + r.out) == a + b + r.out;
  }

  /** What `whole`, a run on a stream, says once `out` is written and `pos` elements are read. */
  ghost predicate Upto<T>(whole: Run<T>, out: seq<T>, pos: nat, done: bool, rest: Run<T>) {
    whole == if done then Run(out, pos, false) else Prepend(out, pos, rest)
  }

  // ------------------------------------------------------------------- pack

  /** Unfolds the specification at the next group. */
  lemma {:induction false} PackOnce(m: Mode, ps: seq<Narrow>, alpha: Byte, stale: seq<Narrow>, whole: Run<Wide>,
                                    out: seq<Wide>, pos: nat, n: nat)
    requires |stale| == 4 && pos <= |ps| && n == GroupSize(m, ps[pos..], PixelsPer(m))
    requires Upto(whole, out, pos, false, Pack(m, ps[pos..], alpha, stale))
    ensures n > 0 && (!m.V_24? && !m.V_8? ==> n == PixelsPer(m))
    ensures pos + n > |ps| ==> whole == Run(out, |ps|, true)
    ensures pos + n <= |ps| ==>
      var g := PackGroup(m, ps[pos..pos + n], alpha, stale);
      Upto(whole, out + g, pos + n, ps[pos + n - 1].last, Pack(m, ps[pos + n..], alpha, stale))
  {
    FixedSize(m, ps[pos..], PixelsPer(m));
    if pos + n > |ps| {
      assert out + [] == out;
    } else {
      assert ps[pos..][..n] == ps[pos..pos + n] && ps[pos..][n..] == ps[pos + n..];
      var g := PackGroup(m, ps[pos..pos + n], alpha, stale);
      if !ps[pos + n - 1].last {
        PrependTwice(out, pos, g, n, Pack(m, ps[pos + n..], alpha, stale));
      }
    }
  }

  /** One group read at pos and written, or the stream ran out. */
  ghost predicate Grouped(m: Mode, ps: seq<Narrow>, pos: nat, alpha: Byte, stale: seq<Narrow>, stalled: bool, pos': nat,
                          words: seq<Wide>)
    requires pos <= |ps|
  {
    var n := GroupSize(m, ps[pos..], PixelsPer(m));
    && |stale| == 4 && (stalled <==> pos + n > |ps|)
    && (!stalled ==> 0 < n && pos' == pos + n && (m.V_24? || m.V_8? || n == PixelsPer(m))
                     && words == PackGroup(m, ps[pos..pos'], alpha, stale))
  }

  lemma {:induction false} GroupedMeans(m: Mode, ps: seq<Narrow>, alpha: Byte, stale: seq<Narrow>, whole: Run<Wide>,
                                        out: seq<Wide>, pos: nat, stalled: bool, pos': nat, words: seq<Wide>)
    requires |stale| == 4 && pos <= |ps|
    requires Upto(whole, out, pos, false, Pack(m, ps[pos..], alpha, stale))
    requires Grouped(m, ps, pos, alpha, stale, stalled, pos', words)
    ensures stalled ==> whole == Run(out, |ps|, true)
    ensures !stalled ==> pos < pos' <= |ps|
    ensures !stalled ==> Upto(whole, out + words, pos', ps[pos' - 1].last, Pack(m, ps[pos'..], alpha, stale))
  {
    var n := GroupSize(m, ps[pos..], PixelsPer(m));
    PackOnce(m, ps, alpha, stale, whole, out, pos, n);
    if !stalled {
      assert pos' == pos + n && words == PackGroup(m, ps[pos..pos + n], alpha, stale);
    }
  }

  /** Registers and flags after some of at most four reads. */
  ghost predicate Gathered(m: Mode, ps: seq<Narrow>, from: nat, to: nat, last: bool, j: nat, stale: seq<Narrow>,
                           regs: seq<Narrow>, user: bool) {
    && |stale| == 4 && from <= to <= |ps| && j <= 4 && to - from <= j
    && (last ==> from < to) && (!last ==> to == from + j)
    && GroupSize(m, ps[from..], 4) == (to - from) + (if last then 0 else GroupSize(m, ps[to..], 4 - j))
    && regs == Registers(ps[from..to], stale) && user == AnyUser(ps[from..to])
  }

  lemma GatherOne(m: Mode, ps: seq<Narrow>, from: nat, to: nat, j: nat, stale: seq<Narrow>,
                  regs: seq<Narrow>, user: bool)
    requires (m.V_24? || m.V_8?) && Gathered(m, ps, from, to, false, j, stale, regs, user) && to < |ps| && j < 4
    ensures Gathered(m, ps, from, to + 1, ps[to].last, j + 1, stale, regs[j := ps[to]], user || ps[to].user)
  {
    assert ps[to..][1..] == ps[to + 1..];
    assert ps[from..to + 1] == ps[from..to] + [ps[to]];
    AnyUserMore(ps[from..to], ps[to]);
  }

  /** Four conditional reads into the registers. */
  method ReadFour(m: Mode, ps: seq<Narrow>, pos: nat, stale: seq<Narrow>)
    returns (stalled: bool, pos': nat, regs: seq<Narrow>, user: bool)
    requires (m.V_24? || m.V_8?) && pos <= |ps| && |stale| == 4
    ensures var n := GroupSize(m, ps[pos..], 4);
            && (stalled <==> pos + n > |ps|)
            && (!stalled ==> n > 0 && pos' == pos + n && regs == Registers(ps[pos..pos + n], stale)
                             && user == AnyUser(ps[pos..pos + n]))
  {
    var last := false;
    stalled, pos', regs, user := false, pos, stale, false;
    for j := 0 to 4
      invariant Gathered(m, ps, pos, pos', last, j, stale, regs, user)
    {
      if !last {
        if pos' == |ps| {
          return true, pos', regs, user;
        }
        GatherOne(m, ps, pos, pos', j, stale, regs, user);
        last, regs, user := ps[pos'].last, regs[j := ps[pos']], user || ps[pos'].user;
        pos' := pos' + 1;
      }
    }
  }

  lemma AnyUserMore(ps: seq<Narrow>, p: Narrow)
    ensures AnyUser(ps + [p]) <==> AnyUser(ps) || p.user
  {
    if AnyUser(ps) {
      var i :| 0 <= i < |ps| && ps[i].user;
      assert (ps + [p])[i].user;
    }
    if p.user {
      assert (ps + [p])[|ps|].user;
    }
  }

  /** The twelve bytes of the 96-bit buffer. */
  function Buffer(r: seq<Narrow>): (b: seq<Byte>)
    requires |r| == 4
    ensures |b| == 12
  {
    [r[0].b0, r[0].b1, r[0].b2, r[1].b0, r[1].b1, r[1].b2, r[2].b0, r[2].b1, r[2].b2, r[3].b0, r[3].b1, r[3].b2]
  }

  /** Three words out of the buffer, each with the user flag of its own index and the last flag of the next. */
  method WriteThree(regs: seq<Narrow>, ghost group: seq<Narrow>, ghost alpha: Byte, ghost stale: seq<Narrow>)
    returns (words: seq<Wide>)
    requires |stale| == 4 && 0 < |group| <= 4 && regs == Registers(group, stale)
    ensures words == PackGroup(V_24, group, alpha, stale)
  {
    var b := Buffer(regs);
    words := [];
    for i := 0 to 3
      invariant words == PackGroup(V_24, group, alpha, stale)[..i]
    {
      words := words + [Wide(b[4 * i], b[4 * i + 1], b[4 * i + 2], b[4 * i + 3], regs[i].user, regs[i + 1].last)];
    }
  }

  /** Reads and writes one group. */
  method Group24(ps: seq<Narrow>, pos: nat, ghost alpha: Byte, stale: seq<Narrow>)
    returns (stalled: bool, pos': nat, words: seq<Wide>)
    requires pos <= |ps| && |stale| == 4
    ensures Grouped(V_24, ps, pos, alpha, stale, stalled, pos', words)
  {
    var regs, user;
    stalled, pos', regs, user := ReadFour(V_24, ps, pos, stale);
    words := [];
    if !stalled {
      words := WriteThree(regs, ps[pos..pos'], alpha, stale);
    }
  }

  method Pack24(ps: seq<Narrow>, alpha: Byte, stale: seq<Narrow>) returns (r: Run<Wide>)
    requires |stale| == 4
    ensures r == Pack(V_24, ps, alpha, stale)
  {
    ghost var whole := Pack(V_24, ps, alpha, stale);
    var last, delayed := false, false;
    var out, pos := [], 0;
    assert ps[0..] == ps;
    while !delayed
      invariant pos <= |ps| && (delayed ==> last)
      invariant Upto(whole, out, pos, last, Pack(V_24, ps[pos..], alpha, stale))
      decreases |ps| - pos, !delayed
    {
      delayed := last;
      if !last {
        var stalled, pos', words := Group24(ps, pos, alpha, stale);
        GroupedMeans(V_24, ps, alpha, stale, whole, out, pos, stalled, pos', words);
        if stalled {
          return Run(out, |ps|, true);
        }
        last := ps[pos' - 1].last;
        out, pos := out + words, pos';
      }
    }
    r := Run(out, pos, false);
  }

  method WriteOne(regs: seq<Narrow>, user: bool, last: bool, ghost group: seq<Narrow>, ghost alpha: Byte,
                  ghost stale: seq<Narrow>)
    returns (words: seq<Wide>)
    requires |stale| == 4 && 0 < |group| <= 4 && regs == Registers(group, stale)
    requires user == AnyUser(group) && last == group[|group| - 1].last
    ensures words == PackGroup(V_8, group, alpha, stale)
  {
    words := [Wide(regs[0].b0, regs[1].b0, regs[2].b0, regs[3].b0, user, last)];
  }

  method Group8(ps: seq<Narrow>, pos: nat, ghost alpha: Byte, stale: seq<Narrow>)
    returns (stalled: bool, pos': nat, words: seq<Wide>)
    requires pos <= |ps| && |stale| == 4
    ensures Grouped(V_8, ps, pos, alpha, stale, stalled, pos', words)
  {
    var regs, user;
    stalled, pos', regs, user := ReadFour(V_8, ps, pos, stale);
    words := [];
    if !stalled {
      words := WriteOne(regs, user, ps[pos' - 1].last, ps[pos..pos'], alpha, stale);
    }
  }

  method Pack8(ps: seq<Narrow>, alpha: Byte, stale: seq<Narrow>) returns (r: Run<Wide>)
    requires |stale| == 4
    ensures r == Pack(V_8, ps, alpha, stale)
  {
    ghost var whole := Pack(V_8, ps, alpha, stale);
    var last, delayed := false, false;
    var out, pos := [], 0;
    assert ps[0..] == ps;
    while !delayed
      invariant pos <= |ps| && (delayed ==> last)
      invariant Upto(whole, out, pos, last, Pack(V_8, ps[pos..], alpha, stale))
      decreases |ps| - pos, !delayed
    {
      delayed := last;
      if !last {
        var stalled, pos', words := Group8(ps, pos, alpha, stale);
        GroupedMeans(V_8, ps, alpha, stale, whole, out, pos, stalled, pos', words);
        if stalled {
          return Run(out, |ps|, true);
        }
        last := ps[pos' - 1].last;
        out, pos := out + words, pos';
      }
    }
    r := Run(out, pos, false);
  }

  lemma OnePixel(ps: seq<Narrow>, pos: nat, alpha: Byte, stale: seq<Narrow>)
    requires pos < |ps| && |stale| == 4
    ensures var p := ps[pos];
            Grouped(V_32, ps, pos, alpha, stale, false, pos + 1, [Wide(p.b0, p.b1, p.b2, alpha, p.user, p.last)])
  {
    FixedSize(V_32, ps[pos..], 1);
    assert ps[pos..pos + 1] == [ps[pos]];
  }

  method Pack32(ps: seq<Narrow>, alpha: Byte, stale: seq<Narrow>) returns (r: Run<Wide>)
    requires |stale| == 4
    ensures r == Pack(V_32, ps, alpha, stale)
  {
    ghost var whole := Pack(V_32, ps, alpha, stale);
    var last, out, pos := false, [], 0;
    assert ps[0..] == ps;
    while !last
      invariant pos <= |ps|
      invariant Upto(whole, out, pos, last, Pack(V_32, ps[pos..], alpha, stale))
      decreases |ps| - pos, !last
    {
      if pos == |ps| {
        PackOnce(V_32, ps, alpha, stale, whole, out, pos, GroupSize(V_32, ps[pos..], 1));
        return Run(out, pos, true);
      }
      var p := ps[pos];
      var words := [Wide(p.b0, p.b1, p.b2, alpha, p.user, p.last)];
      OnePixel(ps, pos, alpha, stale);
      GroupedMeans(V_32, ps, alpha, stale, whole, out, pos, false, pos + 1, words);
      out, last, pos := out + words, p.last, pos + 1;
    }
    r := Run(out, pos, false);
  }

  /** Two unconditional reads; a last flag on the first of them goes unnoticed. */
  method ReadTwo(ps: seq<Narrow>, pos: nat) returns (stalled: bool, user: bool, last: bool)
    requires pos <= |ps|
    ensures stalled <==> pos + 2 > |ps|
    ensures !stalled ==> user == AnyUser(ps[pos..pos + 2]) && last == ps[pos + 1].last
  {
    stalled, user, last := false, false, false;
    for i := 0 to 2
      invariant pos + i <= |ps| && user == AnyUser(ps[pos..pos + i])
      invariant i > 0 ==> last == ps[pos + i - 1].last
    {
      if pos + i == |ps| {
        stalled := true;
        return;
      }
      assert ps[pos..pos + i + 1] == ps[pos..pos + i] + [ps[pos + i]];
      AnyUserMore(ps[pos..pos + i], ps[pos + i]);
      user, last := user || ps[pos + i].user, ps[pos + i].last;
    }
  }

  method Pack16(ps: seq<Narrow>, alpha: Byte, stale: seq<Narrow>) returns (r: Run<Wide>)
    requires |stale| == 4
    ensures r == Pack(V_16, ps, alpha, stale)
  {
    ghost var whole := Pack(V_16, ps, alpha, stale);
    var last, out, pos := false, [], 0;
    assert ps[0..] == ps;
    while !last
      invariant pos <= |ps|
      invariant Upto(whole, out, pos, last, Pack(V_16, ps[pos..], alpha, stale))
      decreases |ps| - pos, !last
    {
      PackOnce(V_16, ps, alpha, stale, whole, out, pos, GroupSize(V_16, ps[pos..], 2));
      var stalled, user, flag := ReadTwo(ps, pos);
      if stalled {
        return Run(out, |ps|, true);
      }
      var p, q := ps[pos], ps[pos + 1];
      last := flag;
      out, pos := out + [Wide(p.b0, p.b1, q.b0, q.b1, user, last)], pos + 2;
    }
    r := Run(out, pos, false);
  }

  /** One word of two pixels: the first bytes of both, the means of the others from nine-bit sums. */
  method WriteMeans(p: Narrow, q: Narrow, user: bool, last: bool, ghost group: seq<Narrow>, ghost alpha: Byte,
                    ghost stale: seq<Narrow>)
    returns (words: seq<Wide>)
    requires |stale| == 4 && group == [p, q] && user == AnyUser(group) && last == q.last
    ensures words == PackGroup(V_16C, group, alpha, stale)
  {
    var c1, c2 := p.b1 as int + q.b1 as int, p.b2 as int + q.b2 as int;
    words := [Wide(p.b0, (c1 / 2) as Byte, q.b0, (c2 / 2) as Byte, user, last)];
  }

  method Pack16C(ps: seq<Narrow>, alpha: Byte, stale: seq<Narrow>) returns (r: Run<Wide>)
    requires |stale| == 4
    ensures r == Pack(V_16C, ps, alpha, stale)
  {
    ghost var whole := Pack(V_16C, ps, alpha, stale);
    var last, out, pos := false, [], 0;
    assert ps[0..] == ps;
    while !last
      invariant pos <= |ps|
      invariant Upto(whole, out, pos, last, Pack(V_16C, ps[pos..], alpha, stale))
      decreases |ps| - pos, !last
    {
      PackOnce(V_16C, ps, alpha, stale, whole, out, pos, GroupSize(V_16C, ps[pos..], 2));
      var stalled, user, flag := ReadTwo(ps, pos);
      if stalled {
        return Run(out, |ps|, true);
      }
      var words := WriteMeans(ps[pos], ps[pos + 1], user, flag, ps[pos..pos + 2], alpha, stale);
      out, pos, last := out + words, pos + 2, flag;
    }
    r := Run(out, pos, false);
  }

  /** `pixel_pack`: one line in the mode its register selects. */
  method PixelPack(m: Mode, ps: seq<Narrow>, alpha: Byte, stale: seq<Narrow>) returns (r: Run<Wide>)
    requires |stale| == 4
    ensures r == Pack(m, ps, alpha, stale)
  {
    match m {
      case V_24 => r := Pack24(ps, alpha, stale);
      case V_32 => r := Pack32(ps, alpha, stale);
      case V_8 => r := Pack8(ps, alpha, stale);
      case V_16 => r := Pack16(ps, alpha, stale);
      case V_16C => r := Pack16C(ps, alpha, stale);
    }
  }

  // ----------------------------------------------------------------- unpack

  lemma {:induction false} UnpackOnce(m: Mode, ws: seq<Wide>, whole: Run<Narrow>, out: seq<Narrow>, pos: nat)
    requires pos <= |ws| && Upto(whole, out, pos, false, Unpack(m, ws[pos..]))
    ensures var n := WordsPer(m);
            && (pos + n > |ws| ==> whole == Run(out, |ws|, true))
            && (pos + n <= |ws| ==>
                var g := UnpackGroup(m, ws[pos..pos + n]);
                Upto(whole, out + g, pos + n, AnyWideLast(ws[pos..pos + n]), Unpack(m, ws[pos + n..])))
  {
    var n := WordsPer(m);
    if pos + n > |ws| {
      assert out + [] == out;
    } else {
      assert ws[pos..][..n] == ws[pos..pos + n] && ws[pos..][n..] == ws[pos + n..];
      PrependTwice(out, pos, UnpackGroup(m, ws[pos..pos + n]), n, Unpack(m, ws[pos + n..]));
    }
  }

  /** The twelve bytes of three words. */
  function WordBytes(ws: seq<Wide>): (b: seq<Byte>)
    ensures |b| == 4 * |ws|
  {
    if ws == [] then []
    else
      var w := ws[|ws| - 1];
      WordBytes(ws[..|ws| - 1]) + [w.b0, w.b1, w.b2, w.b3]
  }

  /** Buffer and flags after the words from..to-1. */
  ghost predicate Collected(ws: seq<Wide>, from: nat, to: nat, bytes: seq<Byte>, user: bool, last: bool) {
    && from <= to <= |ws| && bytes == WordBytes(ws[from..to])
    && user == AnyWideUser(ws[from..to]) && last == AnyWideLast(ws[from..to])
  }

  lemma CollectOne(ws: seq<Wide>, from: nat, to: nat, bytes: seq<Byte>, user: bool, last: bool)
    requires Collected(ws, from, to, bytes, user, last) && to < |ws|
    ensures var w := ws[to];
            Collected(ws, from, to + 1, bytes + [w.b0, w.b1, w.b2, w.b3], user || w.user, last || w.last)
  {
    assert ws[from..to + 1] == ws[from..to] + [ws[to]];
    WordMore(ws[from..to], ws[to]);
  }

  /** Three reads into the 96-bit buffer, whatever their last flags say. */
  method ReadThree(ws: seq<Wide>, pos: nat) returns (stalled: bool, bytes: seq<Byte>, user: bool, last: bool)
    requires pos <= |ws|
    ensures stalled <==> pos + 3 > |ws|
    ensures !stalled ==> Collected(ws, pos, pos + 3, bytes, user, last)
  {
    stalled, bytes, user, last := false, [], false, false;
    for j := 0 to 3
      invariant Collected(ws, pos, pos + j, bytes, user, last)
    {
      if pos + j == |ws| {
        stalled := true;
        return;
      }
      var w := ws[pos + j];
      CollectOne(ws, pos, pos + j, bytes, user, last);
      bytes, user, last := bytes + [w.b0, w.b1, w.b2, w.b3], user || w.user, last || w.last;
    }
  }

  lemma {:induction false} WordMore(ws: seq<Wide>, w: Wide)
    ensures AnyWideUser(ws + [w]) <==> AnyWideUser(ws) || w.user
    ensures AnyWideLast(ws + [w]) <==> AnyWideLast(ws) || w.last
    ensures WordBytes(ws + [w]) == WordBytes(ws) + [w.b0, w.b1, w.b2, w.b3]
  {
    var all := ws + [w];
    assert all[..|ws|] == ws && all[|ws|] == w;
    assert forall i :: 0 <= i < |ws| ==> all[i] == ws[i];
  }

  /** The pixels a full buffer holds. */
  function FourPixels(b: seq<Byte>, user: bool, last: bool): seq<Narrow>
    requires |b| == 12
  {
    [Narrow(b[0], b[1], b[2], user, false), Narrow(b[3], b[4], b[5], false, false),
     Narrow(b[6], b[7], b[8], false, false), Narrow(b[9], b[10], b[11], false, last)]
  }

  lemma FourFromThree(ws: seq<Wide>, pos: nat, b: seq<Byte>, user: bool, last: bool)
    requires pos + 3 <= |ws| && Collected(ws, pos, pos + 3, b, user, last)
    ensures |b| == 12 && FourPixels(b, user, last) == UnpackGroup(V_24, ws[pos..pos + 3])
  {
    assert ws[pos..pos + 3] == [ws[pos], ws[pos + 1], ws[pos + 2]];
    BytesOfThree(ws[pos], ws[pos + 1], ws[pos + 2]);
  }

  /** Four pixels out of the buffer; the flags go to the first and the last of them. */
  method WriteFour(b: seq<Byte>, user: bool, last: bool) returns (pixels: seq<Narrow>)
    requires |b| == 12
    ensures pixels == FourPixels(b, user, last)
  {
    pixels := [];
    for i := 0 to 4
      invariant pixels == FourPixels(b, user, last)[..i]
    {
      pixels := pixels + [Narrow(b[3 * i], b[3 * i + 1], b[3 * i + 2], i == 0 && user, i == 3 && last)];
    }
  }

  lemma BytesOfThree(a: Wide, b: Wide, c: Wide)
    ensures WordBytes([a, b, c]) == [a.b0, a.b1, a.b2, a.b3, b.b0, b.b1, b.b2, b.b3, c.b0, c.b1, c.b2, c.b3]
  {
    WordMore([], a);
    WordMore([a], b);
    WordMore([a, b], c);
    assert [] + [a] == [a] && [a] + [b] == [a, b] && [a, b] + [c] == [a, b, c];
  }

  /** Reads three words and writes their four pixels. */
  method GroupOfThree(ws: seq<Wide>, pos: nat) returns (stalled: bool, pixels: seq<Narrow>, last: bool)
    requires pos <= |ws|
    ensures stalled <==> pos + 3 > |ws|
    ensures !stalled ==> pixels == UnpackGroup(V_24, ws[pos..pos + 3]) && last == AnyWideLast(ws[pos..pos + 3])
  {
    var bytes, user;
    stalled, bytes, user, last := ReadThree(ws, pos);
    pixels := [];
    if !stalled {
      FourFromThree(ws, pos, bytes, user, last);
      pixels := WriteFour(bytes, user, last);
    }
  }

  method Unpack24(ws: seq<Wide>) returns (r: Run<Narrow>)
    ensures r == Unpack(V_24, ws)
  {
    ghost var whole := Unpack(V_24, ws);
    var last, out, pos := false, [], 0;
    assert ws[0..] == ws;
    while !last
      invariant pos <= |ws| && Upto(whole, out, pos, last, Unpack(V_24, ws[pos..]))
      decreases |ws| - pos, !last
    {
      UnpackOnce(V_24, ws, whole, out, pos);
      var stalled, pixels, flag := GroupOfThree(ws, pos);
      if stalled {
        return Run(out, |ws|, true);
      }
      out, pos, last := out + pixels, pos + 3, flag;
    }
    r := Run(out, pos, false);
  }

  /** The modes that read one word at a time. */
  method UnpackWords(m: Mode, ws: seq<Wide>) returns (r: Run<Narrow>)
    requires !m.V_24?
    ensures r == Unpack(m, ws)
  {
    ghost var whole := Unpack(m, ws);
    var last, out, pos := false, [], 0;
    assert ws[0..] == ws;
    while !last
      invariant pos <= |ws| && Upto(whole, out, pos, last, Unpack(m, ws[pos..]))
      decreases |ws| - pos, !last
    {
      UnpackOnce(m, ws, whole, out, pos);
      if pos == |ws| {
        return Run(out, pos, true);
      }
      assert ws[pos..pos + 1] == [ws[pos]];
      var pixels := WritePixels(m, ws[pos]);
      out, pos, last := out + pixels, pos + 1, ws[pos].last;
    }
    r := Run(out, pos, false);
  }

  /** The pixels of one word, in the loop of its mode. */
  method WritePixels(m: Mode, w: Wide) returns (pixels: seq<Narrow>)
    requires !m.V_24?
    ensures pixels == UnpackGroup(m, [w])
    ensures w.last == AnyWideLast([w])
  {
    assert [w][0] == w;
    match m {
      case V_32 => pixels := [Narrow(w.b0, w.b1, w.b2, w.user, w.last)];
      case V_8 => pixels := FourShades(w);
      case V_16 => pixels := TwoPairs(w);
      case V_16C => pixels := TwoShared(w);
    }
  }

  method FourShades(w: Wide) returns (pixels: seq<Narrow>)
    ensures pixels == [Narrow(w.b0, 0, 0, w.user, false), Narrow(w.b1, 0, 0, false, false),
                       Narrow(w.b2, 0, 0, false, false), Narrow(w.b3, 0, 0, false, w.last)]
  {
    var b := [w.b0, w.b1, w.b2, w.b3];
    pixels := [];
    for i := 0 to 4
      invariant |pixels| == i
      invariant forall j :: 0 <= j < i ==> pixels[j] == Narrow(b[j], 0, 0, j == 0 && w.user, j == 3 && w.last)
    {
      pixels := pixels + [Narrow(b[i], 0, 0, i == 0 && w.user, i == 3 && w.last)];
    }
  }

  method TwoPairs(w: Wide) returns (pixels: seq<Narrow>)
    ensures pixels == [Narrow(w.b0, w.b1, 0, w.user, false), Narrow(w.b2, w.b3, 0, false, w.last)]
  {
    var b := [w.b0, w.b1, w.b2, w.b3];
    pixels := [];
    for i := 0 to 2
      invariant |pixels| == i
      invariant i > 0 ==> pixels[0] == Narrow(w.b0, w.b1, 0, w.user, false)
      invariant i > 1 ==> pixels[1] == Narrow(w.b2, w.b3, 0, false, w.last)
    {
      pixels := pixels + [Narrow(b[2 * i], b[2 * i + 1], 0, i == 0 && w.user, i == 1 && w.last)];
    }
  }

  method TwoShared(w: Wide) returns (pixels: seq<Narrow>)
    ensures pixels == [Narrow(w.b0, w.b1, w.b3, w.user, false), Narrow(w.b2, w.b1, w.b3, false, w.last)]
  {
    var b := [w.b0, w.b1, w.b2, w.b3];
    pixels := [];
    for i := 0 to 2
      invariant |pixels| == i
      invariant i > 0 ==> pixels[0] == Narrow(w.b0, w.b1, w.b3, w.user, false)
      invariant i > 1 ==> pixels[1] == Narrow(w.b2, w.b1, w.b3, false, w.last)
    {
      pixels := pixels + [Narrow(b[2 * i], w.b1, w.b3, i == 0 && w.user, i == 1 && w.last)];
    }
  }

  /** `pixel_unpack`: one line in the mode its register selects. */
  method PixelUnpack(m: Mode, ws: seq<Wide>) returns (r: Run<Narrow>)
    ensures r == Unpack(m, ws)
  {
    if m.V_24? {
      r := Unpack24(ws);
    } else {
      r := UnpackWords(m, ws);
    }
  }
}
