/**
 Packing and unpacking undo each other on whole lines, as far as each mode
 keeps the information at all.
 */
module PixelRoundTrip {
  import opened PixelFormats
  import opened Scatter

  // ------------------------------------------------------------- one group

  /** At most the final element carries the last flag. */
  ghost predicate PixelsClosed(g: seq<Narrow>) { forall i :: 0 <= i < |g| - 1 ==> !g[i].last }

  ghost predicate WordsClosed(g: seq<Wide>) { forall i :: 0 <= i < |g| - 1 ==> !g[i].last }

  lemma {:induction false} FullGroup(m: Mode, ps: seq<Narrow>, room: nat)
    requires room <= |ps| && forall i :: 0 <= i < room - 1 ==> !ps[i].last
    ensures GroupSize(m, ps, room) == room
  {
    if room > 1 {
      FullGroup(m, ps[1..], room - 1);
    } else if room == 1 {
      assert GroupSize(m, ps[1..], 0) == 0;
    }
  }

  lemma Halves<T>(g: seq<T>, more: seq<T>)
    ensures (g + more)[..|g|] == g && (g + more)[|g|..] == more
  {
  }

  /** The group that ends a line. */
  lemma {:induction false} PackEnds(m: Mode, g: seq<Narrow>, more: seq<Narrow>, alpha: Byte, stale: seq<Narrow>)
    requires |stale| == 4 && |g| == PixelsPer(m) && PixelsClosed(g) && g[|g| - 1].last
    ensures Pack(m, g + more, alpha, stale) == Run(PackGroup(m, g, alpha, stale), |g|, false)
  {
    FullGroup(m, g + more, PixelsPer(m));
    Halves(g, more);
  }

  /** A group before the end of a line. */
  lemma {:induction false} PackGoesOn(m: Mode, g: seq<Narrow>, line: seq<Narrow>, more: seq<Narrow>, alpha: Byte,
                                      stale: seq<Narrow>, out: seq<Wide>)
    requires |stale| == 4 && |g| == PixelsPer(m) && PixelsClosed(g) && !g[|g| - 1].last
    requires Pack(m, line + more, alpha, stale) == Run(out, |line|, false)
    ensures Pack(m, g + line + more, alpha, stale) == Run(PackGroup(m, g, alpha, stale) + out, |g + line|, false)
  {
    FullGroup(m, g + (line + more), PixelsPer(m));
    Halves(g, line + more);
    Assoc(g, line, more);
  }

  lemma {:induction false} UnpackEnds(m: Mode, g: seq<Wide>, more: seq<Wide>)
    requires |g| == WordsPer(m) && AnyWideLast(g)
    ensures Unpack(m, g + more) == Run(UnpackGroup(m, g), |g|, false)
  {
    Halves(g, more);
  }

  lemma {:induction false} UnpackGoesOn(m: Mode, g: seq<Wide>, line: seq<Wide>, more: seq<Wide>, out: seq<Narrow>)
    requires |g| == WordsPer(m) && !AnyWideLast(g)
    requires Unpack(m, line + more) == Run(out, |line|, false)
    ensures Unpack(m, g + line + more) == Run(UnpackGroup(m, g) + out, |g + line|, false)
  {
    Halves(g, line + more);
    Assoc(g, line, more);
  }

  function RestoredAll(m: Mode, ws: seq<Wide>, alpha: Byte): seq<Wide>
    requires |ws| % WordsPer(m) == 0
  {
    seq(|ws|, i requires 0 <= i < |ws| => Restored(m, ws, alpha, i))
  }

  function KeptAll(m: Mode, ps: seq<Narrow>): seq<Narrow>
    requires |ps| % PixelsPer(m) == 0
  {
    seq(|ps|, i requires 0 <= i < |ps| => Kept(m, ps, i))
  }

  lemma AnyWideUserOf(ws: seq<Wide>)
    ensures |ws| == 1 ==> (AnyWideUser(ws) <==> ws[0].user) && (AnyWideLast(ws) <==> ws[0].last)
    ensures |ws| == 3 ==> (AnyWideUser(ws) <==> ws[0].user || ws[1].user || ws[2].user)
    ensures |ws| == 3 ==> (AnyWideLast(ws) <==> ws[0].last || ws[1].last || ws[2].last)
  {
  }

  lemma AnyUserOf(ps: seq<Narrow>)
    ensures |ps| == 2 ==> (AnyUser(ps) <==> ps[0].user || ps[1].user)
    ensures |ps| == 4 ==> (AnyUser(ps) <==> ps[0].user || ps[1].user || ps[2].user || ps[3].user)
  {
  }

  lemma GroupRestored(m: Mode, w: seq<Wide>, alpha: Byte, stale: seq<Narrow>)
    requires |stale| == 4 && |w| == WordsPer(m) && WordsClosed(w)
    ensures PackGroup(m, UnpackGroup(m, w), alpha, stale) == RestoredAll(m, w, alpha)
  {
    var g := UnpackGroup(m, w);
    AnyWideUserOf(w);
    AnyUserOf(g);
    if m.V_24? || m.V_8? {
      assert Registers(g, stale) == g;
    }
  }

  lemma GroupKept(m: Mode, g: seq<Narrow>, alpha: Byte, stale: seq<Narrow>)
    requires |stale| == 4 && |g| == PixelsPer(m) && PixelsClosed(g)
    ensures |PackGroup(m, g, alpha, stale)| == WordsPer(m)
    ensures UnpackGroup(m, PackGroup(m, g, alpha, stale)) == KeptAll(m, g)
  {
    var w := PackGroup(m, g, alpha, stale);
    AnyWideUserOf(w);
    AnyUserOf(g);
    if m.V_24? || m.V_8? {
      assert Registers(g, stale) == g;
    }
  }

  // ------------------------------------------------------------ whole lines

  lemma WordLineSplit(m: Mode, ws: seq<Wide>, alpha: Byte)
    requires WordLine(m, ws)
    ensures var n := WordsPer(m);
            && n <= |ws| && WordsClosed(ws[..n]) && (AnyWideLast(ws[..n]) <==> |ws| == n)
            && |ws[n..]| % n == 0
            && RestoredAll(m, ws, alpha) == RestoredAll(m, ws[..n], alpha) + RestoredAll(m, ws[n..], alpha)
            && (|ws| > n ==> WordLine(m, ws[n..]))
  {
    var n := WordsPer(m);
    var head, tail := ws[..n], ws[n..];
    if |ws| == n {
      assert head[n - 1].last;
    }
    forall i | 0 <= i < |ws|
      ensures Restored(m, ws, alpha, i) ==
              if i < n then Restored(m, head, alpha, i) else Restored(m, tail, alpha, i - n)
    {
    }
  }

  lemma KeptSplitByFour(m: Mode, ps: seq<Narrow>, i: nat)
    requires (m.V_24? || m.V_8?) && i < |ps| && |ps| % 4 == 0
    ensures Kept(m, ps, i) == if i < 4 then Kept(m, ps[..4], i) else Kept(m, ps[4..], i - 4)
  {
    if i >= 4 {
      assert (i - 4) % 4 == i % 4;
    }
  }

  lemma KeptSplitByTwo(m: Mode, ps: seq<Narrow>, i: nat)
    requires (m.V_16? || m.V_16C?) && i < |ps| && |ps| % 2 == 0
    ensures Kept(m, ps, i) == if i < 2 then Kept(m, ps[..2], i) else Kept(m, ps[2..], i - 2)
  {
    if i >= 2 {
      assert (i - 2) % 2 == i % 2;
    }
  }

  lemma WholeGroups(m: Mode, n: nat)
    requires 0 < n && n % PixelsPer(m) == 0
    ensures PixelsPer(m) <= n && (n - PixelsPer(m)) % PixelsPer(m) == 0
  {
    match m {
      case V_24 | V_8 => assert n % 4 == 0;
      case V_16 | V_16C => assert n % 2 == 0;
      case V_32 =>
    }
  }

  lemma KeptSplit(m: Mode, ps: seq<Narrow>, i: nat)
    requires i < |ps| && |ps| % PixelsPer(m) == 0
    ensures var n := PixelsPer(m);
            && n <= |ps| && |ps[n..]| % n == 0
            && Kept(m, ps, i) == if i < n then Kept(m, ps[..n], i) else Kept(m, ps[n..], i - n)
  {
    WholeGroups(m, |ps|);
    match m {
      case V_24 => KeptSplitByFour(V_24, ps, i);
      case V_8 => KeptSplitByFour(V_8, ps, i);
      case V_16 => KeptSplitByTwo(V_16, ps, i);
      case V_16C => KeptSplitByTwo(V_16C, ps, i);
      case V_32 =>
    }
  }

  lemma KeptJoins(m: Mode, ps: seq<Narrow>)
    requires 0 < |ps| && |ps| % PixelsPer(m) == 0
    ensures var n := PixelsPer(m);
            && n <= |ps| && |ps[n..]| % n == 0 && |ps[..n]| % n == 0
            && KeptAll(m, ps) == KeptAll(m, ps[..n]) + KeptAll(m, ps[n..])
  {
    var n := PixelsPer(m);
    WholeGroups(m, |ps|);
    var all, joined := KeptAll(m, ps), KeptAll(m, ps[..n]) + KeptAll(m, ps[n..]);
    forall i | 0 <= i < |ps|
      ensures all[i] == joined[i]
    {
      KeptSplit(m, ps, i);
    }
  }

  lemma PixelLineSplit(m: Mode, ps: seq<Narrow>)
    requires PixelLine(m, ps)
    ensures var n := PixelsPer(m);
            && n <= |ps| && PixelsClosed(ps[..n]) && (ps[n - 1].last <==> |ps| == n)
            && |ps[n..]| % n == 0
            && KeptAll(m, ps) == KeptAll(m, ps[..n]) + KeptAll(m, ps[n..])
            && (|ps| > n ==> PixelLine(m, ps[n..]))
  {
    KeptJoins(m, ps);
  }

  /**
   Unpacking a line and packing the pixels again, whatever follows either
   stream: both calls read exactly their line, and each word comes back as
   `Restored` says.
   */
  lemma {:induction false} PackUndoesUnpack(m: Mode, ws: seq<Wide>, rest: seq<Wide>, more: seq<Narrow>, alpha: Byte,
                                            stale: seq<Narrow>) returns (ps: seq<Narrow>)
    requires WordLine(m, ws) && |stale| == 4
    ensures Unpack(m, ws + rest) == Run(ps, |ws|, false)
    ensures Pack(m, ps + more, alpha, stale) == Run(RestoredAll(m, ws, alpha), |ps|, false)
    decreases |ws|
  {
    var n := WordsPer(m);
    var head, tail := ws[..n], ws[n..];
    var g := UnpackGroup(m, head);
    WordLineSplit(m, ws, alpha);
    GroupRestored(m, head, alpha, stale);
    GroupClosed(m, head);
    assert ws == head + tail;
    if |ws| == n {
      ps := g;
      assert ws == head;
      UnpackEnds(m, head, rest);
      PackEnds(m, g, more, alpha, stale);
    } else {
      var below := PackUndoesUnpack(m, tail, rest, more, alpha, stale);
      ps := g + below;
      UnpackGoesOn(m, head, tail, rest, below);
      PackGoesOn(m, g, below, more, alpha, stale, RestoredAll(m, tail, alpha));
    }
  }

  lemma GroupClosed(m: Mode, w: seq<Wide>)
    requires |w| == WordsPer(m)
    ensures var g := UnpackGroup(m, w); PixelsClosed(g) && (g[|g| - 1].last <==> AnyWideLast(w))
  {
  }

  /** The other way round: each pixel comes back as `Kept` says. */
  lemma {:induction false} UnpackUndoesPack(m: Mode, ps: seq<Narrow>, rest: seq<Narrow>, more: seq<Wide>, alpha: Byte,
                                            stale: seq<Narrow>) returns (ws: seq<Wide>)
    requires PixelLine(m, ps) && |stale| == 4
    ensures Pack(m, ps + rest, alpha, stale) == Run(ws, |ps|, false)
    ensures Unpack(m, ws + more) == Run(KeptAll(m, ps), |ws|, false)
    decreases |ps|
  {
    var n := PixelsPer(m);
    var head, tail := ps[..n], ps[n..];
    var g := PackGroup(m, head, alpha, stale);
    PixelLineSplit(m, ps);
    GroupKept(m, head, alpha, stale);
    PackedLast(m, head, alpha, stale);
    assert ps == head + tail;
    if |ps| == n {
      ws := g;
      assert ps == head;
      PackEnds(m, head, rest, alpha, stale);
      UnpackEnds(m, g, more);
    } else {
      var below := UnpackUndoesPack(m, tail, rest, more, alpha, stale);
      ws := g + below;
      PackGoesOn(m, head, tail, rest, alpha, stale, below);
      UnpackGoesOn(m, g, below, more, KeptAll(m, tail));
    }
  }

  lemma PackedLast(m: Mode, g: seq<Narrow>, alpha: Byte, stale: seq<Narrow>)
    requires |stale| == 4 && |g| == PixelsPer(m) && PixelsClosed(g)
    ensures AnyWideLast(PackGroup(m, g, alpha, stale)) <==> g[|g| - 1].last
  {
    var w := PackGroup(m, g, alpha, stale);
    AnyWideUserOf(w);
    if m.V_24? || m.V_8? {
      assert Registers(g, stale) == g;
    }
  }

  // ------------------------------------------------------- the byte layout

  function PixelByte(p: Narrow, k: nat): Byte
    requires k < 3
  {
    if k == 0 then p.b0 else if k == 1 then p.b1 else p.b2
  }

  function WordByte(w: Wide, k: nat): Byte
    requires k < 4
  {
    if k == 0 then w.b0 else if k == 1 then w.b1 else if k == 2 then w.b2 else w.b3
  }

  /** The mean of the same byte of two pixels, rounded down. */
  function Average(p: Narrow, q: Narrow, k: nat): Byte
    requires k < 3
  {
    ((PixelByte(p, k) as int + PixelByte(q, k) as int) / 2) as Byte
  }

  /** The words of a line of n pixels. */
  function LineWords(m: Mode, n: nat): nat { n / PixelsPer(m) * WordsPer(m) }

  /** Where byte k of word i of a packed line comes from. */
  function Source(m: Mode, ps: seq<Narrow>, alpha: Byte, i: nat, k: nat): Byte
    requires k < 4 && |ps| % PixelsPer(m) == 0 && i < LineWords(m, |ps|)
  {
    match m
    case V_24 => PixelByte(ps[(4 * i + k) / 3], (4 * i + k) % 3)
    case V_32 => if k == 3 then alpha else PixelByte(ps[i], k)
    case V_8 => ps[4 * i + k].b0
    case V_16 => PixelByte(ps[2 * i + k / 2], k % 2)
    case V_16C => if k % 2 == 0 then ps[2 * i + k / 2].b0 else Average(ps[2 * i], ps[2 * i + 1], (k + 1) / 2)
  }

  /** Which pixels' user flags word i of a packed line carries. */
  predicate UserSource(m: Mode, ps: seq<Narrow>, i: nat)
    requires |ps| % PixelsPer(m) == 0 && i < LineWords(m, |ps|)
  {
    match m
    case V_24 => ps[4 * (i / 3) + i % 3].user
    case V_32 => ps[i].user
    case V_8 => ps[4 * i].user || ps[4 * i + 1].user || ps[4 * i + 2].user || ps[4 * i + 3].user
    case _ => ps[2 * i].user || ps[2 * i + 1].user
  }

  /** The words a line of whole groups should become. */
  ghost predicate LaidOut(m: Mode, ps: seq<Narrow>, alpha: Byte, ws: seq<Wide>)
    requires |ps| % PixelsPer(m) == 0
  {
    && |ws| == LineWords(m, |ps|)
    && (forall i, k :: 0 <= i < |ws| && 0 <= k < 4 ==> WordByte(ws[i], k) == Source(m, ps, alpha, i, k))
    && (forall i :: 0 <= i < |ws| ==> (ws[i].user <==> UserSource(m, ps, i)))
  }

  lemma GroupLaidOut(m: Mode, g: seq<Narrow>, alpha: Byte, stale: seq<Narrow>)
    requires |stale| == 4 && |g| == PixelsPer(m)
    ensures LaidOut(m, g, alpha, PackGroup(m, g, alpha, stale))
  {
    var w := PackGroup(m, g, alpha, stale);
    AnyUserOf(g);
    if m.V_24? || m.V_8? {
      assert Registers(g, stale) == g;
    }
    forall i, k | 0 <= i < |w| && 0 <= k < 4
      ensures WordByte(w[i], k) == Source(m, g, alpha, i, k)
    {
      assert k == 0 || k == 1 || k == 2 || k == 3;
    }
  }

  /** Byte positions three words further on. */
  lemma Thirds(i: nat, k: nat)
    requires 3 <= i
    ensures (4 * i + k) / 3 == 4 + (4 * (i - 3) + k) / 3 && (4 * i + k) % 3 == (4 * (i - 3) + k) % 3
    ensures i / 3 == 1 + (i - 3) / 3 && i % 3 == (i - 3) % 3
  {
  }

  /** Behind the first group the layout is that of the rest of the line. */
  lemma SourceShift(m: Mode, ps: seq<Narrow>, alpha: Byte, i: nat, k: nat)
    requires PixelsPer(m) <= |ps| && |ps| % PixelsPer(m) == 0 && |ps[PixelsPer(m)..]| % PixelsPer(m) == 0
    requires k < 4 && WordsPer(m) <= i < LineWords(m, |ps|)
    requires LineWords(m, |ps[PixelsPer(m)..]|) == LineWords(m, |ps|) - WordsPer(m)
    ensures var tail := ps[PixelsPer(m)..];
            && Source(m, ps, alpha, i, k) == Source(m, tail, alpha, i - WordsPer(m), k)
            && UserSource(m, ps, i) == UserSource(m, tail, i - WordsPer(m))
  {
    match m
    case V_24 =>
      Thirds(i, k);
      var x := (4 * (i - 3) + k) / 3;
      assert ps[4..][x] == ps[4 + x];
    case V_32 => assert ps[1..][i - 1] == ps[i];
    case V_8 =>
      assert ps[4..][4 * (i - 1) + k] == ps[4 * i + k];
      assert ps[4..][4 * (i - 1)] == ps[4 * i] && ps[4..][4 * (i - 1) + 1] == ps[4 * i + 1];
      assert ps[4..][4 * (i - 1) + 2] == ps[4 * i + 2] && ps[4..][4 * (i - 1) + 3] == ps[4 * i + 3];
    case V_16 => PairShift(ps, i, k);
    case V_16C => PairShift(ps, i, k);
  }

  lemma PairShift(ps: seq<Narrow>, i: nat, k: nat)
    requires 1 <= i && 2 * i + 1 < |ps| && k < 4
    ensures ps[2..][2 * (i - 1)] == ps[2 * i] && ps[2..][2 * (i - 1) + 1] == ps[2 * i + 1]
    ensures ps[2..][2 * (i - 1) + k / 2] == ps[2 * i + k / 2]
  {
    assert k / 2 == 0 || k / 2 == 1;
  }

  lemma GroupLast(m: Mode, g: seq<Narrow>, alpha: Byte, stale: seq<Narrow>)
    requires |stale| == 4 && |g| == PixelsPer(m) && PixelsClosed(g)
    ensures var w := PackGroup(m, g, alpha, stale);
            forall i :: 0 <= i < |w| ==> (w[i].last <==> i == |w| - 1 && g[|g| - 1].last)
  {
    if m.V_24? || m.V_8? {
      assert Registers(g, stale) == g;
    }
  }

  /** The layout of a first group and of the rest make that of the line. */
  lemma LayoutJoins(m: Mode, ps: seq<Narrow>, alpha: Byte, first: seq<Wide>, more: seq<Wide>)
    requires |ps| % PixelsPer(m) == 0 && PixelsPer(m) <= |ps| && |ps[PixelsPer(m)..]| % PixelsPer(m) == 0
    requires LaidOut(m, ps[..PixelsPer(m)], alpha, first) && LaidOut(m, ps[PixelsPer(m)..], alpha, more)
    ensures LaidOut(m, ps, alpha, first + more)
  {
    var n, w := PixelsPer(m), WordsPer(m);
    var ws := first + more;
    WordCounts(m, |ps|);
    forall i | 0 <= i < |ws|
      ensures ws[i].user <==> UserSource(m, ps, i)
      ensures forall k :: 0 <= k < 4 ==> WordByte(ws[i], k) == Source(m, ps, alpha, i, k)
    {
      forall k | 0 <= k < 4
        ensures WordByte(ws[i], k) == Source(m, ps, alpha, i, k)
        ensures ws[i].user <==> UserSource(m, ps, i)
      {
        if i >= w {
          SourceShift(m, ps, alpha, i, k);
          assert ws[i] == more[i - w];
        } else {
          SourceFirst(m, ps, alpha, i, k);
          assert ws[i] == first[i];
        }
      }
      assert 0 <= 0 < 4;
    }
  }

  lemma WordCounts(m: Mode, n: nat)
    requires PixelsPer(m) <= n && n % PixelsPer(m) == 0
    ensures LineWords(m, n) == WordsPer(m) + LineWords(m, n - PixelsPer(m))
    ensures LineWords(m, PixelsPer(m)) == WordsPer(m)
  {
  }

  lemma SourceFirst(m: Mode, ps: seq<Narrow>, alpha: Byte, i: nat, k: nat)
    requires |ps| % PixelsPer(m) == 0 && PixelsPer(m) <= |ps| && k < 4 && i < WordsPer(m)
    ensures i < LineWords(m, |ps|) && i < LineWords(m, PixelsPer(m))
    ensures Source(m, ps, alpha, i, k) == Source(m, ps[..PixelsPer(m)], alpha, i, k)
    ensures UserSource(m, ps, i) == UserSource(m, ps[..PixelsPer(m)], i)
  {
    WordCounts(m, |ps|);
  }

  /**
   The words of a packed line, byte by byte: in `V_24` the line's bytes run on
   across the words, `V_32` adds the alpha byte, the others keep the bytes their
   pixel format has, and where two pixels share a byte it is their mean, rounded
   down. Each word carries the user flags of its own pixels, and only the last
   word the last flag.
   */
  lemma {:induction false} PackLayout(m: Mode, ps: seq<Narrow>, rest: seq<Narrow>, alpha: Byte, stale: seq<Narrow>)
    returns (ws: seq<Wide>)
    requires PixelLine(m, ps) && |stale| == 4
    ensures Pack(m, ps + rest, alpha, stale) == Run(ws, |ps|, false)
    ensures LaidOut(m, ps, alpha, ws) && forall i :: 0 <= i < |ws| ==> (ws[i].last <==> i == |ws| - 1)
    decreases |ps|
  {
    var n := PixelsPer(m);
    var head, tail := ps[..n], ps[n..];
    ws := PackGroup(m, head, alpha, stale);
    PixelLineSplit(m, ps);
    GroupLaidOut(m, head, alpha, stale);
    GroupLast(m, head, alpha, stale);
    assert ps == head + tail;
    if |ps| == n {
      assert ps == head;
      PackEnds(m, head, rest, alpha, stale);
    } else {
      var below := PackLayout(m, tail, rest, alpha, stale);
      PackGoesOn(m, head, tail, rest, alpha, stale, below);
      LayoutJoins(m, ps, alpha, ws, below);
      ws := ws + below;
    }
  }

  // ------------------------------------------------------------ exact modes

  /** No user flag but on the first word of a group of three. */
  ghost predicate UserAtGroupStart(ws: seq<Wide>) { forall i :: 0 <= i < |ws| && i % 3 != 0 ==> !ws[i].user }

  ghost predicate PixelUserAtGroupStart(ps: seq<Narrow>) { forall i :: 0 <= i < |ps| && i % 4 != 0 ==> !ps[i].user }

  /** When unpack-then-pack is the identity, flags included. */
  lemma ExactWords(m: Mode, ws: seq<Wide>, alpha: Byte)
    requires WordLine(m, ws)
    ensures RestoredAll(m, ws, alpha) == ws <==>
            match m
            case V_24 => UserAtGroupStart(ws)
            case V_32 => forall w :: w in ws ==> w.b3 == alpha
            case _ => true
  {
    var back := RestoredAll(m, ws, alpha);
    if back == ws {
      forall i | 0 <= i < |ws|
        ensures Restored(m, ws, alpha, i) == ws[i]
      {
        assert back[i] == ws[i];
      }
    }
  }

  /** When pack-then-unpack is the identity, flags included. */
  lemma ExactPixels(m: Mode, ps: seq<Narrow>)
    requires PixelLine(m, ps) && (m.V_24? || m.V_32?)
    ensures KeptAll(m, ps) == ps <==> m.V_32? || PixelUserAtGroupStart(ps)
  {
    var back := KeptAll(m, ps);
    if back == ps {
      forall i | 0 <= i < |ps|
        ensures Kept(m, ps, i) == ps[i]
      {
        assert back[i] == ps[i];
      }
    }
  }

  // ----------------------------------------------------- lines of any length

  /** The last flag on the final element and nowhere else. */
  ghost predicate PixelsEnd(ps: seq<Narrow>) {
    ps != [] && forall i :: 0 <= i < |ps| ==> (ps[i].last <==> i == |ps| - 1)
  }

  ghost predicate WordsEnd(ws: seq<Wide>) {
    ws != [] && forall i :: 0 <= i < |ws| ==> (ws[i].last <==> i == |ws| - 1)
  }

  lemma {:induction false} EarlyGroup(m: Mode, ps: seq<Narrow>, room: nat)
    requires (m.V_24? || m.V_8?) && PixelsEnd(ps)
    ensures GroupSize(m, ps, room) == if |ps| < room then |ps| else room
  {
    if room > 0 && |ps| > 1 {
      EarlyGroup(m, ps[1..], room - 1);
    }
  }

  /** The modes that take pixels in fixed pairs or fours regardless of the flag wait on a line of this length. */
  predicate Waits(m: Mode, n: nat) { !m.V_24? && !m.V_8? && n % PixelsPer(m) != 0 }

  lemma WaitsStep(m: Mode, n: nat)
    ensures n > PixelsPer(m) ==> (Waits(m, n) <==> Waits(m, n - PixelsPer(m)))
    ensures 0 < n <= PixelsPer(m) ==> (Waits(m, n) <==> n < PixelsPer(m) && !m.V_24? && !m.V_8?)
  {
    if !m.V_24? && !m.V_8? && !m.V_32? {
      assert PixelsPer(m) == 2;
    }
  }

  /** The first group of a line. */
  lemma {:induction false} PackFirst(m: Mode, ps: seq<Narrow>, alpha: Byte, stale: seq<Narrow>)
    requires |stale| == 4 && PixelsEnd(ps)
    ensures var r, n := Pack(m, ps, alpha, stale), PixelsPer(m);
            && (|ps| > n ==> r.used == n + Pack(m, ps[n..], alpha, stale).used
                             && r.stalled == Pack(m, ps[n..], alpha, stale).stalled)
            && (|ps| <= n ==> r.used == |ps| && (r.stalled <==> |ps| < n && !m.V_24? && !m.V_8?))
  {
    FixedSize(m, ps, PixelsPer(m));
    if m.V_24? || m.V_8? {
      EarlyGroup(m, ps, PixelsPer(m));
    }
  }

  /**
   A line is packed to its end and no further for every length in the modes
   that watch the last flag of each pixel, and only for whole groups in the
   others: there an odd line makes the kernel wait for the next line's pixels.
   */
  lemma {:induction false} PackEndsWithLine(m: Mode, ps: seq<Narrow>, alpha: Byte, stale: seq<Narrow>)
    requires |stale| == 4 && PixelsEnd(ps)
    ensures Pack(m, ps, alpha, stale).used == |ps|
    ensures Pack(m, ps, alpha, stale).stalled <==> Waits(m, |ps|)
    decreases |ps|
  {
    var n := PixelsPer(m);
    PackFirst(m, ps, alpha, stale);
    WaitsStep(m, |ps|);
    if n < |ps| {
      assert PixelsEnd(ps[n..]);
      PackEndsWithLine(m, ps[n..], alpha, stale);
    }
  }

  /** The same for unpacking, where only `V_24` takes more than one word at a time. */
  lemma {:induction false} UnpackEndsWithLine(m: Mode, ws: seq<Wide>)
    requires WordsEnd(ws)
    ensures Unpack(m, ws).used == |ws| && (Unpack(m, ws).stalled <==> |ws| % WordsPer(m) != 0)
    decreases |ws|
  {
    var n := WordsPer(m);
    if n < |ws| {
      UnpackEndsWithLine(m, ws[n..]);
    } else if n == |ws| {
      assert ws[..n][n - 1].last;
    }
  }
}
