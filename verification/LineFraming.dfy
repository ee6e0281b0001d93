/**
 What the cut of a scatter list into line pieces guarantees: the same bytes in
 the same order, packets that are exactly the lines, and no cut that respects
 the same limits with fewer pieces.
 */
module LineFraming {
  import opened Scatter
  import opened LinePackets

  // ------------------------------------------------------------------ bytes

  function PieceBytes(ps: seq<Piece>): seq<nat> {
    if ps == [] then [] else Span(ps[0].addr, ps[0].len) + PieceBytes(ps[1..])
  }

  lemma {:induction false} PieceBytesCons(p: Piece, ps: seq<Piece>)
    ensures PieceBytes([p] + ps) == Span(p.addr, p.len) + PieceBytes(ps)
  {
    assert ([p] + ps)[1..] == ps;
  }

  /** However the list was merged, the pieces name its bytes in its order. */
  lemma {:induction false} CutKeepsBytes(es: seq<Entry>, line: nat, size: nat, max: nat)
    requires 0 < line <= size && 0 < max
    ensures PieceBytes(Cut(es, line, size, max)) == Bytes(es)
    decreases |es|, if es == [] then 0 else es[0].len
  {
    if es != [] {
      if es[0].len == 0 {
        CutKeepsBytes(es[1..], line, size, max);
      } else {
        var n := Step(es[0].len, line, max);
        CutOnce(es, line, size, max);
        AdvanceBytes(es, n);
        CutKeepsBytes(Advance(es, n), LineAfter(line, n, size), size, max);
        PieceBytesCons(Piece(es[0].addr, n, n == line), Cut(Advance(es, n), LineAfter(line, n, size), size, max));
      }
    }
  }

  // ---------------------------------------------------------------- packets

  /** The receiver's view: the byte stream, a packet closed at every end-of-packet mark. */
  function Packets(ps: seq<Piece>, open: seq<nat>): seq<seq<nat>> {
    if ps == [] then (if open == [] then [] else [open])
    else
      var now := open + Span(ps[0].addr, ps[0].len);
      if ps[0].eop then [now] + Packets(ps[1..], []) else Packets(ps[1..], now)
  }

  /** A byte sequence in runs of `size`, the last one possibly short. */
  function Runs<T>(s: seq<T>, size: nat): seq<seq<T>>
    requires size > 0
  {
    if s == [] then []
    else if |s| < size then [s]
    else [s[..size]] + Runs(s[size..], size)
  }

  lemma {:induction false} PacketsCons(p: Piece, ps: seq<Piece>, open: seq<nat>)
    ensures Packets([p] + ps, open) ==
            var now := open + Span(p.addr, p.len);
            if p.eop then [now] + Packets(ps, []) else Packets(ps, now)
  {
    assert ([p] + ps)[1..] == ps;
  }

  lemma {:induction false} RunsCons<T>(run: seq<T>, s: seq<T>, size: nat)
    requires 0 < size == |run|
    ensures Runs(run + s, size) == [run] + Runs(s, size)
  {
    assert (run + s)[..size] == run && (run + s)[size..] == s;
  }

  lemma {:induction false} PacketsAreRuns(es: seq<Entry>, line: nat, size: nat, max: nat, open: seq<nat>)
    requires 0 < line <= size && 0 < max && |open| == size - line
    ensures Packets(Cut(es, line, size, max), open) == Runs(open + Bytes(es), size)
    decreases |es|, if es == [] then 0 else es[0].len
  {
    if es == [] {
      assert open + Bytes(es) == open;
    } else if es[0].len == 0 {
      assert Span(es[0].addr, 0) + Bytes(es[1..]) == Bytes(es[1..]);
      PacketsAreRuns(es[1..], line, size, max, open);
    } else {
      var n := Step(es[0].len, line, max);
      var left := Advance(es, n);
      var now := open + Span(es[0].addr, n);
      CutOnce(es, line, size, max);
      AdvanceBytes(es, n);
      Assoc(open, Span(es[0].addr, n), Bytes(left));
      PacketsCons(Piece(es[0].addr, n, n == line), Cut(left, LineAfter(line, n, size), size, max), open);
      if n == line {
        PacketsAreRuns(left, size, size, max, []);
        assert [] + Bytes(left) == Bytes(left);
        RunsCons(now, Bytes(left), size);
      } else {
        PacketsAreRuns(left, line - n, size, max, now);
      }
    }
  }

  /** The k-th run of `size` elements. */
  function Line<T>(s: seq<T>, size: nat, k: nat): seq<T> {
    if size * k <= size * (k + 1) <= |s| then s[size * k..size * (k + 1)] else []
  }

  lemma LineInside<T>(s: seq<T>, size: nat, count: nat, k: nat)
    requires |s| == size * count && k < count
    ensures size * k <= size * (k + 1) <= |s| && |Line(s, size, k)| == size
  {
    assert size * (k + 1) == size * k + size;
    assert size * (k + 1) <= size * count;
  }

  lemma SliceShift<T>(s: seq<T>, n: nat, a: nat, b: nat)
    requires n <= |s| && a <= b <= |s| - n
    ensures s[n..][a..b] == s[n + a..n + b]
  {
  }

  lemma LineShift<T>(s: seq<T>, size: nat, count: nat, k: nat)
    requires size > 0 && |s| == size * count && 0 < k < count
    ensures size <= |s| && Line(s[size..], size, k - 1) == Line(s, size, k)
  {
    LineInside(s, size, count, k);
    var a := size * (k - 1);
    assert size * k == a + size && size * (k + 1) == a + size + size;
    assert a >= 0;
    SliceShift(s, size, a, a + size);
  }

  lemma {:induction false} RunIsLine<T>(s: seq<T>, size: nat, count: nat, k: nat)
    requires size > 0 && |s| == size * count && k < count
    ensures |Runs(s, size)| == count && Runs(s, size)[k] == Line(s, size, k)
    decreases count
  {
    RunsUnfold(s, size, count);
    RunsLength(s[size..], size, count - 1);
    if k > 0 {
      RunIsLine(s[size..], size, count - 1, k - 1);
      LineShift(s, size, count, k);
    }
  }

  lemma {:induction false} RunsUnfold<T>(s: seq<T>, size: nat, count: nat)
    requires size > 0 && |s| == size * count && count > 0
    ensures |s| >= size && |s[size..]| == size * (count - 1)
    ensures Runs(s, size) == [Line(s, size, 0)] + Runs(s[size..], size)
  {
    LineInside(s, size, count, 0);
    assert size * count == size + size * (count - 1);
    assert size * 0 == 0 && size * 1 == size;
  }

  lemma {:induction false} RunsLength<T>(s: seq<T>, size: nat, count: nat)
    requires size > 0 && |s| == size * count
    ensures |Runs(s, size)| == count
    decreases count
  {
    if count > 0 {
      RunsUnfold(s, size, count);
      RunsLength(s[size..], size, count - 1);
    }
  }

  /** `lines` packets of `size` bytes, packet k being the k-th line of the byte sequence. */
  ghost predicate Framed(packets: seq<seq<nat>>, bytes: seq<nat>, size: nat, lines: nat) {
    && |bytes| == size * lines
    && |packets| == lines
    && forall k :: 0 <= k < lines ==> |packets[k]| == size && packets[k] == Line(bytes, size, k)
  }

  /** The pieces of an accepted request form exactly `lines` packets, and packet k is the k-th line of bytes. */
  lemma {:induction false} LinesAreFramed(es: seq<Entry>, size: nat, lines: nat, max: nat)
    requires Fits(es, size, lines, max)
    ensures Framed(Packets(Cut(es, size, size, max), []), Bytes(es), size, lines)
  {
    PacketsAreRuns(es, size, size, max, []);
    assert [] + Bytes(es) == Bytes(es);
    BytesLength(es);
    RunsLength(Bytes(es), size, lines);
    forall k | 0 <= k < lines
      ensures |Runs(Bytes(es), size)[k]| == size && Runs(Bytes(es), size)[k] == Line(Bytes(es), size, k)
    {
      RunIsLine(Bytes(es), size, lines, k);
      LineInside(Bytes(es), size, lines, k);
    }
  }

  /** The cut is never empty, every piece is within the hardware limit, and the last one ends its packet. */
  lemma {:induction false} PieceShape(es: seq<Entry>, line: nat, size: nat, lines: nat, max: nat)
    requires 0 < line <= size && 0 < max && Total(es) + (size - line) == size * lines
    ensures var ps := Cut(es, line, size, max);
            && (forall k :: 0 <= k < |ps| ==> 0 < ps[k].len <= max)
            && (ps == [] ==> line == size)
            && (ps != [] ==> ps[|ps| - 1].eop)
    decreases |es|, if es == [] then 0 else es[0].len
  {
    if es == [] {
      LineMultiple(size, lines, line);
    } else if es[0].len == 0 {
      PieceShape(es[1..], line, size, lines, max);
    } else {
      var n := Step(es[0].len, line, max);
      AdvanceBytes(es, n);
      assert size * lines > 0;
      assert size * lines == size * (lines - 1) + size;
      PieceShape(Advance(es, n), LineAfter(line, n, size), size, if n == line then lines - 1 else lines, max);
    }
  }

  // ------------------------------------------------------------- optimality

  /**
   `lens` is a way to send the list in pieces that cross neither an entry nor a
   line boundary and exceed no descriptor's limit.
   */
  ghost predicate Splits(lens: seq<nat>, es: seq<Entry>, line: nat, size: nat, max: nat)
    requires 0 < line <= size
    decreases |lens|, |es|
  {
    if es == [] then lens == []
    else if es[0].len == 0 then Splits(lens, es[1..], line, size, max)
    else
      && lens != []
      && 0 < lens[0] <= Step(es[0].len, line, max)
      && Splits(lens[1..], Advance(es, lens[0]), LineAfter(line, lens[0], size), size, max)
  }

  function Pieces(es: seq<Entry>, line: nat, size: nat, max: nat): nat
    requires 0 < line <= size && 0 < max
  {
    |Cut(es, line, size, max)|
  }

  /** Pieces still to come once the first `a` bytes of the first entry have gone out. */
  function After(es: seq<Entry>, a: nat, line: nat, size: nat, max: nat): nat
    requires 0 < line <= size && 0 < max && es != [] && a <= es[0].len && a <= line
  {
    Pieces(Advance(es, a), LineAfter(line, a, size), size, max)
  }

  /** Where the next greedy piece ends, in a stretch of d bytes. */
  function NextStop(a: nat, d: nat, max: nat): nat { Min(d, a + max) }

  lemma AfterOnce(es: seq<Entry>, a: nat, d: nat, line: nat, size: nat, max: nat)
    requires 0 < line <= size && 0 < max && es != [] && a < d == Min(es[0].len, line)
    ensures After(es, a, line, size, max) == 1 + After(es, NextStop(a, d, max), line, size, max)
  {
    var n := Step(es[0].len - a, line - a, max);
    CutOnce(Advance(es, a), line - a, size, max);
    AdvanceTwice(es, a, n);
    LineTwice(line, a, n, size);
  }

  lemma AdvanceTwice(es: seq<Entry>, a: nat, b: nat)
    requires es != [] && a + b <= es[0].len
    ensures Advance(Advance(es, a), b) == Advance(es, a + b)
  {
    assert Advance(es, a)[1..] == es[1..];
  }

  lemma LineTwice(line: nat, a: nat, b: nat, size: nat)
    requires a < line && a + b <= line
    ensures LineAfter(LineAfter(line, a, size), b, size) == LineAfter(line, a + b, size)
  {
  }

  /**
   f counts what is left at each position of a stretch of d bytes cut greedily
   in steps of at most max. A shorter next step saves nothing.
   */
  lemma {:induction false} GreedyIsFurthest(f: nat -> nat, d: nat, max: nat, a: nat, p: nat)
    requires 0 < max && a < d && 0 < p <= max && a + p <= d
    requires forall x :: 0 <= x < d ==> f(x) == 1 + f(NextStop(x, d, max))
    ensures f(a) <= 1 + f(a + p)
    decreases d - a
  {
    assert f(a) == 1 + f(NextStop(a, d, max));
    if a + p < d {
      assert f(a + p) == 1 + f(NextStop(a + p, d, max));
      if a + max + p < d {
        GreedyIsFurthest(f, d, max, a + max, p);
      } else if a + max < d {
        assert f(a + max) == 1 + f(NextStop(a + max, d, max));
      }
    }
  }

  lemma ShorterSavesNothing(es: seq<Entry>, p: nat, line: nat, size: nat, max: nat)
    requires 0 < line <= size && 0 < max && es != []
    requires 0 < p <= Step(es[0].len, line, max)
    ensures After(es, 0, line, size, max) <= 1 + After(es, p, line, size, max)
  {
    var d := Min(es[0].len, line);
    var f := (x: nat) => if x <= d then After(es, x, line, size, max) else 0;
    forall x | 0 <= x < d
      ensures f(x) == 1 + f(NextStop(x, d, max))
    {
      AfterOnce(es, x, d, line, size, max);
    }
    GreedyIsFurthest(f, d, max, 0, p);
  }

  /** No admissible splitting of the list has fewer pieces than the driver's. */
  lemma {:induction false} CutIsOptimal(lens: seq<nat>, es: seq<Entry>, line: nat, size: nat, max: nat)
    requires 0 < line <= size && 0 < max && Splits(lens, es, line, size, max)
    ensures Pieces(es, line, size, max) <= |lens|
    decreases |lens|, |es|
  {
    if es != [] {
      if es[0].len == 0 {
        CutIsOptimal(lens, es[1..], line, size, max);
      } else {
        CutIsOptimal(lens[1..], Advance(es, lens[0]), LineAfter(line, lens[0], size), size, max);
        ShorterSavesNothing(es, lens[0], line, size, max);
        assert Advance(es, 0) == es;
      }
    }
  }

  function Lengths(ps: seq<Piece>): seq<nat> {
    seq(|ps|, i requires 0 <= i < |ps| => ps[i].len)
  }

  /** The driver's own cut is one of those splittings, so the minimum is attained. */
  lemma {:induction false} CutIsAdmissible(es: seq<Entry>, line: nat, size: nat, max: nat)
    requires 0 < line <= size && 0 < max
    ensures Splits(Lengths(Cut(es, line, size, max)), es, line, size, max)
    decreases |es|, if es == [] then 0 else es[0].len
  {
    if es != [] {
      if es[0].len == 0 {
        CutIsAdmissible(es[1..], line, size, max);
      } else {
        var n := Step(es[0].len, line, max);
        var rest := Cut(Advance(es, n), LineAfter(line, n, size), size, max);
        CutIsAdmissible(Advance(es, n), LineAfter(line, n, size), size, max);
        assert Lengths(Cut(es, line, size, max))[1..] == Lengths(rest);
      }
    }
  }
}
