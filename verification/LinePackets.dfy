/**
 Line-packetised streaming: one descriptor chain for a whole frame, with an
 end-of-packet mark on exactly the descriptors that finish a video line.
 A first pass counts the descriptors, a second pass builds them in the ring.
 */
module LinePackets {
  import opened Scatter
  import opened Descriptors
  import opened Engines

  /** What one descriptor says: which bytes to send, and whether they end a packet. */
  datatype Piece = Piece(addr: nat, len: nat, eop: bool)

  function Min(a: nat, b: nat): nat { if a <= b then a else b }

  /** Bytes the next descriptor takes: up to the end of the entry, of the line, or the hardware limit. */
  function Step(remaining: nat, line: nat, max: nat): (n: nat)
    ensures n <= remaining && n <= line && n <= max
    ensures n == remaining || n == line || n == max
  {
    Min(Min(remaining, line), max)
  }

  /** Bytes left in the line after n of its `line` remaining bytes have gone out. */
  function LineAfter(line: nat, n: nat, size: nat): nat
    requires n <= line
  {
    if n == line then size else line - n
  }

  /** The pieces the list is cut into when `line` bytes are missing to the next line end. */
  function Cut(es: seq<Entry>, line: nat, size: nat, max: nat): seq<Piece>
    requires 0 < line <= size && 0 < max
    decreases |es|, if es == [] then 0 else es[0].len
  {
    if es == [] then []
    else if es[0].len == 0 then Cut(es[1..], line, size, max)
    else
      var n := Step(es[0].len, line, max);
      [Piece(es[0].addr, n, n == line)] + Cut(Advance(es, n), LineAfter(line, n, size), size, max)
  }

  /** One step of the cut, on a list whose first entry still has bytes. */
  lemma {:induction false} CutOnce(es: seq<Entry>, line: nat, size: nat, max: nat)
    requires 0 < line <= size && 0 < max && es != [] && es[0].len > 0
    ensures var n := Step(es[0].len, line, max);
            && 0 < n
            && Cut(es, line, size, max) ==
                 [Piece(es[0].addr, n, n == line)] + Cut(Advance(es, n), LineAfter(line, n, size), size, max)
            && Advance(es, n)[0] == Entry(es[0].addr + n, es[0].len - n) && Advance(es, n)[1..] == es[1..]
  {
  }

  /** The requests the counting pass accepts: the list holds exactly `lines` lines. */
  predicate Fits(es: seq<Entry>, size: nat, lines: nat, max: nat) {
    0 < size && 0 < lines && 0 < max && Total(es) == size * lines
  }

  // ------------------------------------------------------------ counting pass

  datatype Option<T> = None | Some(value: T)

  function Plus(c: Option<nat>, n: nat): Option<nat> {
    if c.Some? then Some(c.value + n) else None
  }

  /** The counting pass as a recursion: `lines` lines still to finish, `line` bytes missing in this one. */
  function Counted(es: seq<Entry>, line: nat, size: nat, lines: nat, max: nat): Option<nat>
    requires 0 < line <= size
    decreases |es|, if es == [] then 0 else es[0].len
  {
    if es == [] then (if lines == 0 && line == size then Some(0) else None)
    else if es[0].len == 0 then Counted(es[1..], line, size, lines, max)
    else
      var n := Step(es[0].len, line, max);
      if lines == 0 || n == 0 then None
      else Plus(Counted(Advance(es, n), LineAfter(line, n, size), size, if n == line then lines - 1 else lines, max), 1)
  }

  lemma CountedOnce(es: seq<Entry>, line: nat, size: nat, lines: nat, max: nat, count: nat)
    requires 0 < line <= size && 0 < lines && es != [] && 0 < Step(es[0].len, line, max)
    ensures var n := Step(es[0].len, line, max);
            var left := if n == line then lines - 1 else lines;
            && Advance(es, n)[0].len == es[0].len - n && Advance(es, n)[1..] == es[1..]
            && Plus(Counted(es, line, size, lines, max), count) ==
                 Plus(Counted(Advance(es, n), LineAfter(line, n, size), size, left, max), count + 1)
  {
  }

  /** `xdma_count_line_descriptors`; `None` is its -EINVAL. */
  method CountLineDescriptors(es: seq<Entry>, size: nat, lines: nat, max: nat) returns (r: Option<nat>)
    ensures r.Some? <==> Fits(es, size, lines, max)
    ensures r.Some? ==> r.value == |Cut(es, size, size, max)|
  {
    if size == 0 || lines == 0 {
      return None;
    }
    CountedExactly(es, size, size, lines, max);
    ghost var goal := Counted(es, size, size, lines, max);
    var line, linesDone, count := size, 0, 0;
    var i := 0;
    while i < |es|
      invariant 0 <= i <= |es| && 0 < line <= size && linesDone <= lines
      invariant goal == Plus(Counted(es[i..], line, size, lines - linesDone, max), count)
    {
      var remaining := es[i].len;
      ghost var rest := es[i..];
      assert rest[1..] == es[i + 1..];
      while remaining > 0
        invariant 0 < line <= size && linesDone <= lines
        invariant rest != [] && rest[0].len == remaining && rest[1..] == es[i + 1..]
        invariant goal == Plus(Counted(rest, line, size, lines - linesDone, max), count)
      {
        if linesDone >= lines {
          return None;
        }
        var len := Min(Min(remaining, line), max);
        if len == 0 {
          return None;
        }
        CountedOnce(rest, line, size, lines - linesDone, max, count);
        rest := Advance(rest, len);
        count := count + 1;
        remaining := remaining - len;
        line := line - len;
        if line == 0 {
          linesDone := linesDone + 1;
          line := size;
        }
      }
      i := i + 1;
    }
    assert es[i..] == [];
    if linesDone != lines || line != size {
      return None;
    }
    r := Some(count);
  }

  /** Counting succeeds exactly on the right byte total, and then counts the pieces of the cut. */
  lemma {:induction false} CountedExactly(es: seq<Entry>, line: nat, size: nat, lines: nat, max: nat)
    requires 0 < line <= size
    ensures Counted(es, line, size, lines, max).Some? <==>
            (Total(es) + (size - line) == size * lines && (max > 0 || Total(es) == 0))
    ensures max > 0 && Counted(es, line, size, lines, max).Some? ==>
            Counted(es, line, size, lines, max).value == |Cut(es, line, size, max)|
    decreases |es|, if es == [] then 0 else es[0].len
  {
    if es == [] {
      LineMultiple(size, lines, line);
    } else if es[0].len == 0 {
      CountedExactly(es[1..], line, size, lines, max);
    } else {
      var n := Step(es[0].len, line, max);
      if lines == 0 {
        assert size * lines == 0;
      } else if n > 0 {
        var lines' := if n == line then lines - 1 else lines;
        assert size * lines == size * (lines - 1) + size;
        AdvanceBytes(es, n);
        CountedExactly(Advance(es, n), LineAfter(line, n, size), size, lines', max);
      }
    }
  }

  lemma LineMultiple(size: nat, lines: nat, line: nat)
    requires 0 < line <= size
    ensures size - line == size * lines <==> lines == 0 && line == size
  {
    if lines > 0 {
      assert size * lines >= size * 1;
    }
  }
}
