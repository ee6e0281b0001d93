/**
 Turning a scatter list into a request's software descriptors: a first pass
 reserves room, a second one cuts every entry into pieces of at most
 `desc_blen_max` bytes. Lengths are 32-bit, and so is the reserving arithmetic.
 */
module RequestList {
  import opened Arithmetic
  import opened Scatter

  const U32: nat := 0x1_0000_0000

  /** The pieces of one entry. */
  function Pieces(addr: nat, len: nat, max: nat): seq<Entry>
    requires 0 < max
    decreases len
  {
    if len == 0 then []
    else if len <= max then [Entry(addr, len)]
    else [Entry(addr, max)] + Pieces(addr + max, len - max, max)
  }

  function AllPieces(es: seq<Entry>, max: nat): seq<Entry>
    requires 0 < max
  {
    if es == [] then [] else Pieces(es[0].addr, es[0].len, max) + AllPieces(es[1..], max)
  }

  lemma {:induction false} PieceCount(addr: nat, len: nat, max: nat)
    requires 0 < max
    ensures |Pieces(addr, len, max)| == CeilDiv(len, max)
    decreases len
  {
    if len == 0 {
      CeilOfNone(max);
    } else if len <= max {
      CeilOfOne(len, max);
    } else {
      PieceCount(addr + max, len - max, max);
      CeilStep(len - max, max);
    }
  }

  /** One entry becomes ceil(len / max) pieces that cover it exactly, none empty and none too long. */
  lemma {:induction false} PiecesCover(addr: nat, len: nat, max: nat)
    requires 0 < max
    ensures |Pieces(addr, len, max)| == CeilDiv(len, max)
    ensures Bytes(Pieces(addr, len, max)) == Span(addr, len)
    ensures forall p :: p in Pieces(addr, len, max) ==> 0 < p.len <= max
    decreases len
  {
    PieceCount(addr, len, max);
    if len == 0 {
    } else if len <= max {
      BytesCons(Entry(addr, len), []);
      assert [Entry(addr, len)] + [] == [Entry(addr, len)];
    } else {
      PiecesCover(addr + max, len - max, max);
      BytesCons(Entry(addr, max), Pieces(addr + max, len - max, max));
      SpanSplit(addr, len, max);
    }
  }

  lemma {:induction false} AllPiecesCover(es: seq<Entry>, max: nat)
    requires 0 < max
    ensures Bytes(AllPieces(es, max)) == Bytes(es) && Total(AllPieces(es, max)) == Total(es)
    ensures forall p :: p in AllPieces(es, max) ==> 0 < p.len <= max
  {
    if es != [] {
      var head, rest := Pieces(es[0].addr, es[0].len, max), AllPieces(es[1..], max);
      PiecesCover(es[0].addr, es[0].len, max);
      AllPiecesCover(es[1..], max);
      BytesAppend(head, rest);
      BytesLength(head);
    }
  }

  /** Slots the first pass reserves for one entry: its own, and the quotient for a long one, in 32 bits. */
  function Reserve(len: nat, max: nat): nat
    requires 0 < max
  {
    1 + (if len > max then (len + max - 1) % U32 / max else 0)
  }

  function Reserved(es: seq<Entry>, max: nat): nat
    requires 0 < max
  {
    if es == [] then 0 else Reserve(es[0].len, max) + Reserved(es[1..], max)
  }

  /** The rounding sum of a long entry does not fit 32 bits. */
  predicate Wraps(len: nat, max: nat) { len > max && len + max - 1 >= U32 }

  /** A wrapped sum is less than the limit, so its quotient reserves nothing. */
  lemma WrappedReserve(len: nat, max: nat)
    requires 0 < max < U32 && len < U32 && Wraps(len, max)
    ensures Reserve(len, max) == 1
  {
    var sum := len + max - 1;
    QuotientIs(sum, U32, 1, sum - U32);
    Small(sum - U32, max);
  }

  lemma LongReserve(len: nat, max: nat)
    requires 0 < max < len && !Wraps(len, max)
    ensures Reserve(len, max) == 1 + CeilDiv(len, max)
  {
    Small(len + max - 1, U32);
  }

  /** Exactly then an entry is given fewer slots than it has pieces. */
  lemma {:induction false} ReserveExact(addr: nat, len: nat, max: nat)
    requires 0 < max < U32 && len < U32
    ensures |Pieces(addr, len, max)| <= Reserve(len, max) <==> !Wraps(len, max)
  {
    PieceCount(addr, len, max);
    Gain(len, max);
    if Wraps(len, max) {
      CeilOfMore(len, max);
    }
  }

  /** An entry that leaves one of its own slots over: an empty one, and a long one whose sum does not wrap. */
  predicate LeavesOne(len: nat, max: nat) { len == 0 || (len > max && !Wraps(len, max)) }

  function Spare(es: seq<Entry>, max: nat): nat {
    if es == [] then 0 else (if LeavesOne(es[0].len, max) then 1 else 0) + Spare(es[1..], max)
  }

  /** Pieces of the wrapping entries beyond the one slot each is given. */
  function Missing(es: seq<Entry>, max: nat): int
    requires 0 < max
  {
    if es == [] then 0
    else (if Wraps(es[0].len, max) then CeilDiv(es[0].len, max) - 1 else 0) + Missing(es[1..], max)
  }

  lemma Gain(len: nat, max: nat)
    requires 0 < max < U32 && len < U32
    ensures Reserve(len, max) - CeilDiv(len, max)
      == (if LeavesOne(len, max) then 1 else 0) - (if Wraps(len, max) then CeilDiv(len, max) - 1 else 0)
  {
    if len == 0 {
      CeilOfNone(max);
    } else if len <= max {
      CeilOfOne(len, max);
    } else if Wraps(len, max) {
      WrappedReserve(len, max);
    } else {
      LongReserve(len, max);
    }
  }

  lemma {:induction false} Balance(es: seq<Entry>, max: nat)
    requires 0 < max < U32 && forall e :: e in es ==> e.len < U32
    ensures Reserved(es, max) - |AllPieces(es, max)| == Spare(es, max) - Missing(es, max)
  {
    if es != [] {
      PieceCount(es[0].addr, es[0].len, max);
      Gain(es[0].len, max);
      Balance(es[1..], max);
    }
  }

  /** A whole list finds room for its pieces exactly when the slots some entries leave over cover what the
      wrapping ones miss, a test on the lengths alone. */
  lemma {:induction false} ListExact(es: seq<Entry>, max: nat)
    requires 0 < max < U32 && forall e :: e in es ==> e.len < U32
    ensures |AllPieces(es, max)| <= Reserved(es, max) <==> Missing(es, max) <= Spare(es, max)
    ensures (forall e :: e in es ==> !Wraps(e.len, max)) ==> Missing(es, max) == 0
  {
    Balance(es, max);
    if forall e :: e in es ==> !Wraps(e.len, max) {
      NothingMissing(es, max);
    }
  }

  lemma {:induction false} NothingMissing(es: seq<Entry>, max: nat)
    requires 0 < max && forall e :: e in es ==> !Wraps(e.len, max)
    ensures Missing(es, max) == 0
  {
    if es != [] {
      NothingMissing(es[1..], max);
    }
  }

  /** One entry of 0xF0000002 bytes at the default limit: sixteen pieces, one slot. */
  lemma RefusedExample()
    ensures var es, max := [Entry(0, 0xF000_0002)], 0x0FFF_FFFF;
      |AllPieces(es, max)| == 16 && Reserved(es, max) == 1
  {
    var es, max := [Entry(0, 0xF000_0002)], 0x0FFF_FFFF;
    PieceCount(0, es[0].len, max);
    QuotientIs(es[0].len + max - 1, max, 16, 16);
    WrappedReserve(es[0].len, max);
    assert es[1..] == [] && AllPieces(es, max) == Pieces(0, es[0].len, max) + [];
  }

  /** With the default limit of 2^28 - 1 bytes every entry below 4 GiB - 256 MiB is safe. */
  lemma DefaultLimitIsSafe(len: nat)
    requires len <= 0xF000_0001
    ensures !Wraps(len, 0x0FFF_FFFF)
  {
  }

  datatype Prepared = Prepared(pieces: seq<Entry>, reserved: nat, total: nat)

  /** `xdma_init_request`; `None` is its refusal when the pieces outnumber the slots. */
  datatype Outcome = Refused | Ready(request: Prepared)

  /** Cuts one entry behind the pieces already written. */
  method CutEntry(e: Entry, max: nat, written: seq<Entry>) returns (pieces: seq<Entry>)
    requires 0 < max
    ensures pieces == written + Pieces(e.addr, e.len, max)
  {
    pieces := written;
    var addr, tlen := e.addr, e.len;
    while tlen > 0
      invariant 0 <= addr && 0 <= tlen
      invariant pieces + Pieces(addr, tlen, max) == written + Pieces(e.addr, e.len, max)
    {
      if tlen > max {
        Assoc(pieces, [Entry(addr, max)], Pieces(addr + max, tlen - max, max));
        pieces := pieces + [Entry(addr, max)];
        addr, tlen := addr + max, tlen - max;
      } else {
        Assoc(pieces, [Entry(addr, tlen)], []);
        pieces := pieces + [Entry(addr, tlen)];
        tlen := 0;
      }
    }
  }

  /** `max + extra`: the slots the first pass counts. */
  method CountSlots(es: seq<Entry>, max: nat) returns (slots: nat)
    requires 0 < max
    ensures slots == Reserved(es, max)
  {
    var extra, i := 0, 0;
    while i < |es|
      invariant 0 <= i <= |es|
      invariant i + extra + Reserved(es[i..], max) == Reserved(es, max)
    {
      assert es[i..][1..] == es[i + 1..];
      var len := es[i].len;
      if len > max {
        extra := extra + (len + max - 1) % U32 / max;
      }
      i := i + 1;
    }
    slots := |es| + extra;
  }

  lemma {:induction false} PiecesFrom(es: seq<Entry>, i: nat, max: nat)
    requires 0 < max && i < |es|
    ensures AllPieces(es[i..], max) == Pieces(es[i].addr, es[i].len, max) + AllPieces(es[i + 1..], max)
    ensures Total(es[i..]) == es[i].len + Total(es[i + 1..])
  {
    assert es[i..][1..] == es[i + 1..];
  }

  method InitRequest(es: seq<Entry>, max: nat) returns (r: Outcome)
    requires 0 < max < U32 && forall e :: e in es ==> e.len < U32
    ensures r.Ready? <==> |AllPieces(es, max)| <= Reserved(es, max)
    ensures r.Ready? <==> Missing(es, max) <= Spare(es, max)
    ensures r.Ready? ==> r.request == Prepared(AllPieces(es, max), Reserved(es, max), Total(es))
  {
    var reserved := CountSlots(es, max);
    var pieces, total, i := [], 0, 0;
    assert es[0..] == es;
    while i < |es|
      invariant 0 <= i <= |es|
      invariant pieces + AllPieces(es[i..], max) == AllPieces(es, max)
      invariant total + Total(es[i..]) == Total(es)
    {
      PiecesFrom(es, i, max);
      Assoc(pieces, Pieces(es[i].addr, es[i].len, max), AllPieces(es[i + 1..], max));
      pieces := CutEntry(es[i], max, pieces);
      total := total + es[i].len;
      i := i + 1;
    }
    assert es[i..] == [] && pieces + [] == pieces;
    ListExact(es, max);
    if |pieces| > reserved {
      return Refused;
    }
    return Ready(Prepared(pieces, reserved, total));
  }
}
