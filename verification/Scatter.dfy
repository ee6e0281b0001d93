/**
 Scatter lists: the (address, length) ranges a driver hands to the DMA engine,
 and the sequence of byte addresses such a list denotes. Every builder in this
 project is measured against that byte sequence.
 */
module Scatter {

  datatype Entry = Entry(addr: nat, len: nat)

  /** The addresses addr, addr + 1, ..., addr + len - 1. */
  function Span(addr: nat, len: nat): (s: seq<nat>)
    ensures |s| == len
    ensures forall i :: 0 <= i < len ==> s[i] == addr + i
  {
    seq(len, i => addr + i)
  }

  /** Every byte address of the list, in transfer order. */
  function Bytes(es: seq<Entry>): seq<nat> {
    if es == [] then [] else Span(es[0].addr, es[0].len) + Bytes(es[1..])
  }

  function Total(es: seq<Entry>): nat {
    if es == [] then 0 else es[0].len + Total(es[1..])
  }

  lemma {:induction false} BytesLength(es: seq<Entry>)
    ensures |Bytes(es)| == Total(es)
  {
    if es != [] {
      BytesLength(es[1..]);
    }
  }

  lemma Assoc<T>(a: seq<T>, b: seq<T>, c: seq<T>)
    ensures a + b + c == a + (b + c)
  {
  }

  lemma {:induction false} BytesCons(e: Entry, es: seq<Entry>)
    ensures Bytes([e] + es) == Span(e.addr, e.len) + Bytes(es)
    ensures Total([e] + es) == e.len + Total(es)
  {
    assert ([e] + es)[0] == e && ([e] + es)[1..] == es;
  }

  lemma {:induction false} BytesAppend(a: seq<Entry>, b: seq<Entry>)
    ensures Bytes(a + b) == Bytes(a) + Bytes(b)
    ensures Total(a + b) == Total(a) + Total(b)
  {
    if a == [] {
      assert a + b == b;
    } else {
      BytesAppend(a[1..], b);
      assert a + b == [a[0]] + (a[1..] + b);
      BytesCons(a[0], a[1..] + b);
      Assoc(Span(a[0].addr, a[0].len), Bytes(a[1..]), Bytes(b));
    }
  }

  /** Cutting a range in two does not change the bytes it denotes. */
  lemma SpanSplit(addr: nat, len: nat, n: nat)
    requires n <= len
    ensures Span(addr, len) == Span(addr, n) + Span(addr + n, len - n)
  {
  }

  /** The list with n bytes taken off its first entry. */
  function Advance(es: seq<Entry>, n: nat): seq<Entry>
    requires es != [] && n <= es[0].len
  {
    [Entry(es[0].addr + n, es[0].len - n)] + es[1..]
  }

  /** Cutting the first entry of a list in two leaves the byte sequence alone. */
  lemma {:induction false} AdvanceBytes(es: seq<Entry>, n: nat)
    requires es != [] && n <= es[0].len
    ensures Bytes(es) == Span(es[0].addr, n) + Bytes(Advance(es, n))
    ensures Total(es) == n + Total(Advance(es, n))
  {
    var e := es[0];
    SpanSplit(e.addr, e.len, n);
    BytesCons(Entry(e.addr + n, e.len - n), es[1..]);
    Assoc(Span(e.addr, n), Span(e.addr + n, e.len - n), Bytes(es[1..]));
  }
}
