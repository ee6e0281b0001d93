/**
 Rectangles of bytes in linear memory: rows of n bytes, a fixed stride apart.
 `Copied` is the one notion of "this rectangle now holds that rectangle" used
 for every block transfer; the lemmas extend it by one row at either end.
 */
module Rows {

  import opened Arithmetic

  type Byte = bv8

  /** Byte k of row r of a rectangle that starts at `base`. */
  function Cell(base: nat, stride: nat, r: nat, k: nat): nat { base + r * stride + k }

  function Get(s: seq<Byte>, i: nat): Byte { if i < |s| then s[i] else 0 }

  /** Position i belongs to none of the rows lo .. hi - 1. */
  ghost predicate Outside(i: nat, base: nat, stride: nat, n: nat, lo: nat, hi: nat) {
    forall r :: lo <= r < hi ==> !(Cell(base, stride, r, 0) <= i < Cell(base, stride, r, n))
  }

  datatype Rect = Rect(base: nat, stride: nat)

  /**
   `now` is `was` with rows lo .. hi - 1 of rectangle `to` replaced by the
   same rows of rectangle `from` in `src`, n bytes each, and nothing else.
   */
  ghost predicate Copied(now: seq<Byte>, was: seq<Byte>, to: Rect, src: seq<Byte>, from: Rect, n: nat, lo: nat,
                         hi: nat) {
    && |now| == |was|
    && (forall r, k :: lo <= r < hi && 0 <= k < n ==>
          Get(now, Cell(to.base, to.stride, r, k)) == Get(src, Cell(from.base, from.stride, r, k)))
    && (forall i :: 0 <= i < |now| && Outside(i, to.base, to.stride, n, lo, hi) ==> now[i] == was[i])
  }

  /** `now` with n bytes at position p replaced by the n bytes of src at position q. */
  ghost predicate Patched(now: seq<Byte>, was: seq<Byte>, p: nat, src: seq<Byte>, q: nat, n: nat) {
    && |now| == |was| && p + n <= |was|
    && (forall i :: 0 <= i < |now| ==> now[i] == if p <= i < p + n then Get(src, q + (i - p)) else was[i])
  }

  lemma RowsApart(stride: nat, n: nat, r: nat, r': nat, base: nat)
    requires r < r' && n <= stride
    ensures Cell(base, stride, r, n) <= Cell(base, stride, r', 0)
  {
    StepUp(r, r', stride);
    OneMore(r, stride);
  }

  lemma NothingCopied(was: seq<Byte>, to: Rect, src: seq<Byte>, from: Rect, n: nat, lo: nat)
    ensures Copied(was, was, to, src, from, n, lo, lo)
  {
  }

  lemma OneRowMore(now: seq<Byte>, mid: seq<Byte>, was: seq<Byte>, to: Rect, src: seq<Byte>,
                   from: Rect, n: nat, lo: nat, hi: nat, row: nat)
    requires Copied(mid, was, to, src, from, n, lo, hi) && lo <= hi && n <= to.stride
    requires row == hi || (lo > 0 && row == lo - 1)
    requires Patched(now, mid, Cell(to.base, to.stride, row, 0), src, Cell(from.base, from.stride, row, 0), n)
    ensures row == hi ==> Copied(now, was, to, src, from, n, lo, hi + 1)
    ensures lo > 0 && row == lo - 1 ==> Copied(now, was, to, src, from, n, row, hi)
  {
    forall r | lo <= r < hi
      ensures row < r ==> Cell(to.base, to.stride, row, n) <= Cell(to.base, to.stride, r, 0)
      ensures r < row ==> Cell(to.base, to.stride, r, n) <= Cell(to.base, to.stride, row, 0)
    {
      if row < r {
        RowsApart(to.stride, n, row, r, to.base);
      } else if r < row {
        RowsApart(to.stride, n, r, row, to.base);
      }
    }
    PatchKeepsRows(now, mid, to, src, from, n, lo, hi, row);
    PatchAddsRow(now, mid, to, src, from, n, row);
  }

  lemma PatchKeepsRows(now: seq<Byte>, mid: seq<Byte>, to: Rect, src: seq<Byte>, from: Rect, n: nat,
                       lo: nat, hi: nat, row: nat)
    requires Patched(now, mid, Cell(to.base, to.stride, row, 0), src, Cell(from.base, from.stride, row, 0), n)
    requires forall r, k :: lo <= r < hi && 0 <= k < n ==>
      Get(mid, Cell(to.base, to.stride, r, k)) == Get(src, Cell(from.base, from.stride, r, k))
    requires forall r :: lo <= r < hi ==>
      Cell(to.base, to.stride, row, n) <= Cell(to.base, to.stride, r, 0)
      || Cell(to.base, to.stride, r, n) <= Cell(to.base, to.stride, row, 0)
    ensures forall r, k :: lo <= r < hi && 0 <= k < n ==>
      Get(now, Cell(to.base, to.stride, r, k)) == Get(src, Cell(from.base, from.stride, r, k))
  {
    forall r, k | lo <= r < hi && 0 <= k < n
      ensures Get(now, Cell(to.base, to.stride, r, k)) == Get(mid, Cell(to.base, to.stride, r, k))
    {
      var i := Cell(to.base, to.stride, r, k);
      assert Cell(to.base, to.stride, r, 0) <= i < Cell(to.base, to.stride, r, n);
    }
  }

  lemma PatchAddsRow(now: seq<Byte>, mid: seq<Byte>, to: Rect, src: seq<Byte>, from: Rect, n: nat,
                     row: nat)
    requires Patched(now, mid, Cell(to.base, to.stride, row, 0), src, Cell(from.base, from.stride, row, 0), n)
    ensures forall k :: 0 <= k < n ==>
      Get(now, Cell(to.base, to.stride, row, k)) == Get(src, Cell(from.base, from.stride, row, k))
  {
    forall k | 0 <= k < n
      ensures Get(now, Cell(to.base, to.stride, row, k)) == Get(src, Cell(from.base, from.stride, row, k))
    {
      assert Cell(to.base, to.stride, row, k) == Cell(to.base, to.stride, row, 0) + k;
      assert Cell(from.base, from.stride, row, k) == Cell(from.base, from.stride, row, 0) + k;
      assert now[Cell(to.base, to.stride, row, k)] == Get(src, Cell(from.base, from.stride, row, k));
    }
  }
}
