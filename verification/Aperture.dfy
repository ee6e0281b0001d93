/**
 Transfers through a fixed endpoint window: the scatter list is cut so that no
 descriptor leaves the window [base, base + size) or runs past its end, and the
 endpoint address starts over at the window's base. A list that needs more
 descriptors than the ring has left is sent in several passes.
 */
module Aperture {
  import opened Arithmetic
  import opened Scatter
  import opened Descriptors
  import opened RingSplit
  import LinePackets

  const U32: nat := 0x1_0000_0000

  /** The endpoint window and the longest descriptor. */
  datatype Region = Region(base: nat, size: nat, max: nat)

  type Window = w: Region | 0 < w.size && 0 < w.max witness Region(0, 1, 1)

  // ---------------------------------------------------------- specification

  /** The descriptors of a list when `room` bytes of the window are left before it starts over. */
  function Wrapped(es: seq<Entry>, room: nat, w: Window): seq<Item>
    requires 0 < room <= w.size
    decreases |es|, if es == [] then 0 else es[0].len
  {
    if es == [] then []
    else if es[0].len == 0 then Wrapped(es[1..], room, w)
    else
      var n := LinePackets.Step(es[0].len, room, w.max);
      [Item(es[0].addr, n, w.base + w.size - room)] + Wrapped(Advance(es, n), RoomAfter(room, n, w), w)
  }

  function RoomAfter(room: nat, n: nat, w: Window): (r: nat)
    requires n <= room <= w.size
    ensures 0 < r <= w.size
  {
    LinePackets.LineAfter(room, n, w.size)
  }

  lemma {:induction false} WrappedOnce(es: seq<Entry>, room: nat, w: Window)
    requires 0 < room <= w.size && es != [] && es[0].len > 0
    ensures var n := LinePackets.Step(es[0].len, room, w.max);
            && 0 < n
            && Wrapped(es, room, w) ==
                 [Item(es[0].addr, n, w.base + w.size - room)] + Wrapped(Advance(es, n), RoomAfter(room, n, w), w)
            && Advance(es, n)[0] == Entry(es[0].addr + n, es[0].len - n) && Advance(es, n)[1..] == es[1..]
  {
  }

  /** A byte in memory and the endpoint byte it goes with. */
  datatype Pair = Pair(addr: nat, ep: nat)

  function ItemPairs(i: Item): seq<Pair> {
    seq(i.len, k requires 0 <= k < i.len => Pair(i.addr + k, i.ep + k))
  }

  function Pairs(items: seq<Item>): seq<Pair> {
    if items == [] then [] else ItemPairs(items[0]) + Pairs(items[1..])
  }

  /** The intended result: byte k of the list goes to base + (start + k) mod size. */
  function Ideal(bytes: seq<nat>, start: nat, w: Window): (p: seq<Pair>)
    ensures |p| == |bytes|
  {
    seq(|bytes|, k requires 0 <= k < |bytes| => Pair(bytes[k], w.base + (start + k) % w.size))
  }

  // ---------------------------------------------------------------- theorem

  /** One descriptor's bytes are where they belong. */
  lemma ItemIdeal(addr: nat, n: nat, room: nat, w: Window)
    requires 0 < n <= room <= w.size
    ensures ItemPairs(Item(addr, n, w.base + w.size - room)) == Ideal(Span(addr, n), w.size - room, w)
  {
    var item := ItemPairs(Item(addr, n, w.base + w.size - room));
    var ideal := Ideal(Span(addr, n), w.size - room, w);
    forall k | 0 <= k < n
      ensures item[k] == ideal[k]
    {
      Small(w.size - room + k, w.size);
    }
  }

  /** The rest continues where the window offset stands after n bytes. */
  lemma IdealAppend(a: seq<nat>, b: seq<nat>, room: nat, w: Window)
    requires 0 < |a| <= room <= w.size
    ensures Ideal(a + b, w.size - room, w)
         == Ideal(a, w.size - room, w) + Ideal(b, w.size - RoomAfter(room, |a|, w), w)
  {
    var n := |a|;
    var left := Ideal(a + b, w.size - room, w);
    var right := Ideal(a, w.size - room, w) + Ideal(b, w.size - RoomAfter(room, n, w), w);
    forall k | n <= k < n + |b|
      ensures left[k] == right[k]
    {
      if n == room {
        DivOneMore(k - n, w.size);
        assert w.size - room + k == w.size + (k - n);
      } else {
        assert w.size - room + k == w.size - (room - n) + (k - n);
      }
    }
  }

  /**
   Every byte of the list is sent exactly once, in order, byte k to offset
   (start + k) mod size of the window, whatever the entries, the limit and the
   window.
   */
  lemma {:induction false} WindowIsIdeal(es: seq<Entry>, room: nat, w: Window)
    requires 0 < room <= w.size
    ensures Pairs(Wrapped(es, room, w)) == Ideal(Bytes(es), w.size - room, w)
    decreases |es|, if es == [] then 0 else es[0].len
  {
    if es == [] {
    } else if es[0].len == 0 {
      WindowIsIdeal(es[1..], room, w);
      assert Bytes(es) == Bytes(es[1..]);
    } else {
      var n := LinePackets.Step(es[0].len, room, w.max);
      WrappedOnce(es, room, w);
      AdvanceBytes(es, n);
      WindowIsIdeal(Advance(es, n), RoomAfter(room, n, w), w);
      ItemIdeal(es[0].addr, n, room, w);
      IdealAppend(Span(es[0].addr, n), Bytes(Advance(es, n)), room, w);
    }
  }

  /** Not empty, not over the limit, inside the window and not across its end. */
  predicate Inside(i: Item, w: Window) {
    0 < i.len <= w.max && w.base <= i.ep && i.ep + i.len <= w.base + w.size
  }

  lemma {:induction false} InsideWindow(es: seq<Entry>, room: nat, w: Window)
    requires 0 < room <= w.size
    ensures forall i :: i in Wrapped(es, room, w) ==> Inside(i, w)
    decreases |es|, if es == [] then 0 else es[0].len
  {
    if es == [] {
    } else if es[0].len == 0 {
      InsideWindow(es[1..], room, w);
    } else {
      var n := LinePackets.Step(es[0].len, room, w.max);
      WrappedOnce(es, room, w);
      InsideWindow(Advance(es, n), RoomAfter(room, n, w), w);
    }
  }

  // ---------------------------------------------------------- bytes and items

  /** Bytes in the first n descriptors. */
  function Sent(items: seq<Item>, n: nat): nat
    requires n <= |items|
  {
    if n == 0 then 0 else Sent(items, n - 1) + items[n - 1].len
  }

  lemma {:induction false} PairsAppend(a: seq<Item>, b: seq<Item>)
    ensures Pairs(a + b) == Pairs(a) + Pairs(b)
  {
    if a == [] {
      assert a + b == b;
    } else {
      PairsAppend(a[1..], b);
      assert a + b == [a[0]] + (a[1..] + b);
      Assoc(ItemPairs(a[0]), Pairs(a[1..]), Pairs(b));
    }
  }

  lemma {:induction false} SentPairs(items: seq<Item>, n: nat)
    requires n <= |items|
    ensures |Pairs(items[..n])| == Sent(items, n)
  {
    if n > 0 {
      SentPairs(items, n - 1);
      assert items[..n] == items[..n - 1] + [items[n - 1]];
      PairsAppend(items[..n - 1], [items[n - 1]]);
      assert Pairs([items[n - 1]]) == ItemPairs(items[n - 1]) + Pairs([]);
    }
  }

  /** All of a list's descriptors together carry all of its bytes. */
  lemma {:induction false} SentAll(es: seq<Entry>, room: nat, w: Window)
    requires 0 < room <= w.size
    ensures var items := Wrapped(es, room, w); Sent(items, |items|) == Total(es)
  {
    var items := Wrapped(es, room, w);
    WindowIsIdeal(es, room, w);
    SentPairs(items, |items|);
    assert items[..|items|] == items;
    BytesLength(es);
  }

  // ------------------------------------------------------------ where it stops

  /** An entry and an offset in it. */
  datatype Place = Place(entry: nat, skip: nat)

  /** Where byte b of a list lies; behind the last entry when there is no such byte. */
  function Locate(es: seq<Entry>, b: nat): (p: Place)
    ensures p.entry <= |es|
  {
    if es == [] then Place(0, 0)
    else if b < es[0].len then Place(0, b)
    else
      var p := Locate(es[1..], b - es[0].len);
      Place(p.entry + 1, p.skip)
  }

  /** The part of a list before a place is b bytes long, and the place is inside its entry. */
  ghost predicate StopsAt(es: seq<Entry>, b: nat, p: Place) {
    && p.entry <= |es| && Total(es[..p.entry]) + p.skip == b
    && (if p.entry == |es| then p.skip == 0 else p.skip < es[p.entry].len)
  }

  lemma {:induction false} OnlyPlace(es: seq<Entry>, b: nat, p: Place)
    requires StopsAt(es, b, p)
    ensures Locate(es, b) == p
  {
    if es != [] && p.entry > 0 {
      assert es[..p.entry] == [es[0]] + es[1..][..p.entry - 1];
      OnlyPlace(es[1..], b - es[0].len, Place(p.entry - 1, p.skip));
    }
  }

  /** Bitwise and, digit by digit. */
  function And(x: nat, y: nat): (r: nat)
    ensures r <= y && r <= x
    decreases x
  {
    if x == 0 || y == 0 then 0 else 2 * And(x / 2, y / 2) + (if x % 2 == 1 && y % 2 == 1 then 1 else 0)
  }

  /** What the request remembers between passes: `sg_idx`, `sg_offset` and `offset`. */
  datatype Progress = Progress(idx: nat, skip: nat, offset: nat)

  const START := Progress(0, 0, 0)

  /**
   The entries a pass walks: as many as are still to go, but from the list's
   head, and the remembered offset is taken off the head, in 32 bits.
   */
  function Walked(es: seq<Entry>, p: Progress): seq<Entry>
    requires p.idx <= |es|
  {
    if p.idx == |es| then []
    else [Entry(es[0].addr + p.skip, (es[0].len - p.skip) % U32)] + es[1..|es| - p.idx]
  }

  /** Window room left when a pass starts at the given request offset. */
  function StartRoom(offset: nat, w: Window): (room: nat)
    ensures 0 < room <= w.size
  {
    w.size - And(offset, w.size - 1)
  }

  /** The descriptors a pass would write if the ring never ran out. */
  function PassItems(es: seq<Entry>, p: Progress, w: Window): seq<Item>
    requires p.idx <= |es|
  {
    Wrapped(Walked(es, p), StartRoom(p.offset, w), w)
  }

  /** What the request remembers once a pass has sent b bytes and stopped at a place of its walk. */
  function Moved(p: Progress, b: nat, place: Place): Progress {
    Progress(p.idx + place.entry, if place.entry == 0 then (p.skip + place.skip) % U32 else place.skip,
             (p.offset + b) % U32)
  }

  // -------------------------------------------------------------- the passes

  /** Endpoint address the driver holds: it is wrapped only when the next descriptor needs it. */
  predicate EpFor(ep: nat, room: nat, w: Window) {
    room <= w.size && (ep == w.base + w.size - room || (room == w.size && ep == w.base + w.size))
  }

  /** Length and endpoint address of the next descriptor. */
  method NextPiece(left: nat, ep: nat, w: Window, ghost room: nat) returns (n: nat, ep': nat)
    requires 0 < room <= w.size && 0 < left && EpFor(ep, room, w)
    ensures n == LinePackets.Step(left, room, w.max) && 0 < n && ep' == w.base + w.size - room
    ensures EpFor(ep' + n, RoomAfter(room, n, w), w)
  {
    var top := w.base + w.size - 1;
    n, ep' := LinePackets.Min(left, LinePackets.Min(w.size, w.max)), ep;
    if ep' > top {
      ep' := w.base;
    }
    if ep' + n > top {
      n := top - ep' + 1;
    }
  }

  /** The list from byte `off` of entry k on. */
  function Tail(es: seq<Entry>, k: nat, off: nat): seq<Entry>
    requires k <= |es| && (k < |es| ==> off <= es[k].len)
  {
    if k == |es| then [] else Advance(es[k..], off)
  }

  /** A pass: its ring before, its first slot, the entries it walks and the descriptors they ask for. */
  datatype Job = Job(was: seq<Desc>, at: nat, es: seq<Entry>, items: seq<Item>, w: Window, toDevice: bool)

  /** The first n items written to their slots, all other slots untouched. */
  ghost predicate Wrote(j: Job, now: seq<Desc>, n: nat) {
    && |now| == |j.was| && n <= |j.items| && j.at + n <= |now|
    && (forall i :: j.at <= i < j.at + n ==> now[i] == Says(j.was[i], j.items[i - j.at], j.toDevice))
    && (forall i :: 0 <= i < |now| && !(j.at <= i < j.at + n) ==> now[i] == j.was[i])
  }

  /** The items from `used` on are those of the list from byte `off` of entry k on. */
  ghost predicate Ahead(j: Job, used: nat, k: nat, off: nat, room: nat) {
    && used <= |j.items| && 0 < room <= j.w.size
    && k <= |j.es| && (k < |j.es| ==> off <= j.es[k].len)
    && Total(j.es[..k]) + off == Sent(j.items, used)
    && j.items[used..] == Wrapped(Tail(j.es, k, off), room, j.w)
  }

  lemma TailAdvance(es: seq<Entry>, k: nat, off: nat, n: nat)
    requires k < |es| && off + n <= es[k].len
    ensures Tail(es, k, off)[0] == Entry(es[k].addr + off, es[k].len - off)
    ensures Advance(Tail(es, k, off), n) == Tail(es, k, off + n)
  {
  }

  /** One descriptor taken off the items still to write. */
  lemma TakeOne(j: Job, used: nat, k: nat, off: nat, room: nat)
    requires Ahead(j, used, k, off, room) && k < |j.es| && off < j.es[k].len
    ensures var n := LinePackets.Step(j.es[k].len - off, room, j.w.max);
            && used < |j.items| && j.items[used] == Item(j.es[k].addr + off, n, j.w.base + j.w.size - room)
            && Ahead(j, used + 1, k, off + n, RoomAfter(room, n, j.w))
  {
    var n := LinePackets.Step(j.es[k].len - off, room, j.w.max);
    TailAdvance(j.es, k, off, n);
    WrappedOnce(Tail(j.es, k, off), room, j.w);
    assert j.items[used] == j.items[used..][0] && j.items[used..][1..] == j.items[used + 1..];
  }

  /** Going on to the next entry at the end of one. */
  lemma NextEntry(j: Job, used: nat, k: nat, room: nat)
    requires k < |j.es| && Ahead(j, used, k, j.es[k].len, room)
    ensures Ahead(j, used, k + 1, 0, room)
  {
    var rest := Tail(j.es, k, j.es[k].len);
    assert rest[0].len == 0 && rest[1..] == j.es[k + 1..];
    assert Tail(j.es, k + 1, 0) == j.es[k + 1..];
    TotalMore(j.es, k);
  }

  lemma TotalMore(es: seq<Entry>, k: nat)
    requires k < |es|
    ensures Total(es[..k + 1]) == Total(es[..k]) + es[k].len
  {
    assert es[..k + 1] == es[..k] + [es[k]];
    BytesAppend(es[..k], [es[k]]);
    BytesCons(es[k], []);
    assert [es[k]] + [] == [es[k]];
  }

  lemma {:induction false} Opens(j: Job, room: nat)
    requires 0 < room <= j.w.size && j.items == Wrapped(j.es, room, j.w)
    ensures Ahead(j, 0, 0, 0, room)
  {
    assert j.es[..0] == [] && j.items[0..] == j.items;
    if j.es != [] {
      assert Tail(j.es, 0, 0) == j.es;
    }
  }

  lemma WroteMore(j: Job, now: seq<Desc>, n: nat, next: seq<Desc>)
    requires Wrote(j, now, n) && n < |j.items| && j.at + n < |now|
    requires next == now[j.at + n := Says(now[j.at + n], j.items[n], j.toDevice)]
    ensures Wrote(j, next, n + 1)
  {
  }

  /** One descriptor set, as a change of the ring's contents. */
  method SetItem(ring: array<Desc>, slot: nat, i: Item, toDevice: bool)
    requires slot < ring.Length
    modifies ring
    ensures ring[..] == old(ring[..])[slot := Says(old(ring[..])[slot], i, toDevice)]
  {
    DescSet(ring, slot, i, toDevice);
  }

  /** The body of the inner loop: the next descriptor. */
  method FillOne(ring: array<Desc>, used: nat, off: nat, ep: nat, w: Window, toDevice: bool, at: nat, e: Entry,
                 ghost j: Job, ghost k: nat, ghost room: nat)
    returns (n: nat, ep': nat, ghost room': nat)
    requires j.at == at && j.w == w && j.toDevice == toDevice && k < |j.es| && j.es[k] == e && off < e.len
    requires Wrote(j, ring[..], used) && Ahead(j, used, k, off, room) && EpFor(ep, room, w)
    requires at + used < ring.Length
    modifies ring
    ensures 0 < n <= e.len - off && Wrote(j, ring[..], used + 1) && Ahead(j, used + 1, k, off + n, room')
    ensures EpFor(ep', room', w)
  {
    TakeOne(j, used, k, off, room);
    var to;
    n, to := NextPiece(e.len - off, ep, w, room);
    var item := Item(e.addr + off, n, to);
    assert item == j.items[used];
    ghost var now := ring[..];
    SetItem(ring, at + used, item, toDevice);
    WroteMore(j, now, used, ring[..]);
    ep', room' := to + n, RoomAfter(room, n, w);
  }

  /** The inner loop: one entry's bytes, until they or the ring's slots run out. */
  method FillEntry(ring: array<Desc>, used: nat, ep: nat, w: Window, toDevice: bool, at: nat, e: Entry, ghost j: Job,
                   ghost k: nat, ghost room: nat)
    returns (used': nat, off: nat, ep': nat, ghost room': nat)
    requires j.at == at && j.w == w && j.toDevice == toDevice && k < |j.es| && j.es[k] == e
    requires Wrote(j, ring[..], used) && Ahead(j, used, k, 0, room) && EpFor(ep, room, w)
    requires at + used < ring.Length
    modifies ring
    ensures Wrote(j, ring[..], used') && Ahead(j, used', k, off, room') && EpFor(ep', room', w)
    ensures off <= e.len && (off < e.len ==> at + used' == ring.Length)
    ensures Sent(j.items, used') == Sent(j.items, used) + off
  {
    used', off, ep', room' := used, 0, ep, room;
    while off < e.len && at + used' < ring.Length
      invariant off <= e.len && at + used' <= ring.Length
      invariant Wrote(j, ring[..], used') && Ahead(j, used', k, off, room') && EpFor(ep', room', w)
    {
      var n;
      n, ep', room' := FillOne(ring, used', off, ep', w, toDevice, at, e, j, k, room');
      used', off := used' + 1, off + n;
    }
  }

  /** The outer loop: the entries of a walk. */
  method FillList(ring: array<Desc>, at: nat, es: seq<Entry>, ep0: nat, w: Window, toDevice: bool, ghost j: Job,
                  ghost room0: nat)
    returns (used: nat, sent: nat, k: nat, off: nat, ghost room: nat)
    requires j.at == at && j.w == w && j.toDevice == toDevice && j.es == es
    requires Wrote(j, ring[..], 0) && Ahead(j, 0, 0, 0, room0) && EpFor(ep0, room0, w) && at < ring.Length
    modifies ring
    ensures Wrote(j, ring[..], used) && Ahead(j, used, k, off, room) && sent == Sent(j.items, used)
    ensures k == |es| || at + used == ring.Length
    ensures if k == |es| then off == 0 else off < es[k].len || (k > 0 && off == 0)
  {
    var ep: nat := ep0;
    used, sent, k, off, room := 0, 0, 0, 0, room0;
    while k < |es| && at + used < ring.Length
      invariant Wrote(j, ring[..], used) && Ahead(j, used, k, 0, room) && EpFor(ep, room, w)
      invariant off == 0 && sent == Sent(j.items, used) && (k == 0 ==> used == 0)
      decreases |es| - k
    {
      used, off, ep, room := FillEntry(ring, used, ep, w, toDevice, at, es[k], j, k, room);
      sent := sent + off;
      if off < es[k].len {
        return;
      }
      NextEntry(j, used, k, room);
      off, k := 0, k + 1;
    }
  }

  /** A full ring or a finished list: how many items were written. */
  lemma AllOrFull(j: Job, now: seq<Desc>, used: nat, k: nat, off: nat, room: nat)
    requires Wrote(j, now, used) && Ahead(j, used, k, off, room) && (k == |j.es| || j.at + used == |now|)
    ensures used == LinePackets.Min(|j.items|, |now| - j.at)
  {
    if k == |j.es| {
      assert j.items[used..] == [];
    }
  }

  /** No entry of a mapped list is empty. */
  ghost predicate Solid(es: seq<Entry>) { forall i :: 0 <= i < |es| ==> es[i].len > 0 }

  /** The request of one call. */
  class ApertureRequest {
    const es: seq<Entry>
    const w: Window
    var offset: nat
    var sgIdx: nat
    var sgOffset: nat

    constructor (es: seq<Entry>, w: Window)
      ensures this.es == es && this.w == w && State() == START
    {
      this.es, this.w, offset, sgIdx, sgOffset := es, w, 0, 0, 0;
    }

    function State(): Progress
      reads this
    {
      Progress(sgIdx, sgOffset, offset)
    }
  }

  /** One pass from progress p to `next`: `count` descriptors written, the walk left at `place`. */
  ghost predicate Passed(es: seq<Entry>, w: Window, p: Progress, next: Progress, at: nat, was: seq<Desc>,
                         now: seq<Desc>, toDevice: bool, count: nat, place: Place)
    requires p.idx <= |es|
  {
    var walked, items := Walked(es, p), PassItems(es, p, w);
    && at <= |was| && count == LinePackets.Min(|items|, |was| - at)
    && Wrote(Job(was, at, walked, items, w, toDevice), now, count)
    && place.entry <= |walked| && Total(walked[..place.entry]) + place.skip == Sent(items, count)
    && (Solid(es) ==> place == Locate(walked, Sent(items, count)))
    && next == Moved(p, Sent(items, count), place)
  }

  lemma {:induction false} PassDone(es: seq<Entry>, w: Window, p: Progress, j: Job, now: seq<Desc>, used: nat, k: nat,
                                    off: nat, room: nat)
    requires p.idx <= |es| && j == Job(j.was, j.at, Walked(es, p), PassItems(es, p, w), w, j.toDevice)
    requires Wrote(j, now, used) && Ahead(j, used, k, off, room) && (k == |j.es| || j.at + used == |now|)
    requires if k == |j.es| then off == 0 else off < j.es[k].len || (k > 0 && off == 0)
    ensures var sent := Sent(j.items, used);
            Passed(es, w, p, Moved(p, sent, Place(k, off)), j.at, j.was, now, j.toDevice, used, Place(k, off))
  {
    AllOrFull(j, now, used, k, off, room);
    if Solid(es) {
      OnlyPlace(j.es, Sent(j.items, used), Place(k, off));
    }
  }

  /**
   One pass: descriptors are written from the engine's next slot on until the
   list or the ring ends, and the request remembers where it stopped.
   */
  method FillPass(ring: array<Desc>, at: nat, r: ApertureRequest, toDevice: bool)
    returns (count: nat, ghost place: Place)
    requires r.sgIdx <= |r.es| && at < ring.Length
    modifies ring, r
    ensures Passed(r.es, r.w, old(r.State()), r.State(), at, old(ring[..]), ring[..], toDevice, count, place)
  {
    ghost var p := r.State();
    var es, ep := Walked(r.es, r.State()), r.w.base + And(r.offset, r.w.size - 1);
    ghost var j := Job(ring[..], at, es, PassItems(r.es, p, r.w), r.w, toDevice);
    ghost var room := StartRoom(r.offset, r.w);
    Opens(j, room);
    var sent, k, off;
    count, sent, k, off, room := FillList(ring, at, es, ep, r.w, toDevice, j, room);
    PassDone(r.es, r.w, p, j, ring[..], count, k, off, room);
    place := Place(k, off);
    var next := Moved(r.State(), sent, Place(k, off));
    r.sgIdx, r.sgOffset, r.offset := next.idx, next.skip, next.offset;
  }
}
