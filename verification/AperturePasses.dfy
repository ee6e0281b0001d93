/**
 What the passes of a window transfer add up to: when every pass sends the bytes
 the request still owes, and the whole transfer then sends the list.
 */
module AperturePasses {
  import opened Arithmetic
  import opened Scatter
  import opened Descriptors
  import opened RingSplit
  import opened Aperture
  import LinePackets

  // ------------------------------------------------------------------- masks

  /** Binary digit k. */
  predicate Bit(x: nat, k: nat) { if k == 0 then x % 2 == 1 else Bit(x / 2, k - 1) }

  /** The mask works digit by digit. */
  lemma {:induction false} AndBits(x: nat, y: nat, k: nat)
    ensures Bit(And(x, y), k) <==> Bit(x, k) && Bit(y, k)
    decreases k
  {
    var z := And(x, y);
    if x == 0 || y == 0 {
      NoBits(k);
    } else {
      assert z / 2 == And(x / 2, y / 2) && (z % 2 == 1 <==> x % 2 == 1 && y % 2 == 1);
      if k > 0 {
        AndBits(x / 2, y / 2, k - 1);
      }
    }
  }

  lemma {:induction false} NoBits(k: nat)
    ensures !Bit(0, k)
  {
    if k > 0 {
      NoBits(k - 1);
    }
  }

  /** An odd number above one is no power of two. */
  lemma {:induction false} OddMask(size: nat)
    requires 1 < size && size % 2 == 1
    ensures And(size, size - 1) != 0
  {
    AndSelf(size / 2);
    assert (size - 1) / 2 == size / 2;
  }

  /** The mask of an even number is the mask of its half with a one behind it. */
  lemma EvenMask(x: nat, half: nat)
    requires half > 0
    ensures And(x, 2 * half - 1) == 2 * And(x / 2, half - 1) + x % 2
    ensures And(2 * half, 2 * half - 1) == 2 * And(half, half - 1)
  {
    assert (2 * half - 1) / 2 == half - 1 && (2 * half - 1) % 2 == 1;
  }

  lemma {:induction false} MaskOfPower(x: nat, size: nat)
    requires 0 < size && And(size, size - 1) == 0
    ensures And(x, size - 1) == x % size
    decreases size
  {
    if size == 1 {
    } else if size % 2 == 1 {
      OddMask(size);
    } else {
      var half := size / 2;
      EvenMask(x, half);
      MaskOfPower(x / 2, half);
      ModHalves(x, half);
    }
  }

  lemma {:induction false} AndSelf(x: nat)
    ensures And(x, x) == x
  {
    if x > 0 {
      AndSelf(x / 2);
    }
  }

  lemma ModHalves(x: nat, half: nat)
    requires half > 0
    ensures x % (2 * half) == 2 * (x / 2 % half) + x % 2
  {
    var y := x / 2;
    QuotientIs(x, 2 * half, y / half, 2 * (y % half) + x % 2);
  }

  /**
   A later pass computes its window offset with a mask. That is the offset
   modulo the window's size for every offset exactly when the size is a power
   of two, a test the driver does not make.
   */
  lemma MaskIsRemainder(size: nat)
    requires 0 < size
    ensures (forall x: nat :: And(x, size - 1) == x % size) <==> And(size, size - 1) == 0
  {
    if And(size, size - 1) == 0 {
      forall x: nat
        ensures And(x, size - 1) == x % size
      {
        MaskOfPower(x, size);
      }
    } else {
      assert size % size == 0;
    }
  }

  // ----------------------------------------------------- positions in a list

  /** The list without its first b bytes. */
  function Rest(es: seq<Entry>, b: nat): seq<Entry> {
    if es == [] then [] else if b < es[0].len then Advance(es, b) else Rest(es[1..], b - es[0].len)
  }

  /** The list with n bytes off its first entry, and without that entry when it is used up. */
  function Less(es: seq<Entry>, n: nat): seq<Entry>
    requires es != [] && n <= es[0].len
  {
    if n < es[0].len then Advance(es, n) else es[1..]
  }

  lemma {:induction false} RestNone(es: seq<Entry>)
    requires Solid(es)
    ensures Rest(es, 0) == es
  {
  }

  /** Taking n more bytes off the rest. */
  lemma {:induction false} RestMore(es: seq<Entry>, b: nat, n: nat)
    requires Solid(es)
    ensures Solid(Rest(es, b))
    ensures var r := Rest(es, b);
            r != [] && n <= r[0].len ==> Rest(es, b + n) == Less(r, n)
  {
    if es == [] {
    } else if b < es[0].len {
      RestNone(es[1..]);
    } else {
      RestMore(es[1..], b - es[0].len, n);
    }
  }

  /** Byte b of a list lies where `Locate` says, and its entry's first byte comes `skip` before it. */
  lemma {:induction false} ByteAt(es: seq<Entry>, b: nat)
    requires Solid(es) && b < Total(es)
    ensures var p := Locate(es, b);
            && p.entry < |es| && p.skip < es[p.entry].len && p.skip <= b < |Bytes(es)|
            && Bytes(es)[b] == es[p.entry].addr + p.skip && Bytes(es)[b - p.skip] == es[p.entry].addr
            && (if p.entry == 0 then p.skip == b < es[0].len else es[0].len <= b - p.skip)
  {
    BytesLength(es);
    if b >= es[0].len {
      ByteAt(es[1..], b - es[0].len);
    }
  }

  /** The remainder by repeated subtraction, which keeps division out of the proofs below. */
  function Residue(b: nat, d: nat): (r: nat)
    requires 0 < d
    ensures r < d
  {
    if b < d then b else Residue(b - d, d)
  }

  lemma {:induction false} ResidueIs(b: nat, d: nat)
    requires 0 < d
    ensures Residue(b, d) == b % d
  {
    if b < d {
      Small(b, d);
    } else {
      ResidueIs(b - d, d);
      DivOneMore(b - d, d);
    }
  }

  /** Window room left after b bytes. */
  function RoomAt(b: nat, w: Window): (room: nat)
    ensures 0 < room <= w.size
  {
    w.size - Residue(b, w.size)
  }

  lemma {:induction false} RoomMoves(b: nat, n: nat, w: Window)
    requires n <= RoomAt(b, w)
    ensures RoomAfter(RoomAt(b, w), n, w) == RoomAt(b + n, w)
    decreases b
  {
    if b >= w.size {
      RoomMoves(b - w.size, n, w);
      assert b + n - w.size == b - w.size + n;
    } else if b + n == w.size {
      assert Residue(0, w.size) == 0;
    }
  }

  /** The whole list's descriptors, from a fresh start. */
  function All(es: seq<Entry>, w: Window): seq<Item> { Wrapped(es, w.size, w) }

  /** An entry used up asks for nothing more. */
  lemma {:induction false} SkipEmpty(es: seq<Entry>, n: nat, room: nat, w: Window)
    requires es != [] && n <= es[0].len && 0 < room <= w.size
    ensures Wrapped(Advance(es, n), room, w) == Wrapped(Less(es, n), room, w)
  {
    assert Advance(es, n)[1..] == es[1..];
  }

  /** One descriptor off a list's items. */
  lemma {:induction false} DropOne(items: seq<Item>, s: nat, es: seq<Entry>, room: nat, w: Window)
    requires s < |items| && Solid(es) && 0 < room <= w.size && items[s..] == Wrapped(es, room, w)
    ensures es != [] && items[s].len == LinePackets.Step(es[0].len, room, w.max)
    ensures var n := items[s].len; items[s + 1..] == Wrapped(Less(es, n), RoomAfter(room, n, w), w)
  {
    WrappedOnce(es, room, w);
    var n := LinePackets.Step(es[0].len, room, w.max);
    assert items[s..][0] == items[s] && items[s..][1..] == items[s + 1..];
    SkipEmpty(es, n, RoomAfter(room, n, w), w);
  }

  /** From byte b to byte c, one descriptor on. */
  lemma {:induction false} ItemsStep(es: seq<Entry>, w: Window, s: nat, items: seq<Item>, b: nat, c: nat)
    requires Solid(es) && s < |items| && items[s..] == Wrapped(Rest(es, b), RoomAt(b, w), w)
    requires c == b + items[s].len
    ensures items[s + 1..] == Wrapped(Rest(es, c), RoomAt(c, w), w)
  {
    var n, rest, room := items[s].len, Rest(es, b), RoomAt(b, w);
    RestMore(es, b, 0);
    DropOne(items, s, rest, room, w);
    RoomMoves(b, n, w);
    RestMore(es, b, n);
    SameItems(Less(rest, n), Rest(es, c), RoomAfter(room, n, w), RoomAt(c, w), w);
  }

  lemma {:induction false} SameItems(a: seq<Entry>, b: seq<Entry>, roomA: nat, roomB: nat, w: Window)
    requires a == b && roomA == roomB && 0 < roomA <= w.size
    ensures Wrapped(a, roomA, w) == Wrapped(b, roomB, w)
  {
  }

  /** The descriptors from s on are those of the rest of the list, from where the window then stands. */
  lemma {:induction false} ItemsFrom(es: seq<Entry>, w: Window, s: nat)
    requires Solid(es) && s <= |All(es, w)|
    ensures var b := Sent(All(es, w), s); All(es, w)[s..] == Wrapped(Rest(es, b), RoomAt(b, w), w)
  {
    var items := All(es, w);
    if s == 0 {
      RestNone(es);
      assert items[0..] == items;
    } else {
      ItemsFrom(es, w, s - 1);
      ItemsStep(es, w, s - 1, items, Sent(items, s - 1), Sent(items, s));
    }
  }

  // ------------------------------------------------------------- right passes

  predicate Distinct(bytes: seq<nat>) {
    bytes == [] || (bytes[0] !in bytes[1..] && Distinct(bytes[1..]))
  }

  lemma {:induction false} DistinctAt(bytes: seq<nat>, i: nat, j: nat)
    requires Distinct(bytes) && i < j < |bytes|
    ensures bytes[i] != bytes[j]
  {
    if i == 0 {
      assert bytes[j] == bytes[1..][j - 1];
    } else {
      DistinctAt(bytes[1..], i - 1, j - 1);
    }
  }

  /** The list of a mapped buffer: no entry is empty, lengths are 32-bit, no byte of memory occurs twice. */
  ghost predicate Mapped(es: seq<Entry>) { Solid(es) && Total(es) < U32 && Distinct(Bytes(es)) }

  /** The pairs the request owes from byte b to byte c. */
  function Owed(es: seq<Entry>, w: Window, b: nat, c: nat): seq<Pair>
    requires b <= c <= Total(es)
  {
    BytesLength(es);
    Ideal(Bytes(es), 0, w)[b..c]
  }

  /** Where a pass of n descriptors leaves the request. */
  function After(es: seq<Entry>, p: Progress, n: nat, w: Window): Progress
    requires p.idx <= |es| && n <= |PassItems(es, p, w)|
  {
    var sent := Sent(PassItems(es, p, w), n);
    Moved(p, sent, Locate(Walked(es, p), sent))
  }

  /** The descriptors a pass has slots for, from slot `at` of `slots` on. */
  function Count(es: seq<Entry>, p: Progress, at: nat, slots: nat, w: Window): (n: nat)
    requires p.idx <= |es| && at <= slots
    ensures n <= |PassItems(es, p, w)| && at + n <= slots
  {
    LinePackets.Min(|PassItems(es, p, w)|, slots - at)
  }

  /** A pass of n descriptors sends some bytes, and exactly the pairs the request owes next. */
  ghost predicate PassRight(es: seq<Entry>, p: Progress, n: nat, w: Window)
    requires p.idx <= |es| && n <= |PassItems(es, p, w)|
  {
    var items := PassItems(es, p, w);
    var to := p.offset + Sent(items, n);
    p.offset < to <= Total(es) && Pairs(items[..n]) == Owed(es, w, p.offset, to)
  }

  /** From progress p on, with the engine's next slot at `at`, every pass until the request is through is right. */
  ghost predicate SendsRight(es: seq<Entry>, p: Progress, at: nat, slots: nat, w: Window)
    requires p.idx <= |es| && at < slots
    decreases Total(es) - p.offset
  {
    p.offset >= Total(es) ||
    var n := Count(es, p, at, slots, w);
    var next := After(es, p, n, w);
    && PassRight(es, p, n, w) && p.offset < next.offset
    && SendsRight(es, next, Following(at, n, slots), slots, w)
  }

  /** All pairs the passes from p on send; a pass that takes the request no further is the last one counted. */
  function Run(es: seq<Entry>, p: Progress, at: nat, slots: nat, w: Window): seq<Pair>
    requires p.idx <= |es| && at < slots
    decreases Total(es) - p.offset
  {
    if p.offset >= Total(es) then []
    else
      var n := Count(es, p, at, slots, w);
      var next := After(es, p, n, w);
      Pairs(PassItems(es, p, w)[..n])
      + (if p.offset < next.offset then Run(es, next, Following(at, n, slots), slots, w) else [])
  }

  /** The numbers of descriptors after which passes end early: first, first + slots, ... below n. */
  function Stops(first: nat, slots: nat, n: nat): seq<nat>
    requires 0 < slots
    decreases n - first
  {
    if first >= n then [] else [first] + Stops(first + slots, slots, n)
  }

  /** A stop after s descriptors is inside the first entry, and the mask gives the remainder there. */
  predicate Continues(es: seq<Entry>, s: nat, w: Window)
    requires es != []
  {
    var items := All(es, w);
    && s <= |items| && Sent(items, s) < es[0].len
    && And(Sent(items, s), w.size - 1) == Residue(Sent(items, s), w.size)
  }

  function ProgressAt(es: seq<Entry>, s: nat, w: Window): Progress
    requires s <= |All(es, w)|
  {
    var b := Sent(All(es, w), s);
    var place := Locate(es, b);
    Progress(place.entry, place.skip, b)
  }

  lemma {:induction false} SentFrom(items: seq<Item>, s: nat, n: nat)
    requires s + n <= |items|
    ensures Sent(items[s..], n) == Sent(items, s + n) - Sent(items, s)
  {
    if n > 0 {
      SentFrom(items, s, n - 1);
    }
  }

  lemma {:induction false} SentGrows(es: seq<Entry>, w: Window, s: nat, t: nat)
    requires s < t <= |All(es, w)|
    ensures Sent(All(es, w), s) < Sent(All(es, w), t) <= Total(es)
    ensures t < |All(es, w)| ==> Sent(All(es, w), t) < Total(es)
  {
    InsideWindow(es, w.size, w);
    SentAll(es, w.size, w);
    SentBelow(All(es, w), s, t);
    if t < |All(es, w)| {
      SentBelow(All(es, w), t, |All(es, w)|);
    }
  }

  lemma {:induction false} SentBelow(items: seq<Item>, s: nat, t: nat)
    requires s < t <= |items| && forall i :: i in items ==> 0 < i.len
    ensures Sent(items, s) < Sent(items, t)
  {
    assert items[t - 1] in items;
    if s < t - 1 {
      SentBelow(items, s, t - 1);
    }
  }

  /** The descriptors from s to t carry exactly the pairs owed between those byte counts. */
  lemma {:induction false} PartOwed(es: seq<Entry>, w: Window, s: nat, t: nat)
    requires s <= t <= |All(es, w)|
    ensures var items := All(es, w);
            && Sent(items, s) <= Sent(items, t) <= Total(es)
            && Pairs(items[s..t]) == Owed(es, w, Sent(items, s), Sent(items, t))
  {
    var items := All(es, w);
    if s < t {
      SentGrows(es, w, s, t);
    }
    SentAll(es, w.size, w);
    if t < |items| {
      SentGrows(es, w, t, |items|);
    }
    WindowIsIdeal(es, w.size, w);
    SentPairs(items, s);
    SentPairs(items, t);
    assert items[..t] == items[..s] + items[s..t];
    PairsAppend(items[..s], items[s..t]);
    assert items == items[..t] + items[t..];
    PairsAppend(items[..t], items[t..]);
  }

  lemma {:induction false} WalkedFrom(es: seq<Entry>, b: nat)
    requires es != [] && b < es[0].len && Total(es) < U32
    ensures Locate(es, b) == Place(0, b) && Walked(es, Progress(0, b, b)) == Advance(es, b)
  {
    Small(es[0].len - b, U32);
    assert es[1..|es|] == es[1..];
  }

  lemma {:induction false} AfterMeans(es: seq<Entry>, p: Progress, n: nat, w: Window, part: seq<Item>, sent: nat)
    requires p.idx <= |es| && PassItems(es, p, w) == part && n <= |part| && sent == Sent(part, n)
    ensures After(es, p, n, w) == Moved(p, sent, Locate(Walked(es, p), sent))
  {
  }

  /** A pass that continues inside the first entry asks for exactly the descriptors not sent yet. */
  lemma {:induction false} PassContinues(es: seq<Entry>, s: nat, w: Window)
    requires Mapped(es) && es != [] && s <= |All(es, w)| && Continues(es, s, w)
    ensures var b, p := Sent(All(es, w), s), ProgressAt(es, s, w);
            && p == Progress(0, b, b) && Walked(es, p) == Advance(es, b) && PassItems(es, p, w) == All(es, w)[s..]
  {
    var b := Sent(All(es, w), s);
    ItemsFrom(es, w, s);
    WalkedFrom(es, b);
    assert Rest(es, b) == Advance(es, b) && StartRoom(b, w) == RoomAt(b, w);
  }

  /** From byte b inside the first entry on to byte c. */
  lemma MovedOn(es: seq<Entry>, b: nat, c: nat)
    requires es != [] && b < es[0].len && b <= c < U32
    ensures Moved(Progress(0, b, b), c - b, Locate(Advance(es, b), c - b))
         == Progress(Locate(es, c).entry, Locate(es, c).skip, c)
  {
    var rest := Advance(es, b);
    assert rest[0].len == es[0].len - b && rest[1..] == es[1..];
    Small(c, U32);
    if c < es[0].len {
      assert Locate(rest, c - b) == Place(0, c - b) && Locate(es, c) == Place(0, c);
    } else {
      assert c - b - rest[0].len == c - es[0].len;
      assert Locate(rest, c - b) == Locate(es, c) && Locate(es, c).entry > 0;
    }
  }

  lemma {:induction false} AfterFrom(es: seq<Entry>, p: Progress, n: nat, w: Window, part: seq<Item>, b: nat, c: nat)
    requires es != [] && b < es[0].len && b <= c < U32
    requires p == Progress(0, b, b) && PassItems(es, p, w) == part && Walked(es, p) == Advance(es, b)
    requires n <= |part| && Sent(part, n) == c - b
    ensures After(es, p, n, w) == Progress(Locate(es, c).entry, Locate(es, c).skip, c)
  {
    AfterMeans(es, p, n, w, part, c - b);
    MovedOn(es, b, c);
  }

  /** And it leaves the request where the list's own descriptors say. */
  lemma AfterIs(es: seq<Entry>, s: nat, t: nat, w: Window)
    requires Mapped(es) && es != [] && s < t <= |All(es, w)| && Continues(es, s, w)
    ensures PassItems(es, ProgressAt(es, s, w), w) == All(es, w)[s..]
    ensures After(es, ProgressAt(es, s, w), t - s, w) == ProgressAt(es, t, w)
  {
    var items := All(es, w);
    SentGrows(es, w, s, t);
    SentFrom(items, s, t - s);
    PassContinues(es, s, w);
    AfterFrom(es, ProgressAt(es, s, w), t - s, w, items[s..], Sent(items, s), Sent(items, t));
  }

  // ----------------------------------------------------------- a wrong pass

  /** The first descriptor of a list is for the first entry that has bytes. */
  lemma {:induction false} FirstItem(es: seq<Entry>, room: nat, w: Window)
    requires 0 < room <= w.size && Wrapped(es, room, w) != []
    ensures es != [] && Wrapped(es, room, w)[0].ep == w.base + w.size - room && Wrapped(es, room, w)[0].len > 0
    ensures es[0].len > 0 ==> Wrapped(es, room, w)[0].addr == es[0].addr
    ensures es[0].len == 0 ==> |es| > 1
    ensures es[0].len == 0 && es[1].len > 0 ==> Wrapped(es, room, w)[0].addr == es[1].addr
    decreases |es|
  {
    if es[0].len == 0 {
      FirstItem(es[1..], room, w);
    } else {
      WrappedOnce(es, room, w);
    }
  }

  /** The first address of a pass that resumes behind the first entry is not the one owed. */
  lemma {:induction false} WrongAddress(es: seq<Entry>, b: nat, offset: nat, w: Window)
    requires Mapped(es) && es != [] && es[0].len <= b < Total(es)
    ensures var place := Locate(es, b);
            var items := PassItems(es, Progress(place.entry, place.skip, offset), w);
            items != [] ==> |Bytes(es)| == Total(es) && items[0].addr != Bytes(es)[b]
  {
    BytesLength(es);
    ByteAt(es, b);
    ByteAt(es, 0);
    var place := Locate(es, b);
    var p := Progress(place.entry, place.skip, offset);
    var walked := Walked(es, p);
    if PassItems(es, p, w) != [] {
      FirstItem(walked, StartRoom(offset, w), w);
      if walked[0].len == 0 {
        SameLength(es, place.skip);
        ByteAt(es, es[0].len);
        DistinctAt(Bytes(es), es[0].len, b);
        assert walked[1] == es[1];
      } else {
        DistinctAt(Bytes(es), 0, b - place.skip);
      }
    }
  }

  /** The walk's head is empty only when the offset is the first entry's length. */
  lemma SameLength(es: seq<Entry>, skip: nat)
    requires es != [] && es[0].len < U32 && skip < U32 && (es[0].len - skip) % U32 == 0
    ensures skip == es[0].len
  {
  }

  /** A wrong address or a wrong window offset shows in the first pair already. */
  lemma {:induction false} WrongStart(es: seq<Entry>, b: nat, w: Window)
    requires Mapped(es) && es != [] && b < Total(es)
    requires es[0].len <= b || And(b, w.size - 1) != Residue(b, w.size)
    ensures var items := PassItems(es, Progress(Locate(es, b).entry, Locate(es, b).skip, b), w);
            |Bytes(es)| == Total(es)
            && (items != [] ==> Pair(items[0].addr, items[0].ep) != Pair(Bytes(es)[b], w.base + Residue(b, w.size)))
  {
    BytesLength(es);
    var p := Progress(Locate(es, b).entry, Locate(es, b).skip, b);
    if PassItems(es, p, w) != [] {
      FirstItem(Walked(es, p), StartRoom(b, w), w);
      if es[0].len <= b {
        WrongAddress(es, b, b, w);
      }
    }
  }

  lemma StartsAt(items: seq<Item>, n: nat)
    requires 0 < n <= |items| && items[0].len > 0
    ensures Pairs(items[..n]) != [] && Pairs(items[..n])[0] == Pair(items[0].addr, items[0].ep)
  {
  }

  lemma {:induction false} OwedStart(es: seq<Entry>, w: Window, b: nat, c: nat)
    requires b < c <= Total(es)
    ensures |Bytes(es)| == Total(es) && Owed(es, w, b, c)[0] == Pair(Bytes(es)[b], w.base + Residue(b, w.size))
  {
    BytesLength(es);
    ResidueIs(b, w.size);
  }

  lemma {:induction false} NotRight(es: seq<Entry>, b: nat, n: nat, w: Window)
    requires Mapped(es) && es != [] && b < Total(es)
    requires es[0].len <= b || And(b, w.size - 1) != Residue(b, w.size)
    requires n <= |PassItems(es, Progress(Locate(es, b).entry, Locate(es, b).skip, b), w)|
    ensures !PassRight(es, Progress(Locate(es, b).entry, Locate(es, b).skip, b), n, w)
  {
    var p := Progress(Locate(es, b).entry, Locate(es, b).skip, b);
    var items := PassItems(es, p, w);
    WrongStart(es, b, w);
    if PassRight(es, p, n, w) {
      assert n > 0;
      FirstItem(Walked(es, p), StartRoom(b, w), w);
      StartsAt(items, n);
      OwedStart(es, w, b, b + Sent(items, n));
    }
  }

  /** A stop that is not inside the first entry, or where the mask fails, is continued wrongly. */
  lemma {:induction false} WrongPass(es: seq<Entry>, s: nat, at: nat, slots: nat, w: Window)
    requires Mapped(es) && es != [] && s < |All(es, w)| && at < slots && !Continues(es, s, w)
    ensures !SendsRight(es, ProgressAt(es, s, w), at, slots, w)
  {
    var p := ProgressAt(es, s, w);
    SentGrows(es, w, s, |All(es, w)|);
    NotRight(es, p.offset, Count(es, p, at, slots, w), w);
  }

  // ------------------------------------------------------------ all passes

  lemma {:induction false} PassRightIf(es: seq<Entry>, p: Progress, n: nat, w: Window, part: seq<Item>, to: nat)
    requires p.idx <= |es| && PassItems(es, p, w) == part && n <= |part|
    requires p.offset < to <= Total(es) && to == p.offset + Sent(part, n)
    requires Pairs(part[..n]) == Owed(es, w, p.offset, to)
    ensures PassRight(es, p, n, w)
  {
  }

  lemma PassIsRight(es: seq<Entry>, s: nat, t: nat, w: Window)
    requires Mapped(es) && es != [] && s < t <= |All(es, w)| && Continues(es, s, w)
    ensures var p := ProgressAt(es, s, w); PassItems(es, p, w) == All(es, w)[s..] && PassRight(es, p, t - s, w)
  {
    var items, part := All(es, w), All(es, w)[s..];
    PassContinues(es, s, w);
    SentGrows(es, w, s, t);
    SentFrom(items, s, t - s);
    PartOwed(es, w, s, t);
    assert part[..t - s] == items[s..t];
    PassRightIf(es, ProgressAt(es, s, w), t - s, w, part, Sent(items, t));
  }

  /** A pass from a stop where the driver goes on correctly to the next stop. */
  lemma RightPass(es: seq<Entry>, s: nat, t: nat, w: Window)
    requires Mapped(es) && es != [] && s < t <= |All(es, w)| && Continues(es, s, w)
    ensures var p := ProgressAt(es, s, w);
            && PassItems(es, p, w) == All(es, w)[s..]
            && PassRight(es, p, t - s, w) && After(es, p, t - s, w) == ProgressAt(es, t, w)
            && p.offset < ProgressAt(es, t, w).offset
  {
    PassIsRight(es, s, t, w);
    AfterIs(es, s, t, w);
    SentGrows(es, w, s, t);
  }

  lemma {:induction false} GoesOn(es: seq<Entry>, p: Progress, n: nat, next: Progress, at: nat, at': nat, slots: nat,
                                  w: Window)
    requires p.idx <= |es| && next.idx <= |es| && at < slots && at + n <= slots && at' == Following(at, n, slots)
    requires n == Count(es, p, at, slots, w) && p.offset < Total(es) && p.offset < next.offset
    requires PassRight(es, p, n, w) && After(es, p, n, w) == next
    ensures SendsRight(es, p, at, slots, w) <==> SendsRight(es, next, at', slots, w)
  {
  }

  lemma CountIs(es: seq<Entry>, p: Progress, at: nat, slots: nat, w: Window, part: seq<Item>)
    requires p.idx <= |es| && at <= slots && PassItems(es, p, w) == part
    ensures Count(es, p, at, slots, w) == LinePackets.Min(|part|, slots - at)
  {
  }

  /** The descriptors a pass takes from a stop where the driver goes on correctly. */
  lemma CountFrom(es: seq<Entry>, s: nat, t: nat, at: nat, slots: nat, w: Window)
    requires Mapped(es) && es != [] && s < t <= |All(es, w)| && at <= slots && Continues(es, s, w)
    requires t - s == LinePackets.Min(|All(es, w)| - s, slots - at)
    ensures Count(es, ProgressAt(es, s, w), at, slots, w) == t - s
  {
    PassContinues(es, s, w);
    CountIs(es, ProgressAt(es, s, w), at, slots, w, All(es, w)[s..]);
  }

  /** The pass from one stop to the next is right, ends there, and takes the request on. */
  lemma StopToStop(es: seq<Entry>, s: nat, t: nat, w: Window, p: Progress, next: Progress)
    requires Mapped(es) && es != [] && s < t <= |All(es, w)| && Continues(es, s, w)
    requires p == ProgressAt(es, s, w) && next == ProgressAt(es, t, w)
    ensures p.idx <= |es| && next.idx <= |es| && p.offset < next.offset && p.offset < Total(es)
    ensures t - s <= |PassItems(es, p, w)| && PassRight(es, p, t - s, w) && After(es, p, t - s, w) == next
  {
    RightPass(es, s, t, w);
    SentGrows(es, w, s, t);
  }

  /** From one stop to the next: the first pass is right, so the passes are if the later ones are. */
  lemma {:induction false} PassGoesOn(es: seq<Entry>, s: nat, t: nat, at: nat, slots: nat, w: Window)
    requires Mapped(es) && es != [] && s < t <= |All(es, w)| && at < slots && Continues(es, s, w)
    requires t - s == LinePackets.Min(|All(es, w)| - s, slots - at)
    ensures SendsRight(es, ProgressAt(es, s, w), at, slots, w)
            <==> SendsRight(es, ProgressAt(es, t, w), Following(at, t - s, slots), slots, w)
  {
    var p, next := ProgressAt(es, s, w), ProgressAt(es, t, w);
    StopToStop(es, s, t, w, p, next);
    CountFrom(es, s, t, at, slots, w);
    GoesOn(es, p, t - s, next, at, Following(at, t - s, slots), slots, w);
  }

  /** The pass that finishes the list. */
  lemma {:induction false} LastPass(es: seq<Entry>, s: nat, at: nat, slots: nat, w: Window, n: nat)
    requires Mapped(es) && es != [] && n == |All(es, w)| && s < n <= s + slots - at && at < slots && Continues(es, s, w)
    ensures SendsRight(es, ProgressAt(es, s, w), at, slots, w)
  {
    PassGoesOn(es, s, n, at, slots, w);
    SentAll(es, w.size, w);
  }

  /** A pass that fills the ring. */
  lemma {:induction false} FullPass(es: seq<Entry>, s: nat, t: nat, at: nat, slots: nat, w: Window)
    requires Mapped(es) && es != [] && at < slots && t == s + slots - at < |All(es, w)| && Continues(es, s, w)
    ensures SendsRight(es, ProgressAt(es, s, w), at, slots, w) <==> SendsRight(es, ProgressAt(es, t, w), 0, slots, w)
  {
    PassGoesOn(es, s, t, at, slots, w);
  }

  /** The driver goes on correctly after first, first + slots, ... descriptors. */
  predicate AllContinue(es: seq<Entry>, first: nat, slots: nat, w: Window)
    requires es != [] && 0 < slots
    decreases |All(es, w)| - first
  {
    first >= |All(es, w)| || (Continues(es, first, w) && AllContinue(es, first + slots, slots, w))
  }

  /** A full pass to a stop where the driver goes on correctly. */
  lemma FullAndOn(es: seq<Entry>, s: nat, t: nat, at: nat, slots: nat, w: Window, rest: bool)
    requires Mapped(es) && es != [] && at < slots && t == s + slots - at < |All(es, w)| && Continues(es, s, w)
    requires Continues(es, t, w) && rest == SendsRight(es, ProgressAt(es, t, w), 0, slots, w)
    requires rest == AllContinue(es, t + slots, slots, w)
    ensures SendsRight(es, ProgressAt(es, s, w), at, slots, w) == rest == AllContinue(es, t, slots, w)
  {
    FullPass(es, s, t, at, slots, w);
  }

  /** A full pass to a stop where it does not. */
  lemma {:induction false} FullAndWrong(es: seq<Entry>, s: nat, t: nat, at: nat, slots: nat, w: Window)
    requires Mapped(es) && es != [] && at < slots && t == s + slots - at < |All(es, w)| && Continues(es, s, w)
    requires !Continues(es, t, w)
    ensures !SendsRight(es, ProgressAt(es, s, w), at, slots, w) && !AllContinue(es, t, slots, w)
  {
    FullPass(es, s, t, at, slots, w);
    WrongPass(es, t, 0, slots, w);
  }

  /** From a correct stop on, the passes are right exactly if every further stop is a correct one. */
  lemma {:induction false} PassesRight(es: seq<Entry>, s: nat, t: nat, at: nat, slots: nat, w: Window)
    requires Mapped(es) && es != [] && s < |All(es, w)| && at < slots && Continues(es, s, w) && t == s + slots - at
    ensures SendsRight(es, ProgressAt(es, s, w), at, slots, w) <==> AllContinue(es, t, slots, w)
    decreases |All(es, w)| - s
  {
    if t >= |All(es, w)| {
      LastPass(es, s, at, slots, w, |All(es, w)|);
    } else if Continues(es, t, w) {
      PassesRight(es, t, t + slots, 0, slots, w);
      FullAndOn(es, s, t, at, slots, w, AllContinue(es, t + slots, slots, w));
    } else {
      FullAndWrong(es, s, t, at, slots, w);
    }
  }

  // ------------------------------------------------- the test for the caller

  /** The first entry's descriptors come first. */
  lemma {:induction false} FirstEntry(es: seq<Entry>, room: nat, w: Window)
    requires es != [] && 0 < room <= w.size
    ensures Wrapped([es[0]], room, w) <= Wrapped(es, room, w)
    decreases es[0].len
  {
    if es[0].len > 0 {
      var n := LinePackets.Step(es[0].len, room, w.max);
      WrappedOnce(es, room, w);
      WrappedOnce([es[0]], room, w);
      FirstEntry(Advance(es, n), RoomAfter(room, n, w), w);
      assert Advance([es[0]], n) == [Advance(es, n)[0]];
    } else {
      assert Wrapped([es[0]], room, w) == [];
    }
  }

  lemma {:induction false} SentPrefix(a: seq<Item>, b: seq<Item>, n: nat)
    requires a <= b && n <= |a|
    ensures Sent(a, n) == Sent(b, n)
  {
    if n > 0 {
      SentPrefix(a, b, n - 1);
    }
  }

  /** Descriptors the first entry alone takes. */
  function FirstCount(es: seq<Entry>, w: Window): nat
    requires es != []
  {
    |All([es[0]], w)|
  }

  /** Stopping inside the first entry is stopping before its last descriptor. */
  lemma {:induction false} InsideFirst(es: seq<Entry>, s: nat, w: Window)
    requires es != [] && s <= |All(es, w)|
    ensures Sent(All(es, w), s) < es[0].len <==> s < FirstCount(es, w)
  {
    var all, first := All(es, w), All([es[0]], w);
    FirstEntry(es, w.size, w);
    SentAll([es[0]], w.size, w);
    assert Total([es[0]]) == es[0].len;
    SentPrefix(first, all, |first|);
    if s < |first| {
      SentGrows(es, w, s, |first|);
    } else if |first| < s {
      SentGrows(es, w, |first|, s);
    }
  }

  /** Every stop comes before the first entry's last descriptor. */
  ghost predicate AllInFirst(es: seq<Entry>, stops: seq<nat>, w: Window)
    requires es != []
  {
    forall i :: 0 <= i < |stops| ==> stops[i] < FirstCount(es, w)
  }

  /** After s descriptors the mask gives the remainder. */
  predicate MaskGives(es: seq<Entry>, s: nat, w: Window) {
    var items := All(es, w);
    s <= |items| && And(Sent(items, s), w.size - 1) == Sent(items, s) % w.size
  }

  ghost predicate AllMasked(es: seq<Entry>, stops: seq<nat>, w: Window) {
    forall i :: 0 <= i < |stops| ==> MaskGives(es, stops[i], w)
  }

  lemma {:induction false} ContinueIs(es: seq<Entry>, first: nat, slots: nat, w: Window)
    requires es != [] && 0 < slots
    ensures var stops := Stops(first, slots, |All(es, w)|);
            AllContinue(es, first, slots, w) <==> AllInFirst(es, stops, w) && AllMasked(es, stops, w)
    decreases |All(es, w)| - first
  {
    if first < |All(es, w)| {
      InsideFirst(es, first, w);
      ResidueIs(Sent(All(es, w), first), w.size);
      ContinueIs(es, first + slots, slots, w);
      var more := Stops(first + slots, slots, |All(es, w)|);
      AllSplit(es, first, more, w);
    }
  }

  lemma AllSplit(es: seq<Entry>, first: nat, more: seq<nat>, w: Window)
    requires es != []
    ensures AllInFirst(es, [first] + more, w) <==> first < FirstCount(es, w) && AllInFirst(es, more, w)
    ensures AllMasked(es, [first] + more, w) <==> MaskGives(es, first, w) && AllMasked(es, more, w)
  {
    var all := [first] + more;
    assert all[0] == first && forall i :: 0 <= i < |more| ==> all[i + 1] == more[i];
  }

  /** A right pass takes the request on. */
  lemma {:induction false} RightMoves(es: seq<Entry>, p: Progress, n: nat, w: Window)
    requires p.idx <= |es| && n <= |PassItems(es, p, w)| && PassRight(es, p, n, w) && Total(es) < U32
    ensures var next := After(es, p, n, w);
            && next.idx <= |es| && p.offset < next.offset <= Total(es)
            && Pairs(PassItems(es, p, w)[..n]) == Owed(es, w, p.offset, next.offset)
  {
    Small(p.offset + Sent(PassItems(es, p, w), n), U32);
  }

  lemma {:induction false} OwedMore(es: seq<Entry>, w: Window, b: nat, c: nat, d: nat)
    requires b <= c <= d <= Total(es)
    ensures |Owed(es, w, b, c)| == c - b && Owed(es, w, b, c) + Owed(es, w, c, d) == Owed(es, w, b, d)
  {
    BytesLength(es);
  }

  lemma {:induction false} OwedAll(es: seq<Entry>, w: Window)
    ensures Owed(es, w, 0, 0) == [] && Owed(es, w, 0, Total(es)) == Ideal(Bytes(es), 0, w)
    ensures Owed(es, w, Total(es), Total(es)) == []
  {
    BytesLength(es);
  }

  /** Right passes together send all that is owed. */
  lemma {:induction false} RightSends(es: seq<Entry>, p: Progress, at: nat, slots: nat, w: Window)
    requires Total(es) < U32 && p.idx <= |es| && at < slots && p.offset <= Total(es) && SendsRight(es, p, at, slots, w)
    ensures Run(es, p, at, slots, w) == Owed(es, w, p.offset, Total(es))
    decreases Total(es) - p.offset
  {
    if p.offset == Total(es) {
      OwedMore(es, w, p.offset, p.offset, p.offset);
    } else {
      var n := Count(es, p, at, slots, w);
      var next := After(es, p, n, w);
      RightMoves(es, p, n, w);
      RightSends(es, next, Following(at, n, slots), slots, w);
      OwedMore(es, w, p.offset, next.offset, Total(es));
    }
  }

  lemma Parts<T>(a: seq<T>, b: seq<T>, c: seq<T>, d: seq<T>)
    requires |a| == |c| && a + b == c + d
    ensures a == c && b == d
  {
    assert (a + b)[..|a|] == a && (c + d)[..|a|] == c;
    assert (a + b)[|a|..] == b && (c + d)[|a|..] == d;
  }

  /** Whatever comes first of what is owed is owed next, and what follows it later. */
  lemma {:induction false} OwedSplits(es: seq<Entry>, w: Window, b: nat, first: seq<Pair>, rest: seq<Pair>)
    requires b <= Total(es) && first + rest == Owed(es, w, b, Total(es))
    ensures var to := b + |first|;
            to <= Total(es) && first == Owed(es, w, b, to) && rest == Owed(es, w, to, Total(es))
  {
    var to := b + |first|;
    OwedMore(es, w, b, Total(es), Total(es));
    assert |first + rest| == |first| + |rest|;
    OwedMore(es, w, b, to, Total(es));
    Parts(first, rest, Owed(es, w, b, to), Owed(es, w, to, Total(es)));
  }

  /** The first of several passes that send what is owed is right. */
  lemma {:induction false} FirstRight(es: seq<Entry>, p: Progress, n: nat, w: Window, rest: seq<Pair>)
    requires Total(es) < U32 && p.idx <= |es| && n <= |PassItems(es, p, w)| && p.offset < Total(es)
    requires Pairs(PassItems(es, p, w)[..n]) + rest == Owed(es, w, p.offset, Total(es))
    requires After(es, p, n, w).offset <= p.offset ==> rest == []
    ensures PassRight(es, p, n, w)
    ensures rest == Owed(es, w, After(es, p, n, w).offset, Total(es))
  {
    var items := PassItems(es, p, w);
    var to := p.offset + Sent(items, n);
    SentPairs(items, n);
    OwedSplits(es, w, p.offset, Pairs(items[..n]), rest);
    OwedMore(es, w, to, Total(es), Total(es));
    Small(to, U32);
  }

  /** And passes that send all that is owed are right. */
  lemma {:induction false} SendsAllRight(es: seq<Entry>, p: Progress, at: nat, slots: nat, w: Window)
    requires Total(es) < U32 && p.idx <= |es| && at < slots && p.offset <= Total(es)
    requires Run(es, p, at, slots, w) == Owed(es, w, p.offset, Total(es))
    ensures SendsRight(es, p, at, slots, w)
    decreases Total(es) - p.offset
  {
    if p.offset < Total(es) {
      var n := Count(es, p, at, slots, w);
      var next := After(es, p, n, w);
      var rest := if p.offset < next.offset then Run(es, next, Following(at, n, slots), slots, w) else [];
      FirstRight(es, p, n, w, rest);
      RightMoves(es, p, n, w);
      SendsAllRight(es, next, Following(at, n, slots), slots, w);
    }
  }

  /**
   All passes together send exactly the list, byte k for base + k mod size, if
   and only if every pass but the last stops before the first entry's last
   descriptor and at a byte where the mask gives the remainder: a test on the
   list, the limit and the free slots.
   */
  lemma {:induction false} TransferRight(es: seq<Entry>, at: nat, slots: nat, w: Window)
    requires Mapped(es) && es != [] && at < slots
    ensures var stops := Stops(slots - at, slots, |All(es, w)|);
            Run(es, START, at, slots, w) == Ideal(Bytes(es), 0, w)
            <==> AllInFirst(es, stops, w) && AllMasked(es, stops, w)
  {
    SentAll(es, w.size, w);
    assert ProgressAt(es, 0, w) == START;
    ContinueIs(es, slots - at, slots, w);
    PassesRight(es, 0, slots - at, at, slots, w);
    RunIsRight(es, at, slots, w);
  }

  lemma {:induction false} RunIsRight(es: seq<Entry>, at: nat, slots: nat, w: Window)
    requires Total(es) < U32 && at < slots
    ensures Run(es, START, at, slots, w) == Ideal(Bytes(es), 0, w) <==> SendsRight(es, START, at, slots, w)
  {
    OwedAll(es, w);
    if SendsRight(es, START, at, slots, w) {
      RightSends(es, START, at, slots, w);
    }
    if Run(es, START, at, slots, w) == Ideal(Bytes(es), 0, w) {
      SendsAllRight(es, START, at, slots, w);
    }
  }

  /** For a window of a power of two only the place of the stops matters. */
  lemma {:induction false} PowerRight(es: seq<Entry>, at: nat, slots: nat, w: Window)
    requires Mapped(es) && es != [] && at < slots && And(w.size, w.size - 1) == 0
    ensures Run(es, START, at, slots, w) == Ideal(Bytes(es), 0, w)
       <==> AllInFirst(es, Stops(slots - at, slots, |All(es, w)|), w)
  {
    PowerMasks(es, slots - at, slots, w);
    TransferRight(es, at, slots, w);
  }

  lemma {:induction false} PowerMasks(es: seq<Entry>, first: nat, slots: nat, w: Window)
    requires es != [] && 0 < slots && And(w.size, w.size - 1) == 0
    ensures AllMasked(es, Stops(first, slots, |All(es, w)|), w)
    decreases |All(es, w)| - first
  {
    if first < |All(es, w)| {
      MaskOfPower(Sent(All(es, w), first), w.size);
      PowerMasks(es, first + slots, slots, w);
      AllSplit(es, first, Stops(first + slots, slots, |All(es, w)|), w);
    }
  }

  // -------------------------------------- how many descriptors an entry takes

  /** Bytes that fit the window's room. */
  lemma {:induction false} CountInRoom(addr: nat, len: nat, room: nat, w: Window)
    requires len <= room <= w.size && 0 < room
    ensures |Wrapped([Entry(addr, len)], room, w)| == CeilDiv(len, w.max)
    decreases len
  {
    var es := [Entry(addr, len)];
    if len == 0 {
      CeilOfNone(w.max);
      assert Wrapped(es[1..], room, w) == [];
    } else {
      var n := LinePackets.Step(len, room, w.max);
      WrappedOnce(es, room, w);
      assert Advance(es, n) == [Entry(addr + n, len - n)];
      CountInRoom(addr + n, len - n, RoomAfter(room, n, w), w);
      if n == len {
        CeilOfNone(w.max);
        CeilOfOne(len, w.max);
      } else {
        CeilStep(len - w.max, w.max);
      }
    }
  }

  /** One descriptor of an entry alone. */
  lemma {:induction false} CountOne(addr: nat, len: nat, room: nat, w: Window, n: nat)
    requires 0 < len && 0 < room <= w.size && n == LinePackets.Step(len, room, w.max)
    ensures |Wrapped([Entry(addr, len)], room, w)|
         == 1 + |Wrapped([Entry(addr + n, len - n)], RoomAfter(room, n, w), w)|
  {
    WrappedOnce([Entry(addr, len)], room, w);
    assert Advance([Entry(addr, len)], n) == [Entry(addr + n, len - n)];
  }

  /** Bytes that fill the window's room and go on from its base, as the entry `more`. */
  lemma {:induction false} CountPastEnd(addr: nat, len: nat, room: nat, w: Window, more: Entry)
    requires 0 < room < len && room <= w.size && more == Entry(addr + room, len - room)
    ensures |Wrapped([Entry(addr, len)], room, w)| == CeilDiv(room, w.max) + |Wrapped([more], w.size, w)|
    decreases room
  {
    if room <= w.max {
      CountOne(addr, len, room, w, room);
      CeilOfOne(room, w.max);
    } else {
      CountOne(addr, len, room, w, w.max);
      CountPastEnd(addr + w.max, len - w.max, room - w.max, w, more);
      CeilStep(room - w.max, w.max);
    }
  }

  /** From a fresh start an entry takes ceil(size / max) descriptors a whole window, and the rest for what remains. */
  lemma {:induction false} EntryCount(addr: nat, len: nat, w: Window)
    ensures |All([Entry(addr, len)], w)| == len / w.size * CeilDiv(w.size, w.max) + CeilDiv(len % w.size, w.max)
    decreases len
  {
    if len < w.size {
      CountInRoom(addr, len, w.size, w);
      Small(len, w.size);
    } else {
      EntryCount(addr + w.size, len - w.size, w);
      WholeWindow(addr, len, w);
      DivOneMore(len - w.size, w.size);
      OneMore((len - w.size) / w.size, CeilDiv(w.size, w.max));
    }
  }

  lemma WholeWindow(addr: nat, len: nat, w: Window)
    requires w.size <= len
    ensures |All([Entry(addr, len)], w)| == CeilDiv(w.size, w.max) + |All([Entry(addr + w.size, len - w.size)], w)|
  {
    if len == w.size {
      CountInRoom(addr, len, w.size, w);
      CountInRoom(addr + w.size, 0, w.size, w);
      CeilOfNone(w.max);
    } else {
      CountPastEnd(addr, len, w.size, w, Entry(addr + w.size, len - w.size));
    }
  }

  // ----------------------------------------------------- the transfer itself

  /** The written slots read back as the items. */
  lemma WroteReads(j: Job, now: seq<Desc>, n: nat)
    requires Wrote(j, now, n)
    ensures ReadAll(now[j.at..j.at + n], j.toDevice) == j.items[..n]
  {
    var read := ReadAll(now[j.at..j.at + n], j.toDevice);
    forall k | 0 <= k < n
      ensures read[k] == j.items[k]
    {
      assert now[j.at + k] == Says(j.was[j.at + k], j.items[k], j.toDevice);
    }
  }

  /** A fresh request walks the whole list. */
  lemma {:induction false} FreshItems(es: seq<Entry>, w: Window)
    requires Total(es) < U32
    ensures PassItems(es, START, w) == All(es, w) && Walked(es, START) == es
  {
    if es != [] {
      Small(es[0].len, U32);
      assert es == [es[0]] + es[1..|es|];
    }
  }

  /** What the engine reads in the slots of a pass. */
  function PassRead(ring: seq<Desc>, at: nat, count: nat, toDevice: bool): seq<Item>
    requires at + count <= |ring|
  {
    ReadAll(ring[at..at + count], toDevice)
  }

  /** The slots of a pass read back as the items it was to write. */
  lemma PassReads(es: seq<Entry>, w: Window, p: Progress, next: Progress, at: nat, was: seq<Desc>,
                  now: seq<Desc>, toDevice: bool, count: nat, place: Place)
    requires p.idx <= |es| && Passed(es, w, p, next, at, was, now, toDevice, count, place)
    ensures count <= |PassItems(es, p, w)| && at + count <= |now| == |was|
    ensures PassRead(now, at, count, toDevice) == PassItems(es, p, w)[..count]
    ensures forall i :: 0 <= i < |now| && !(at <= i < at + count) ==> now[i] == was[i]
  {
    WroteReads(Job(was, at, Walked(es, p), PassItems(es, p, w), w, toDevice), now, count);
  }

  /** A first pass with room for the whole list takes it all. */
  lemma {:induction false} FreshDone(es: seq<Entry>, w: Window, next: Progress, at: nat, was: seq<Desc>, now: seq<Desc>,
                                     toDevice: bool, count: nat, place: Place)
    requires Total(es) < U32 && Passed(es, w, START, next, at, was, now, toDevice, count, place)
    requires |All(es, w)| <= |was| - at
    ensures PassItems(es, START, w) == All(es, w) && count == |All(es, w)| && next.offset == Total(es)
  {
    FreshItems(es, w);
    SentAll(es, w.size, w);
    Small(Total(es), U32);
  }

  /**
   A list that fits the ring is sent by the first pass: the slots it wrote say
   that byte k goes to base + k mod size, no descriptor leaves the window, all
   other slots are as before, and the request is through.
   */
  lemma {:induction false} OnePass(es: seq<Entry>, w: Window, next: Progress, at: nat, was: seq<Desc>, now: seq<Desc>,
                                   toDevice: bool, count: nat, place: Place)
    requires Total(es) < U32 && Passed(es, w, START, next, at, was, now, toDevice, count, place)
    requires |All(es, w)| <= |was| - at
    ensures count == |All(es, w)| && at + count <= |now| == |was| && next.offset == Total(es)
    ensures var read := PassRead(now, at, count, toDevice);
            Pairs(read) == Ideal(Bytes(es), 0, w) && forall i :: i in read ==> Inside(i, w)
    ensures forall i :: 0 <= i < |now| && !(at <= i < at + count) ==> now[i] == was[i]
  {
    FreshDone(es, w, next, at, was, now, toDevice, count, place);
    PassReads(es, w, START, next, at, was, now, toDevice, count, place);
    assert All(es, w)[..|All(es, w)|] == All(es, w);
    WindowIsIdeal(es, w.size, w);
    InsideWindow(es, w.size, w);
  }

  /** A pass is a turn of the run: what it leaves in its slots is the next part of what the run sends. */
  lemma {:induction false} PassIsTurn(es: seq<Entry>, w: Window, p: Progress, next: Progress, at: nat, was: seq<Desc>,
                                      now: seq<Desc>, toDevice: bool, count: nat, place: Place)
    requires Solid(es) && p.idx <= |es| && p.offset < Total(es) && at < |was|
    requires Passed(es, w, p, next, at, was, now, toDevice, count, place)
    ensures at + count <= |now| == |was| && count == Count(es, p, at, |was|, w) && next == After(es, p, count, w)
    ensures Run(es, p, at, |was|, w)
         == Pairs(PassRead(now, at, count, toDevice))
            + (if p.offset < next.offset then Run(es, next, Following(at, count, |was|), |was|, w) else [])
  {
    PassReads(es, w, p, next, at, was, now, toDevice, count, place);
  }

  /** The ring with items in the slots from `at` on. */
  function Filled(ring: seq<Desc>, at: nat, items: seq<Item>, toDevice: bool): (now: seq<Desc>)
    requires at + |items| <= |ring|
    ensures |now| == |ring|
  {
    seq(|ring|, i requires 0 <= i < |ring| =>
      if at <= i < at + |items| then Says(ring[i], items[i - at], toDevice) else ring[i])
  }

  /** The ring the passes from p on leave behind. */
  function RunRing(ring: seq<Desc>, es: seq<Entry>, p: Progress, at: nat, w: Window, toDevice: bool): seq<Desc>
    requires p.idx <= |es| && at < |ring|
    decreases Total(es) - p.offset
  {
    if p.offset >= Total(es) then ring
    else
      var n := Count(es, p, at, |ring|, w);
      var next, now := After(es, p, n, w), Filled(ring, at, PassItems(es, p, w)[..n], toDevice);
      if p.offset < next.offset then RunRing(now, es, next, Following(at, n, |ring|), w, toDevice) else now
  }

  lemma PassFills(es: seq<Entry>, w: Window, p: Progress, next: Progress, at: nat, was: seq<Desc>,
                  now: seq<Desc>, toDevice: bool, count: nat, place: Place)
    requires p.idx <= |es| && Passed(es, w, p, next, at, was, now, toDevice, count, place)
    ensures count <= |PassItems(es, p, w)| && now == Filled(was, at, PassItems(es, p, w)[..count], toDevice)
  {
  }

  /** One pass of a transfer that goes right. */
  lemma {:induction false} StepRight(es: seq<Entry>, w: Window, p: Progress, next: Progress, at: nat, was: seq<Desc>,
                                     now: seq<Desc>, toDevice: bool, count: nat, place: Place)
    requires Solid(es) && Total(es) < U32 && p.idx <= |es| && p.offset < Total(es)
    requires Passed(es, w, p, next, at, was, now, toDevice, count, place)
    requires at < |was| && SendsRight(es, p, at, |was|, w)
    ensures at + count <= |now| == |was| && next.idx <= |es| && p.offset < next.offset <= Total(es)
    ensures SendsRight(es, next, Following(at, count, |was|), |was|, w)
    ensures RunRing(was, es, p, at, w, toDevice) == RunRing(now, es, next, Following(at, count, |was|), w, toDevice)
  {
    PassIsTurn(es, w, p, next, at, was, now, toDevice, count, place);
    RightMoves(es, p, count, w);
    PassFills(es, w, p, next, at, was, now, toDevice, count, place);
  }

  /**
   The loop of `xdma_xfer_aperture` on a list its passes can send: it ends
   with the request through and the ring as the passes leave it.
   */
  method Transfer(ring: array<Desc>, start: nat, es: seq<Entry>, w: Window, toDevice: bool)
    returns (r: ApertureRequest)
    requires Solid(es) && Total(es) < U32 && start < ring.Length
    requires Run(es, START, start, ring.Length, w) == Ideal(Bytes(es), 0, w)
    modifies ring
    ensures fresh(r) && r.es == es && r.w == w && r.offset == Total(es)
    ensures ring[..] == RunRing(old(ring[..]), es, START, start, w, toDevice)
  {
    r := new ApertureRequest(es, w);
    var at: nat := start;
    RunIsRight(es, start, ring.Length, w);
    while r.offset < Total(es)
      invariant r.es == es && r.w == w && r.sgIdx <= |es| && at < ring.Length && r.offset <= Total(es)
      invariant SendsRight(es, r.State(), at, ring.Length, w)
      invariant RunRing(ring[..], es, r.State(), at, w, toDevice)
             == RunRing(old(ring[..]), es, START, start, w, toDevice)
      decreases Total(es) - r.offset
    {
      ghost var p, was := r.State(), ring[..];
      var count;
      ghost var place;
      count, place := FillPass(ring, at, r, toDevice);
      StepRight(es, w, p, r.State(), at, was, ring[..], toDevice, count, place);
      FollowingIsModulo(at, count, ring.Length);
      at := (at + count) % ring.Length;
    }
  }

  // ---------------------------------------------------------------- an example

  lemma {:induction false} OneByte(addr: nat, rest: seq<Entry>, room: nat, w: Window)
    requires w == Region(0, 2, 2) && 0 < room <= 2
    ensures Wrapped([Entry(addr, 1)] + rest, room, w)
         == [Item(addr, 1, 2 - room)] + Wrapped(rest, RoomAfter(room, 1, w), w)
  {
    var es := [Entry(addr, 1)] + rest;
    WrappedOnce(es, room, w);
    assert Advance(es, 1)[1..] == rest;
  }

  /** Two one-byte entries, one slot left: the second pass sends the first byte again. */
  lemma SecondPassExample()
    ensures var es, w := [Entry(0, 1), Entry(9, 1)], Region(0, 2, 2);
            && All(es, w) == [Item(0, 1, 0), Item(9, 1, 1)]
            && After(es, START, 1, w) == Progress(1, 0, 1)
            && PassItems(es, Progress(1, 0, 1), w) == [Item(0, 1, 1)]
  {
    var es: seq<Entry>, w: Window := [Entry(0, 1), Entry(9, 1)], Region(0, 2, 2);
    assert es == [Entry(0, 1)] + [Entry(9, 1)] && [Entry(9, 1)] == [Entry(9, 1)] + [];
    OneByte(0, [Entry(9, 1)], 2, w);
    OneByte(9, [], 1, w);
    FreshItems(es, w);
    assert Locate(es[1..], 0) == Place(0, 0);
    assert Sent(All(es, w), 1) == 1;
    AndSelf(1);
    assert Walked(es, Progress(1, 0, 1)) == [Entry(0, 1)] + [];
    OneByte(0, [], 1, w);
  }
}
