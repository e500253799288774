/** `ring::buffer_ring`: adding provided buffers one at a time and in a batch. */
module BufferRing {
  import opened ByteOrder

  /** An entry of the native ring: address, length and buffer identifier. */
  datatype Buf = Buf(addr: nat, len: uint32, bid: uint16)

  /** The native ring: its entries and its sixteen-bit tail. */
  datatype State = State(bufs: seq<Buf>, tail: uint16)

  function Pow2(k: nat): (p: nat)
    ensures p > 0
  {
    if k == 0 then 1 else 2 * Pow2(k - 1)
  }

  /** The number of entries is a power of two that a sixteen-bit count can hold. */
  ghost predicate Entries(n: nat)
    ensures Entries(n) ==> n > 0
  {
    exists k: nat :: k < 16 && n == Pow2(k)
  }

  /** Bitwise and. */
  function BitAnd(x: nat, y: nat): (r: nat) {
    if x == 0 || y == 0 then 0
    else 2 * BitAnd(x / 2, y / 2) + if x % 2 == 1 && y % 2 == 1 then 1 else 0
  }

  /** `io_uring_buf_ring_mask`. */
  function Mask(entries: nat): nat
    requires entries > 0
  {
    entries - 1
  }

  /** A count kept in sixteen bits. */
  function Wrap(x: nat): (r: uint16)
    ensures x < 0x1_0000 ==> r == x
  {
    x % 0x1_0000
  }

  /** The place of a position in a ring of `n` entries. */
  function Place(x: int, n: nat): (p: nat)
    requires n > 0
    ensures p < n
  {
    x % n
  }

  // ----- places

  lemma SmallMultiple(n: int, k: int)
    requires n > 0 && -n < n * k < n
    ensures k == 0
  {
  }

  lemma Difference(n: int, a: int, b: int)
    ensures n * (a - b) == n * a - n * b
  {
  }

  /** A position that is a number of full turns and a rest has the rest as its place. */
  lemma PlaceOf(x: int, n: nat, turns: int, rest: int)
    requires n > 0 && x == n * turns + rest && 0 <= rest < n
    ensures Place(x, n) == rest
  {
    var q, r := x / n, x % n;
    assert x == n * q + r && 0 <= r < n;
    Difference(n, q, turns);
    SmallMultiple(n, q - turns);
  }

  /** Full turns do not change the place. */
  lemma PlaceTurns(x: int, n: nat, turns: int)
    requires n > 0
    ensures Place(n * turns + x, n) == Place(x, n)
  {
    var q, r := x / n, x % n;
    assert x == n * q + r;
    assert n * (turns + q) == n * turns + n * q;
    PlaceOf(n * turns + x, n, turns + q, r);
  }

  lemma {:induction false} Pow2Product(a: nat, b: nat)
    ensures Pow2(a + b) == Pow2(a) * Pow2(b)
  {
    if a > 0 {
      Pow2Product(a - 1, b);
      Associate(2, Pow2(a - 1), Pow2(b));
    }
  }

  lemma WordSize()
    ensures Pow2(16) == 0x1_0000
  {
    assert Pow2(4) == 16;
    Pow2Product(4, 4);
    Pow2Product(8, 8);
  }

  /** Wrapping a position around at sixteen bits does not move its place. */
  lemma WrapKeepsPlace(x: nat, n: nat)
    requires Entries(n)
    ensures Place(Wrap(x), n) == Place(x, n)
  {
    hide Place, Pow2;
    var k: nat :| k < 16 && n == Pow2(k);
    WordSize();
    Pow2Product(k, 16 - k);
    var m, turns, rest := Pow2(16 - k), x / 0x1_0000, x % 0x1_0000;
    Associate(n, m, turns);
    PlaceTurns(rest, n, m * turns);
  }

  lemma Associate(n: int, m: int, t: int)
    ensures n * m * t == n * (m * t)
  {
  }

  /** Wrapping a summand first does not change a wrapped sum. */
  lemma WrapSum(t: nat, n: nat)
    ensures Wrap(t + Wrap(n)) == Wrap(t + n)
  {
  }

  lemma Halve(x: nat, p: nat)
    requires p > 0
    ensures Place(x, 2 * p) == 2 * Place(x / 2, p) + x % 2
  {
    var h := x / 2;
    var turns, rest := h / p, h % p;
    assert h == p * turns + rest;
    assert x == 2 * h + x % 2;
    assert 2 * (p * turns) == (2 * p) * turns;
    PlaceOf(x, 2 * p, turns, 2 * rest + x % 2);
  }

  lemma {:induction false} MaskOfPower(x: nat, k: nat)
    ensures BitAnd(x, Mask(Pow2(k))) == Place(x, Pow2(k))
    decreases k
  {
    hide Place;
    if k == 0 {
      PlaceOf(x, 1, x, 0);
    } else {
      var p := Pow2(k - 1);
      MaskOfPower(x / 2, k - 1);
      Halve(x, p);
      assert (2 * p - 1) / 2 == p - 1 && (2 * p - 1) % 2 == 1;
      PlaceOf(0, p, 0, 0);
    }
  }

  /** Masking with a power of two less one takes the place. */
  lemma MaskIsPlace(x: nat, n: nat)
    requires Entries(n)
    ensures BitAnd(x, Mask(n)) == Place(x, n)
  {
    hide Place, BitAnd;
    var k: nat :| k < 16 && n == Pow2(k);
    MaskOfPower(x, k);
  }

  /** Positions less than a full turn apart have different places. */
  lemma Distinct(x: int, y: int, n: nat)
    requires n > 0 && 0 < y - x < n
    ensures Place(x, n) != Place(y, n)
  {
    var a, b := x / n, y / n;
    assert x == n * a + x % n && y == n * b + y % n;
    Difference(n, b, a);
    if Place(x, n) == Place(y, n) {
      SmallMultiple(n, b - a);
    }
  }

  lemma PlaceOffset(x: nat, m: nat, n: nat)
    requires m < n
    ensures Place(Place(x + m, n) - x, n) == m
  {
    var turns := (x + m) / n;
    assert x + m == n * turns + Place(x + m, n);
    assert n * -turns == -(n * turns);
    PlaceOf(Place(x + m, n) - x, n, -turns, m);
  }

  // ----- the two native calls

  /** `io_uring_buf_ring_add`: writes the entry `offset` places behind the tail; the tail stays. */
  function Add(s: State, b: Buf, offset: nat): (t: State)
    requires Entries(|s.bufs|)
    ensures |t.bufs| == |s.bufs| && t.tail == s.tail
  {
    MaskIsPlace(s.tail + offset, |s.bufs|);
    s.(bufs := s.bufs[BitAnd(s.tail + offset, Mask(|s.bufs|)) := b])
  }

  /** `io_uring_buf_ring_advance`: the tail is a sixteen-bit counter. */
  function Advance(s: State, count: nat): State {
    s.(tail := Wrap(s.tail + count))
  }

  /** `insert`. */
  function Insert(s: State, b: Buf): (t: State)
    requires Entries(|s.bufs|)
    ensures |t.bufs| == |s.bufs|
  {
    Advance(Add(s, b, 0), 1)
  }

  /** `insert` for each buffer in turn. */
  function InsertEach(s: State, bs: seq<Buf>): (t: State)
    requires Entries(|s.bufs|)
    ensures |t.bufs| == |s.bufs|
  {
    if bs == [] then s else Insert(InsertEach(s, bs[..|bs| - 1]), bs[|bs| - 1])
  }

  lemma WrapIsRemainder(x: nat)
    ensures Wrap(x) == x % 0x1_0000
  {
  }

  lemma WrapNext(x: nat)
    ensures Wrap(Wrap(x) + 1) == Wrap(x + 1)
  {
  }

  lemma {:induction false} TailAfter(s: State, bs: seq<Buf>)
    requires Entries(|s.bufs|)
    ensures InsertEach(s, bs).tail == Wrap(s.tail + |bs|)
  {
    hide Add, Entries, Wrap;
    if bs != [] {
      var n := |bs| - 1;
      TailAfter(s, bs[..n]);
      WrapNext(s.tail + n);
    }
  }

  class Ring {
    const entries: nat
    const bufs: array<Buf>
    var tail: uint16

    ghost predicate Valid()
      reads this
    {
      bufs.Length == entries && Entries(entries)
    }

    ghost function Contents(): State
      reads this, bufs
    {
      State(bufs[..], tail)
    }

    constructor (entries: nat, blank: Buf)
      requires Entries(entries)
      ensures Valid() && this.entries == entries && tail == 0 && fresh(bufs)
    {
      this.entries := entries;
      bufs := new Buf[entries](_ => blank);
      tail := 0;
    }

    /** The native add, with the mask that the wrapper passes. */
    method AddAt(b: Buf, offset: uint16)
      requires Valid()
      modifies bufs
      ensures Contents() == Add(old(Contents()), b, offset)
    {
      MaskIsPlace(tail + offset, entries);
      bufs[BitAnd(tail + offset, Mask(entries))] := b;
    }

    method InsertOne(b: Buf)
      requires Valid()
      modifies bufs, `tail
      ensures Contents() == Insert(old(Contents()), b)
      ensures tail == (old(tail) + 1) % 0x1_0000
    {
      AddAt(b, 0);
      tail := Wrap(tail + 1);
    }

    /** `insert_range`: writes every entry first, at growing offsets kept in a sixteen-bit counter, and moves the tail
        once; the ring ends up as if each buffer had been inserted on its own, whatever the number of buffers and
        wherever the tail wraps around. */
    method InsertRange(bs: seq<Buf>)
      requires Valid()
      modifies bufs, `tail
      ensures Contents() == InsertEach(old(Contents()), bs)
      ensures tail == (old(tail) + |bs|) % 0x1_0000
    {
      hide BitAnd, Entries, Place, Add, Insert, Wrap;
      ghost var start := Contents();
      var total: uint16 := 0;
      assert bs[..0] == [];
      for i := 0 to |bs|
        invariant total == Wrap(i) && tail == start.tail
        invariant bufs[..] == InsertEach(start, bs[..i]).bufs
      {
        OffsetMatches(start, bs[..i], bs[i]);
        assert bs[..i + 1][..i] == bs[..i];
        AddAt(bs[i], total);
        WrapNext(i);
        total := Wrap(total + 1);
      }
      assert bs[..|bs|] == bs;
      TailAfter(start, bs);
      WrapSum(tail, |bs|);
      WrapIsRemainder(tail + |bs|);
      tail := Wrap(tail + total);
    }
  }

  /** The entry that the batch writes at offset `|done|` is the one that a single insert writes after `done`. */
  lemma OffsetMatches(s: State, done: seq<Buf>, b: Buf)
    requires Entries(|s.bufs|)
    ensures Add(State(InsertEach(s, done).bufs, s.tail), b, Wrap(|done|)).bufs == InsertEach(s, done + [b]).bufs
  {
    hide Entries, Place, Add, Wrap;
    assert (done + [b])[..|done|] == done;
    TailAfter(s, done);
    SamePlace(s.tail, |done|, |s.bufs|);
    AddAlike(InsertEach(s, done), s.tail, Wrap(|done|), b);
  }

  /** Adding at an offset behind one tail is adding at another tail, when the places agree. */
  lemma AddAlike(t: State, tail: uint16, offset: uint16, b: Buf)
    requires Entries(|t.bufs|) && Place(tail + offset, |t.bufs|) == Place(t.tail, |t.bufs|)
    ensures Add(State(t.bufs, tail), b, offset).bufs == Insert(t, b).bufs
  {
    hide Entries, Place, Add, Wrap;
    AddPlace(State(t.bufs, tail), b, offset);
    AddPlace(t, b, 0);
    assert t.tail + 0 == t.tail;
  }

  /** The native add writes the entry at the place of its position. */
  lemma AddPlace(s: State, b: Buf, offset: nat)
    requires Entries(|s.bufs|)
    ensures Add(s, b, offset).bufs == s.bufs[Place(s.tail + offset, |s.bufs|) := b]
  {
    hide Entries, Place, BitAnd;
    MaskIsPlace(s.tail + offset, |s.bufs|);
  }

  lemma SamePlace(tail: nat, count: nat, n: nat)
    requires Entries(n)
    ensures Place(tail + Wrap(count), n) == Place(Wrap(tail + count), n) == Place(tail + count, n)
  {
    hide Entries, Place, Wrap;
    WrapKeepsPlace(tail + count, n);
    WrapKeepsPlace(tail + Wrap(count), n);
    WrapSum(tail, count);
  }

  /** A batch that fits fills the entries behind the tail in order and leaves all others alone; the tail moves by the
      number of buffers, modulo sixteen bits. */
  lemma {:induction false} BatchFillsInOrder(s: State, bs: seq<Buf>)
    requires Entries(|s.bufs|) && |bs| <= |s.bufs|
    ensures forall i :: 0 <= i < |bs| ==> InsertEach(s, bs).bufs[Place(s.tail + i, |s.bufs|)] == bs[i]
    ensures forall j :: 0 <= j < |s.bufs| && Place(j - s.tail, |s.bufs|) >= |bs| ==>
                          InsertEach(s, bs).bufs[j] == s.bufs[j]
    ensures InsertEach(s, bs).tail == (s.tail + |bs|) % 0x1_0000
  {
    hide Entries, Place, Add, Wrap;
    TailAfter(s, bs);
    WrapIsRemainder(s.tail + |bs|);
    var n := |s.bufs|;
    if bs != [] {
      var m := |bs| - 1;
      var done := bs[..m];
      BatchFillsInOrder(s, done);
      TailAfter(s, done);
      var at := Place(s.tail + m, n);
      WrapKeepsPlace(s.tail + m, n);
      AddPlace(InsertEach(s, done), bs[m], 0);
      assert InsertEach(s, bs).bufs == InsertEach(s, done).bufs[at := bs[m]];
      forall i | 0 <= i < |done| ensures InsertEach(s, bs).bufs[Place(s.tail + i, n)] == done[i] {
        Distinct(s.tail + i, s.tail + m, n);
      }
      PlaceOffset(s.tail, m, n);
    }
  }
}
