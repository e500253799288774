/** Fixed-width words, the machine's byte order, and the bit casts between words and byte or half-word arrays. */
module ByteOrder {
  type uint8 = n: int | 0 <= n < 0x100
  type uint16 = n: int | 0 <= n < 0x1_0000
  type uint32 = n: int | 0 <= n < 0x1_0000_0000

  /** `std::endian::native`: every property below is stated for both machines. */
  datatype Endian = Little | Big

  function ByteSwap16(x: uint16): (r: uint16) {
    x % 0x100 * 0x100 + x / 0x100
  }

  function Hton16(e: Endian, host: uint16): (net: uint16)
  {
    if e.Little? then ByteSwap16(host) else host
  }

  /** Converting twice is the identity, so `hton` also converts from network to host order. */
  lemma Hton16Involution(e: Endian, x: uint16)
    ensures Hton16(e, Hton16(e, x)) == x
  {
    var hi, lo := x / 0x100, x % 0x100;
    var y := lo * 0x100 + hi;
    assert y % 0x100 == hi && y / 0x100 == lo;
  }

  function ByteSwap32(x: uint32): (r: uint32) {
    x % 0x100 * 0x100_0000 + x / 0x100 % 0x100 * 0x1_0000 + x / 0x1_0000 % 0x100 * 0x100 + x / 0x100_0000
  }

  /** `hton` and `hton_inplace` on one word. */
  function Hton32(e: Endian, host: uint32): (net: uint32) {
    if e.Little? then ByteSwap32(host) else host
  }

  /** The four bytes in memory order. */
  datatype Quad = Quad(a: uint8, b: uint8, c: uint8, d: uint8)

  /** The two sixteen-bit halves in memory order. */
  datatype Halves = Halves(first: uint16, second: uint16)

  /** `std::bit_cast` from four bytes to one word. */
  function WordOfBytes(e: Endian, q: Quad): (w: uint32) {
    match e
    case Little => q.a + 0x100 * q.b + 0x1_0000 * q.c + 0x100_0000 * q.d
    case Big => q.d + 0x100 * q.c + 0x1_0000 * q.b + 0x100_0000 * q.a
  }

  /** `std::bit_cast` from one word to four bytes. */
  function BytesOfWord(e: Endian, w: uint32): (q: Quad) {
    var p0, p1, p2, p3 := w % 0x100, w / 0x100 % 0x100, w / 0x1_0000 % 0x100, w / 0x100_0000;
    match e
    case Little => Quad(p0, p1, p2, p3)
    case Big => Quad(p3, p2, p1, p0)
  }

  /** `std::bit_cast` from one word to two half words. */
  function HalvesOfWord(e: Endian, w: uint32): (h: Halves) {
    match e
    case Little => Halves(w % 0x1_0000, w / 0x1_0000)
    case Big => Halves(w / 0x1_0000, w % 0x1_0000)
  }

  /** `std::bit_cast` from two half words to one word. */
  function WordOfHalves(e: Endian, h: Halves): (w: uint32) {
    match e
    case Little => h.first + 0x1_0000 * h.second
    case Big => h.second + 0x1_0000 * h.first
  }

  lemma WordOfBytesOfWord(e: Endian, w: uint32)
    ensures WordOfBytes(e, BytesOfWord(e, w)) == w
  {
    var r0 := w / 0x100;
    var r1 := r0 / 0x100;
    assert w / 0x1_0000 == r1;
    assert w / 0x100_0000 == r1 / 0x100;
    assert w == r0 * 0x100 + w % 0x100;
    assert r0 == r1 * 0x100 + r0 % 0x100;
    assert r1 == r1 / 0x100 * 0x100 + r1 % 0x100;
  }

  lemma BytesOfWordOfBytes(e: Endian, q: Quad)
    ensures BytesOfWord(e, WordOfBytes(e, q)) == q
  {
    match e
    case Little => Places(q.a, q.b, q.c, q.d);
    case Big => Places(q.d, q.c, q.b, q.a);
  }

  /** The base-256 digits of a word. */
  lemma Places(p0: uint8, p1: uint8, p2: uint8, p3: uint8)
    ensures var w := p0 + 0x100 * p1 + 0x1_0000 * p2 + 0x100_0000 * p3;
            w % 0x100 == p0 && w / 0x100 % 0x100 == p1 && w / 0x1_0000 % 0x100 == p2 && w / 0x100_0000 == p3
  {
    var w := p0 + 0x100 * p1 + 0x1_0000 * p2 + 0x100_0000 * p3;
    var w1 := p1 + 0x100 * p2 + 0x1_0000 * p3;
    var w2 := p2 + 0x100 * p3;
    assert w == p0 + 0x100 * w1 && w1 == p1 + 0x100 * w2;
    assert w / 0x100 == w1;
    assert w / 0x1_0000 == w2;
  }

  /** Which byte of a word lies where: the first in memory is the least significant one on a little-endian machine and
      the most significant one on a big-endian machine; and `hton` swaps on the former only. */
  lemma MemoryOrder(q: Quad)
    ensures var w := WordOfBytes(Little, q);
            w % 0x100 == q.a && w / 0x100 % 0x100 == q.b && w / 0x1_0000 % 0x100 == q.c && w / 0x100_0000 == q.d
    ensures var w := WordOfBytes(Big, q);
            w / 0x100_0000 == q.a && w / 0x1_0000 % 0x100 == q.b && w / 0x100 % 0x100 == q.c && w % 0x100 == q.d
    ensures Hton16(Little, 0x102) == 0x201 && Hton16(Big, 0x102) == 0x102
  {
    Places(q.a, q.b, q.c, q.d);
    Places(q.d, q.c, q.b, q.a);
  }

  /** On either machine, a word in network order lies in memory with its most significant byte first. */
  lemma NetworkBytes(e: Endian, host: uint32)
    ensures BytesOfWord(e, Hton32(e, host)) ==
            Quad(host / 0x100_0000, host / 0x1_0000 % 0x100, host / 0x100 % 0x100, host % 0x100)
  {
    if e.Little? {
      Places(host / 0x100_0000, host / 0x1_0000 % 0x100, host / 0x100 % 0x100, host % 0x100);
    }
  }

  lemma WordOfHalvesOfWord(e: Endian, w: uint32)
    ensures WordOfHalves(e, HalvesOfWord(e, w)) == w
  {
  }

  lemma HalvesOfWordOfHalves(e: Endian, h: Halves)
    ensures HalvesOfWord(e, WordOfHalves(e, h)) == h
  {
    var lo, hi := if e.Little? then h.first else h.second, if e.Little? then h.second else h.first;
    var w := lo + 0x1_0000 * hi;
    assert w % 0x1_0000 == lo && w / 0x1_0000 == hi;
  }

  /** On either machine, the half words of a network-order word hold its bytes pairwise, high byte first. */
  lemma HostHalves(e: Endian, q: Quad)
    ensures var h := HalvesOfWord(e, WordOfBytes(e, q));
            Hton16(e, h.first) == q.a * 0x100 + q.b && Hton16(e, h.second) == q.c * 0x100 + q.d
  {
    var w := WordOfBytes(e, q);
    match e
    case Little =>
      var lo, hi := q.a + 0x100 * q.b, q.c + 0x100 * q.d;
      assert w == lo + 0x1_0000 * hi;
      assert w % 0x1_0000 == lo && w / 0x1_0000 == hi;
      assert lo % 0x100 == q.a && lo / 0x100 == q.b;
      assert hi % 0x100 == q.c && hi / 0x100 == q.d;
    case Big =>
      var lo, hi := q.d + 0x100 * q.c, q.b + 0x100 * q.a;
      assert w == lo + 0x1_0000 * hi;
      assert w % 0x1_0000 == lo && w / 0x1_0000 == hi;
  }
}
