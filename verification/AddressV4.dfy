/** `address_v4`: dotted-quad text and the network-order word it denotes. */
module AddressV4 {
  import opened Errors
  import opened ByteOrder
  import Text
  import Charconv

  /** The raw word is in network byte order. */
  datatype Address = Address(raw: uint32)

  // ----- printing

  function Dotted(q: Quad): (s: string) {
    Charconv.Decimal(q.a) + "." + Charconv.Decimal(q.b) + "." + Charconv.Decimal(q.c) + "." + Charconv.Decimal(q.d)
  }

  /** The `std::formatter` of `address_v4`, and `to_string`. */
  function Format(e: Endian, a: Address): (s: string) {
    Dotted(BytesOfWord(e, a.raw))
  }

  // ----- parsing

  /** One dot-separated part of the text. */
  function Octet(sub: string): (r: Result<uint8>) {
    if sub == "" || |sub| > 3 then Err(InvalidArgument)
    else if |sub| > 1 && sub[0] == '0' then Err(InvalidArgument)
    else
      var c := Charconv.FromChars(sub, 10, 255);
      match c.result
      case Err(ec) => Err(ec)
      case Ok(v) => if c.ptr != |sub| then Err(InvalidArgument) else Ok(v)
  }

  /** The octets of `parts`, appended to those already read; the first faulty part decides the error. */
  function Octets(done: seq<uint8>, parts: seq<string>): (r: Result<seq<uint8>>)
    ensures r.Ok? ==> |r.value| == 4
    decreases |parts|
  {
    if parts == [] then
      if |done| == 4 then Ok(done) else Err(InvalidArgument)
    else if |done| >= 4 then Err(InvalidArgument)
    else
      var o :- Octet(parts[0]);
      Octets(done + [o], parts[1..])
  }

  function Parse(e: Endian, s: string): (r: Result<Address>) {
    if s == "" || |s| > 15 then Err(InvalidArgument)
    else
      var o :- Octets([], Text.Split(s, "."));
      Ok(Address(WordOfBytes(e, Quad(o[0], o[1], o[2], o[3]))))
  }

  /** `address_v4::from_string`. */
  method FromString(e: Endian, s: string) returns (r: Result<Address>)
    ensures r == Parse(e, s)
  {
    if s == "" || |s| > 15 {
      return Err(InvalidArgument);
    }
    var parts := Text.Split(s, ".");
    var partResults := new uint8[4](_ => 0);
    var count := 0;
    assert partResults[..0] == [];
    assert parts[0..] == parts;
    for i := 0 to |parts|
      invariant count == i <= 4
      invariant Octets(partResults[..count], parts[i..]) == Octets([], parts)
    {
      if count >= 4 {
        return Err(InvalidArgument);
      }
      var sub := parts[i];
      if sub == "" || |sub| > 3 {
        return Err(InvalidArgument);
      }
      if |sub| > 1 && sub[0] == '0' {
        return Err(InvalidArgument);
      }
      var c := Charconv.FromChars(sub, 10, 255);
      if c.result.Err? {
        return Err(c.result.error);
      }
      if c.ptr != |sub| {
        return Err(InvalidArgument);
      }
      ghost var before := partResults[..count];
      partResults[count] := c.result.value;
      assert partResults[..count + 1] == before + [c.result.value];
      assert parts[i..][1..] == parts[i + 1..];
      count := count + 1;
    }
    if count != 4 {
      return Err(InvalidArgument);
    }
    assert partResults[..count] == partResults[..];
    r := Ok(Address(WordOfBytes(e, Quad(partResults[0], partResults[1], partResults[2], partResults[3]))));
  }

  /** `address_v4::from_string_uncheck`: on every text that `from_string` accepts, each assumption made by the
      unchecked loop holds and the result is the same. */
  method FromStringUncheck(e: Endian, s: string) returns (a: Address)
    requires Parse(e, s).Ok?
    ensures Parse(e, s) == Ok(a)
  {
    var parts := Text.Split(s, ".");
    var partResults := new uint8[4](_ => 0);
    var count := 0;
    assert partResults[..0] == [];
    assert parts[0..] == parts;
    for i := 0 to |parts|
      invariant count == i <= 4
      invariant Octets(partResults[..count], parts[i..]) == Octets([], parts)
    {
      assert parts[i..][0] == parts[i] && parts[i..][1..] == parts[i + 1..];
      assert count < 4;
      var c := Charconv.FromChars(parts[i], 10, 255);
      assert c.result.Ok?;
      assert c.ptr == |parts[i]|;
      ghost var before := partResults[..count];
      partResults[count] := c.result.value;
      assert partResults[..count + 1] == before + [c.result.value];
      count := count + 1;
    }
    assert count == 4 && partResults[..count] == partResults[..];
    a := Address(WordOfBytes(e, Quad(partResults[0], partResults[1], partResults[2], partResults[3])));
  }

  // ----- the two are mutual inverses

  /** A part is accepted exactly when it is the shortest decimal text of its octet. */
  lemma OctetExact(sub: string, v: uint8)
    ensures Octet(sub) == Ok(v) <==> sub == Charconv.Decimal(v)
  {
    Charconv.DigitsValue(v, 10, false);
    Charconv.DigitsLength(v, 10, false);
    if sub == Charconv.Decimal(v) {
      Charconv.FromCharsAllDigits(sub, 10, 255);
    }
    if Octet(sub) == Ok(v) {
      Charconv.FromCharsConsumed(sub, 10, 255);
      Charconv.ValueDecimal(sub);
    }
  }

  function Texts(o: seq<uint8>): (t: seq<string>)
    ensures |t| == |o| && forall i :: 0 <= i < |o| ==> t[i] == Charconv.Decimal(o[i])
  {
    seq(|o|, i requires 0 <= i < |o| => Charconv.Decimal(o[i]))
  }

  /** The part loop succeeds exactly on the texts of the octets that it returns. */
  lemma {:induction false} OctetsExact(done: seq<uint8>, parts: seq<string>, all: seq<uint8>)
    requires |all| == 4 && done <= all
    ensures Octets(done, parts) == Ok(all) <==> parts == Texts(all[|done|..])
    decreases |parts|
  {
    if |done| == 4 {
      assert done == all && Texts(all[4..]) == [];
    } else if parts != [] {
      var v := all[|done|];
      OctetExact(parts[0], v);
      assert parts == [parts[0]] + parts[1..];
      var next := done + [v];
      OctetsExact(next, parts[1..], all);
      assert Texts(all[|done|..]) == [Charconv.Decimal(v)] + Texts(all[|next|..]);
      if Octets(done, parts) == Ok(all) {
        var o := Octet(parts[0]).value;
        OctetsExtend(done + [o], parts[1..]);
        assert all[|done|] == o;
      }
    }
  }

  lemma {:induction false} OctetsExtend(done: seq<uint8>, parts: seq<string>)
    requires Octets(done, parts).Ok?
    ensures done <= Octets(done, parts).value
    decreases |parts|
  {
    if parts != [] {
      OctetsExtend(done + [Octet(parts[0]).value], parts[1..]);
    }
  }

  lemma DecimalHasNoDot(v: uint8)
    ensures '.' !in Charconv.Decimal(v) && 0 < |Charconv.Decimal(v)| <= 3
  {
    Charconv.DigitsValue(v, 10, false);
    Charconv.DigitsLength(v, 10, false);
  }

  lemma JoinFour(t: seq<string>, d: string)
    requires |t| == 4
    ensures Text.Join(t, d) == t[0] + d + t[1] + d + t[2] + d + t[3]
  {
    assert t[1..] == [t[1], t[2], t[3]];
    assert Text.Join([t[1], t[2], t[3]], d) == t[1] + d + Text.Join([t[2], t[3]], d) by {
      assert [t[1], t[2], t[3]][1..] == [t[2], t[3]];
    }
    assert Text.Join([t[2], t[3]], d) == t[2] + d + t[3] by {
      assert [t[2], t[3]][1..] == [t[3]];
    }
    assert t[0] + d + (t[1] + d + (t[2] + d + t[3])) == t[0] + d + t[1] + d + t[2] + d + t[3];
  }

  lemma DottedIsJoin(q: Quad)
    ensures Dotted(q) == Text.Join(Texts([q.a, q.b, q.c, q.d]), ".")
    ensures 0 < |Dotted(q)| <= 15
  {
    DecimalHasNoDot(q.a);
    DecimalHasNoDot(q.b);
    DecimalHasNoDot(q.c);
    DecimalHasNoDot(q.d);
    JoinFour(Texts([q.a, q.b, q.c, q.d]), ".");
  }

  lemma SplitDotted(q: Quad)
    ensures Text.Split(Dotted(q), ".") == Texts([q.a, q.b, q.c, q.d])
  {
    var o := [q.a, q.b, q.c, q.d];
    var t := Texts(o);
    DottedIsJoin(q);
    forall i | 0 <= i < |t| ensures '.' !in t[i] {
      DecimalHasNoDot(o[i]);
    }
    Text.CutJoin(t, '.');
  }

  /** Parsing accepts exactly the printed texts, and returns the address that was printed: the two functions are
      mutual inverses, so accepted texts and addresses are in bijection. */
  lemma ParseExact(e: Endian, s: string, a: Address)
    ensures Parse(e, s) == Ok(a) <==> s == Format(e, a)
  {
    var q := BytesOfWord(e, a.raw);
    var o := [q.a, q.b, q.c, q.d];
    WordOfBytesOfWord(e, a.raw);
    DottedIsJoin(q);
    SplitDotted(q);
    OctetsExact([], Text.Split(s, "."), o);
    assert o[0..] == o;
    if Parse(e, s) == Ok(a) {
      var p := Octets([], Text.Split(s, ".")).value;
      var r := Quad(p[0], p[1], p[2], p[3]);
      BytesOfWordOfBytes(e, r);
      assert r == q && p == o;
      Text.JoinCut(s, ".");
    }
  }

  /** At a real input, with every bit of the result. */
  lemma ParseExample()
    ensures Parse(Little, "192.168.0.1") == Ok(Address(0x0100_a8c0))
    ensures Parse(Big, "192.168.0.1") == Ok(Address(0xc0a8_0001))
  {
    hide Parse, Dotted;
    ExampleText();
    assert BytesOfWord(Little, 0x0100_a8c0) == BytesOfWord(Big, 0xc0a8_0001) == Quad(192, 168, 0, 1);
    ParseExact(Little, "192.168.0.1", Address(0x0100_a8c0));
    ParseExact(Big, "192.168.0.1", Address(0xc0a8_0001));
  }

  lemma ExampleText()
    ensures Dotted(Quad(192, 168, 0, 1)) == "192.168.0.1"
  {
    ExampleDecimals();
    hide Charconv.Decimal;
    assert "192" + "." + "168" + "." + "0" + "." + "1" == "192.168.0.1";
  }

  lemma ExampleDecimals()
    ensures Charconv.Decimal(192) == "192" && Charconv.Decimal(168) == "168"
    ensures Charconv.Decimal(0) == "0" && Charconv.Decimal(1) == "1"
  {
    assert Charconv.Digits(1, 10, false) == "1" && Charconv.Digits(19, 10, false) == "19";
    assert Charconv.Digits(16, 10, false) == "16";
  }

  // ----- errors

  /** Three digits that denote a number above 255. */
  predicate TooLarge(t: string) {
    |t| == 3 && t[0] != '0' && Charconv.AllDigits(t, 10) && Charconv.Value(t, 10) > 255
  }

  lemma {:induction false} TwoDigits(t: string)
    requires |t| <= 2 && Charconv.AllDigits(t, 10)
    ensures Charconv.Value(t, 10) < 100 && (|t| <= 1 ==> Charconv.Value(t, 10) < 10)
    decreases |t|
  {
    if t != "" {
      TwoDigits(t[..|t| - 1]);
    }
  }

  lemma OctetOutOfRange(sub: string)
    ensures Octet(sub) == Err(ResultOutOfRange) <==> TooLarge(sub)
  {
    if 0 < |sub| <= 3 {
      var k := Charconv.DigitRun(sub, 10, 0);
      if k <= 2 {
        TwoDigits(sub[..k]);
      } else {
        assert sub[..k] == sub;
      }
    }
  }

  lemma {:induction false} OctetsOutOfRange(done: seq<uint8>, parts: seq<string>)
    requires |done| <= 4
    ensures Octets(done, parts) == Err(ResultOutOfRange) <==>
            exists i :: 0 <= i < |parts| && |done| + i < 4 && TooLarge(parts[i]) &&
                        forall j :: 0 <= j < i ==> Octet(parts[j]).Ok?
    decreases |parts|
  {
    hide Octet, TooLarge;
    if parts != [] && |done| < 4 {
      OctetOutOfRange(parts[0]);
      var rest := parts[1..];
      assert forall i :: 0 <= i < |rest| ==> rest[i] == parts[i + 1];
      if Octet(parts[0]).Ok? {
        var next := done + [Octet(parts[0]).value];
        OctetsOutOfRange(next, rest);
        if i :| 0 <= i < |rest| && |next| + i < 4 && TooLarge(rest[i]) &&
                forall j :: 0 <= j < i ==> Octet(rest[j]).Ok? {
          forall j | 0 <= j < i + 1 ensures Octet(parts[j]).Ok? {
            assert j > 0 ==> parts[j] == rest[j - 1];
          }
          assert TooLarge(parts[i + 1]);
        }
        if i :| 0 <= i < |parts| && |done| + i < 4 && TooLarge(parts[i]) &&
                forall j :: 0 <= j < i ==> Octet(parts[j]).Ok? {
          assert i > 0 && TooLarge(rest[i - 1]);
          forall j | 0 <= j < i - 1 ensures Octet(rest[j]).Ok? {
            assert rest[j] == parts[j + 1];
          }
        }
      }
    }
  }

  /** The parser reports "out of range" exactly when the first faulty part, among the first four, is three digits above
      255; every other rejection is an invalid argument. */
  lemma OutOfRangeExact(e: Endian, s: string)
    ensures var parts := Text.Split(s, ".");
            Parse(e, s) == Err(ResultOutOfRange) <==>
            |s| <= 15 && exists i :: 0 <= i < |parts| && i < 4 && TooLarge(parts[i]) &&
                                     forall j :: 0 <= j < i ==> Octet(parts[j]).Ok?
  {
    hide Octet, TooLarge;
    OctetsOutOfRange([], Text.Split(s, "."));
  }

  // ----- host-order numbers

  /** The text of an address made from a host-order number, as `loopback`, `any` and `broadcast` are: the bytes of the
      number in decimal, most significant first. */
  lemma HostOrderText(e: Endian, host: uint32)
    ensures Format(e, Address(Hton32(e, host))) ==
            Dotted(Quad(host / 0x100_0000, host / 0x1_0000 % 0x100, host / 0x100 % 0x100, host % 0x100))
    ensures Format(e, Address(Hton32(e, 0x7f000001))) == "127.0.0.1"
  {
    hide Dotted, Hton32, BytesOfWord;
    NetworkBytes(e, host);
    NetworkBytes(e, 0x7f000001);
    Loopback();
  }

  lemma Loopback()
    ensures Dotted(Quad(127, 0, 0, 1)) == "127.0.0.1"
  {
    assert Charconv.Decimal(127) == "127" by {
      assert Charconv.Digits(1, 10, false) == "1";
      assert Charconv.Digits(12, 10, false) == "12";
    }
  }
}
