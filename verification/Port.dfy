/** `port`: decimal text and the network-order number it denotes. */
module Port {
  import opened Errors
  import opened ByteOrder
  import Charconv

  /** The raw number is in network byte order. */
  datatype Port = Port(raw: uint16)

  /** The `std::formatter` of `port`, and `to_string`. */
  function Format(e: Endian, p: Port): (s: string) {
    Charconv.Decimal(Hton16(e, p.raw))
  }

  /** `port::from_string`; an empty text is left to the number conversion, which rejects it. */
  function Parse(e: Endian, s: string): (r: Result<Port>) {
    if |s| > 1 && s[0] == '0' then Err(InvalidArgument)
    else
      var c := Charconv.FromChars(s, 10, 65535);
      match c.result
      case Err(ec) => Err(ec)
      case Ok(v) => if c.ptr != |s| then Err(InvalidArgument) else Ok(Port(Hton16(e, v)))
  }

  /** `port::from_string_uncheck`: both of its assumptions hold on every text that `from_string` accepts. */
  method FromStringUncheck(e: Endian, s: string) returns (p: Port)
    requires Parse(e, s).Ok?
    ensures Parse(e, s) == Ok(p)
  {
    var c := Charconv.FromChars(s, 10, 65535);
    assert c.result.Ok?;
    assert c.ptr == |s|;
    p := Port(Hton16(e, c.result.value));
  }

  /** Parsing accepts exactly the printed texts and returns the port that was printed. */
  lemma ParseExact(e: Endian, s: string, p: Port)
    ensures Parse(e, s) == Ok(p) <==> s == Format(e, p)
  {
    hide ByteSwap16;
    var host := Hton16(e, p.raw);
    Hton16Involution(e, p.raw);
    Charconv.DigitsValue(host, 10, false);
    if s == Format(e, p) {
      Charconv.FromCharsAllDigits(s, 10, 65535);
    }
    if Parse(e, s) == Ok(p) {
      Charconv.FromCharsConsumed(s, 10, 65535);
      Charconv.ValueDecimal(s);
      Hton16Involution(e, Charconv.Value(s, 10));
    }
  }

  /** The text starts with `k` decimal digits and no more. */
  predicate LeadingDigits(s: string, k: nat) {
    k <= |s| && (forall i :: 0 <= i < k ==> Charconv.IsDigit(s[i], 10)) && (k < |s| ==> !Charconv.IsDigit(s[k], 10))
  }

  /** The parser reports "out of range" exactly when the text starts with a number above 65535, without a leading zero,
      whatever follows; every other rejection is an invalid argument. */
  lemma OutOfRangeExact(e: Endian, s: string)
    ensures Parse(e, s) == Err(ResultOutOfRange) <==>
            s != "" && s[0] != '0' && exists k: nat :: LeadingDigits(s, k) && Charconv.Value(s[..k], 10) > 65535
  {
    var k := Charconv.DigitRun(s, 10, 0);
    assert LeadingDigits(s, k);
    if |s| == 1 && s[0] == '0' {
      assert k == 1 && s[..1][..0] == "" && Charconv.Value(s[..1], 10) == 0;
    }
  }

  /** At a real input. */
  lemma OutOfRangeExample(e: Endian)
    ensures Parse(e, "70000") == Err(ResultOutOfRange) && Parse(e, "70000x") == Err(ResultOutOfRange)
    ensures Parse(e, "07000") == Err(InvalidArgument)
  {
    SeventyThousand();
    hide Charconv.Value, Charconv.FromChars;
    assert "70000x"[..5] == "70000" && "70000"[..5] == "70000";
    assert LeadingDigits("70000", 5) && LeadingDigits("70000x", 5);
    OutOfRangeExact(e, "70000");
    OutOfRangeExact(e, "70000x");
  }

  lemma SeventyThousand()
    ensures Charconv.AllDigits("70000", 10) && Charconv.Value("70000", 10) == 70000
  {
    assert Charconv.AllDigits("7", 10) && Charconv.AllDigits("0000", 10);
    Charconv.ValueByPlaces("", "7", 10);
    Charconv.ValueByPlaces("7", "0", 10);
    Charconv.ValueByPlaces("70", "0", 10);
    Charconv.ValueByPlaces("700", "0", 10);
    Charconv.ValueByPlaces("7000", "0", 10);
    hide Charconv.Value;
    assert Charconv.Power(10, 1) == 10;
    assert "7" + "0" == "70" && "70" + "0" == "700" && "700" + "0" == "7000" && "7000" + "0" == "70000";
  }

  lemma FormatChars(e: Endian, p: Port)
    ensures Format(e, p) != "" && forall c :: c in Format(e, p) ==> Charconv.IsDigit(c, 10)
  {
    hide Hton16;
    Charconv.DigitsValue(Hton16(e, p.raw), 10, false);
  }

  /** The text of a port made from a host-order number is that number in decimal. */
  lemma HostOrderText(e: Endian, host: uint16)
    ensures Format(e, Port(Hton16(e, host))) == Charconv.Decimal(host)
  {
    Hton16Involution(e, host);
  }
}
