/** `address_v6::from_string` and `address_v6::from_string_uncheck`, step by step: eight groups in a fixed array, filled
    by a section parser that shares its counters with the loops around it, rotated and byte-swapped in place. */
module AddressV6Parser {
  import opened Errors
  import opened ByteOrder
  import opened AddressV6Grammar
  import opened AddressV6
  import Text
  import Charconv
  import AddressV4

  /** `std::ranges::rotate` on positions `first`, `middle`, `last`: the element at `middle` moves to `first`. */
  method Rotate(a: array<uint16>, first: nat, middle: nat, last: nat)
    requires first <= middle <= last <= a.Length
    modifies a
    ensures a[..] == old(a[..first] + a[middle..last] + a[first..middle] + a[last..])
  {
    var rotated := a[..first] + a[middle..last] + a[first..middle] + a[last..];
    forall i | 0 <= i < a.Length {
      a[i] := rotated[i];
    }
  }

  /** `hton_inplace` on eight groups. */
  method HtonInPlace(e: Endian, a: array<uint16>)
    requires a.Length == 8
    modifies a
    ensures a[..] == Hton(e, old(a[..]))
  {
    if e.Little? {
      for i := 0 to 8
        invariant forall j :: 0 <= j < i ==> a[j] == Hton16(e, old(a[j]))
        invariant forall j :: i <= j < 8 ==> a[j] == old(a[j])
      {
        a[i] := ByteSwap16(a[i]);
      }
    }
  }

  /** The variables that the lambda `parse_one_section` captures by reference, and the lambda. */
  class SectionParser {
    const e: Endian
    const partResults: array<uint16>
    var partCount: nat
    var seenV4: bool

    constructor (e: Endian)
      ensures this.e == e && fresh(partResults)
      ensures Valid() && Stored() == START
    {
      this.e := e;
      partResults := new uint16[8](_ => 0);
      partCount, seenV4 := 0, false;
    }

    /** Slots that are not in use hold zero. */
    ghost predicate Valid()
      reads this, partResults
    {
      && partResults.Length == 8
      && partCount <= 8
      && forall i :: partCount <= i < 8 ==> partResults[i] == 0
    }

    ghost function Stored(): (p: Progress)
      requires Valid()
      reads this, partResults
      ensures |p.groups| <= 8
    {
      Progress(partResults[..partCount], seenV4)
    }

    method Store(v: uint16)
      requires Valid() && partCount < 8
      modifies this`partCount, partResults
      ensures Valid() && Stored() == Progress(old(Stored()).groups + [v], old(seenV4))
    {
      partResults[partCount] := v;
      partCount := partCount + 1;
    }

    /** Stores an embedded address as two groups in host order. */
    method StoreV4(raw: uint32)
      requires Valid() && partCount <= 6
      modifies this`partCount, this`seenV4, partResults
      ensures Valid()
      ensures var h := HalvesOfWord(e, raw);
              Stored() == Progress(old(Stored()).groups + [Hton16(e, h.first), Hton16(e, h.second)], true)
    {
      hide Hton16, HalvesOfWord;
      var parts := HalvesOfWord(e, raw);
      Store(Hton16(e, parts.first));
      Store(Hton16(e, parts.second));
      seenV4 := true;
    }

    /** `parse_one_section` of the checked parser; no error is `None`. */
    method ParseOneSection(sub: string) returns (ec: Option<Errc>)
      requires Valid()
      modifies this`partCount, this`seenV4, partResults
      ensures ec.Some? ==> OneSection(e, old(Stored()), sub) == Err(ec.value)
      ensures ec.None? ==> Valid() && OneSection(e, old(Stored()), sub) == Ok(Stored())
    {
      hide Hton16, HalvesOfWord, AddressV4.Parse;
      if '.' in sub {
        if partCount > 6 {
          return Some(InvalidArgument);
        }
        var v4 := AddressV4.FromString(e, sub);
        if v4.Err? {
          return Some(InvalidArgument);
        }
        StoreV4(v4.value.raw);
      } else {
        if partCount >= 8 {
          return Some(InvalidArgument);
        }
        if |sub| > 4 {
          return Some(InvalidArgument);
        }
        var c := Charconv.FromChars(sub, 16, 65535);
        if c.result.Err? {
          return Some(c.result.error);
        }
        if c.ptr != |sub| {
          partResults[partCount] := c.result.value;
          return Some(InvalidArgument);
        }
        Store(c.result.value);
      }
      ec := None;
    }

    /** The loop over the colon-separated parts of one side of "::". */
    method ParseParts(parts: seq<string>) returns (ec: Option<Errc>)
      requires Valid()
      modifies this`partCount, this`seenV4, partResults
      ensures ec.Some? ==> Side(e, old(Stored()), parts) == Err(ec.value)
      ensures ec.None? ==> Valid() && Side(e, old(Stored()), parts) == Ok(Stored())
    {
      hide OneSection;
      assert parts[0..] == parts;
      for i := 0 to |parts|
        invariant Valid() && Side(e, Stored(), parts[i..]) == Side(e, old(Stored()), parts)
      {
        assert parts[i..][0] == parts[i] && parts[i..][1..] == parts[i + 1..];
        if seenV4 {
          return Some(InvalidArgument);
        }
        if parts[i] == "" {
          return Some(InvalidArgument);
        }
        ec := ParseOneSection(parts[i]);
        if ec.Some? {
          return;
        }
      }
      ec := None;
    }

    /** `parse_one_section` of the unchecked parser: its assumptions hold when the checked one would succeed. */
    method ParseOneSectionUncheck(sub: string)
      requires Valid() && OneSection(e, Stored(), sub).Ok?
      modifies this`partCount, this`seenV4, partResults
      ensures Valid() && OneSection(e, old(Stored()), sub) == Ok(Stored())
    {
      hide Hton16, HalvesOfWord, AddressV4.Parse;
      assert partCount < 8;
      if '.' in sub {
        var v4 := AddressV4.FromStringUncheck(e, sub);
        StoreV4(v4.raw);
      } else {
        var c := Charconv.FromChars(sub, 16, 65535);
        assert c.result.Ok?;
        assert c.ptr == |sub|;
        Store(c.result.value);
      }
    }

    /** The loop over the parts of one side of "::" in the unchecked parser. */
    method ParsePartsUncheck(parts: seq<string>)
      requires Valid() && Side(e, Stored(), parts).Ok?
      modifies this`partCount, this`seenV4, partResults
      ensures Valid() && Side(e, old(Stored()), parts) == Ok(Stored())
    {
      hide OneSection;
      assert parts[0..] == parts;
      for i := 0 to |parts|
        invariant Valid() && Side(e, Stored(), parts[i..]) == Side(e, old(Stored()), parts)
      {
        assert parts[i..][0] == parts[i] && parts[i..][1..] == parts[i + 1..];
        ParseOneSectionUncheck(parts[i]);
      }
    }

    /** Moves the groups stored since `first` to the end; the slots that were unused are zeros and fill the gap. */
    method MakeRoom(first: nat)
      requires Valid() && first <= partCount
      modifies partResults
      ensures partResults[..] ==
              old(Stored()).groups[..first] + Zeros(8 - old(partCount)) + old(Stored()).groups[first..]
    {
      ghost var all := partResults[..];
      assert all[partCount..8] == Zeros(8 - partCount) && all[..partCount] == Stored().groups;
      assert all[8..] == [] && all[first..partCount] == Stored().groups[first..];
      Rotate(partResults, first, partCount, 8);
    }
  }

  /** `address_v6::from_string`. */
  method FromString(e: Endian, s: string) returns (r: Result<Address>)
    ensures r == Parse(e, s)
  {
    hide Side, Text.Cut, Hton16;
    if s == "" || |s| > 45 {
      return Err(InvalidArgument);
    }
    var parser := new SectionParser(e);
    var chunks := Text.Split(s, "::");
    var doubleColonCount := 0;
    for k := 0 to |chunks|
      invariant doubleColonCount == k <= 2
      invariant k < 2 ==> parser.Valid()
      invariant k == 0 ==> parser.Stored() == START
      invariant k == 1 ==> Head(e, chunks[0]) == Ok(parser.Stored())
      invariant k == 2 ==> Head(e, chunks[0]).Ok? && parser.partCount == 8 == parser.partResults.Length
      invariant k == 2 ==> Tail(e, Head(e, chunks[0]).value, chunks[1]) == Ok(parser.partResults[..])
    {
      var sub := chunks[k];
      doubleColonCount := doubleColonCount + 1;
      if doubleColonCount == 1 {
        if sub == "" {
          continue;
        }
        var ec := parser.ParseParts(Text.Split(sub, ":"));
        if ec.Some? {
          return Err(ec.value);
        }
      } else if doubleColonCount == 2 {
        if parser.seenV4 {
          return Err(InvalidArgument);
        }
        if sub == "" {
          assert parser.partResults[..] == parser.Stored().groups + Zeros(8 - parser.partCount);
          parser.partCount := 8;
          continue;
        }
        var firstPartCount := parser.partCount;
        ghost var head := parser.Stored();
        var ec := parser.ParseParts(Text.Split(sub, ":"));
        if ec.Some? {
          return Err(ec.value);
        }
        if parser.partCount >= 8 {
          return Err(InvalidArgument);
        }
        SideExtends(e, head, Text.Split(sub, ":"));
        assert parser.Stored().groups[..firstPartCount] == head.groups;
        parser.MakeRoom(firstPartCount);
        parser.partCount := 8;
      } else {
        return Err(InvalidArgument);
      }
    }
    if parser.partCount != 8 {
      return Err(InvalidArgument);
    }
    assert |chunks| == 1 ==> parser.partResults[..] == parser.Stored().groups;
    HtonInPlace(e, parser.partResults);
    r := Ok(Address(parser.partResults[..]));
  }

  /** `address_v6::from_string_uncheck`: on every text that the checked parser accepts, no assumption is violated, the
      unreachable branch is not reached, no slot outside the array is touched, and the address is the same. */
  method FromStringUncheck(e: Endian, s: string) returns (a: Address)
    requires Parse(e, s).Ok?
    ensures Parse(e, s) == Ok(a)
  {
    hide Side, Text.Cut, Hton16;
    var parser := new SectionParser(e);
    var chunks := Text.Split(s, "::");
    var doubleColonCount := 0;
    for k := 0 to |chunks|
      invariant doubleColonCount == k <= 2
      invariant k < 2 ==> parser.Valid()
      invariant k == 0 ==> parser.Stored() == START
      invariant k == 1 ==> Head(e, chunks[0]) == Ok(parser.Stored())
      invariant k == 2 ==> Head(e, chunks[0]).Ok? && parser.partResults.Length == 8
      invariant k == 2 ==> Tail(e, Head(e, chunks[0]).value, chunks[1]) == Ok(parser.partResults[..])
    {
      var sub := chunks[k];
      doubleColonCount := doubleColonCount + 1;
      if doubleColonCount == 1 {
        if sub == "" {
          continue;
        }
        parser.ParsePartsUncheck(Text.Split(sub, ":"));
      } else if doubleColonCount == 2 {
        if sub == "" {
          assert parser.partResults[..] == parser.Stored().groups + Zeros(8 - parser.partCount);
          continue;
        }
        var firstPartCount := parser.partCount;
        ghost var head := parser.Stored();
        parser.ParsePartsUncheck(Text.Split(sub, ":"));
        SideExtends(e, head, Text.Split(sub, ":"));
        assert parser.Stored().groups[..firstPartCount] == head.groups;
        parser.MakeRoom(firstPartCount);
      } else {
        assert false;
      }
    }
    assert |chunks| == 1 ==> parser.partResults[..] == parser.Stored().groups;
    HtonInPlace(e, parser.partResults);
    a := Address(parser.partResults[..]);
  }
}
