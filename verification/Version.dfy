/** `ring::version_info`: "major.minor" text, its parser, and the order of versions. */
module Version {
  import opened Errors
  import Text
  import Charconv

  const INT_MAX: nat := 0x7fff_ffff

  type int32 = n: int | -0x8000_0000 <= n < 0x8000_0000

  datatype Version = Version(major: int32, minor: int32)

  /** `invalid()`: both parts at their largest value. */
  const INVALID := Version(0x7fff_ffff, 0x7fff_ffff)

  /** The `std::formatter` of versions whose parts are not negative. */
  function Format(v: Version, separator: char): (s: string)
    requires v.major >= 0 && v.minor >= 0
  {
    Charconv.Decimal(v.major) + [separator] + Charconv.Decimal(v.minor)
  }

  /** The `<=>` of versions is lexicographic. */
  predicate Less(v: Version, w: Version) {
    v.major < w.major || (v.major == w.major && v.minor < w.minor)
  }

  /** The order, by one number: the major part counts more than any minor part. */
  lemma LessExact(v: Version, w: Version)
    ensures v.minor >= 0 && w.minor >= 0 ==>
              (Less(v, w) <==> v.major * 0x8000_0000 + v.minor < w.major * 0x8000_0000 + w.minor)
    ensures Less(v, w) || v == w || Less(w, v)
    ensures !(Less(v, w) && Less(w, v)) && !Less(v, v)
  {
  }

  /** One part of the text: a decimal number read to its end, and not negative. */
  function Number(t: string): (r: Option<nat>)
    ensures r.Some? ==> r.value <= INT_MAX
  {
    var (ptr, v) := Charconv.FromCharsSigned(t, INT_MAX);
    if v.Err? || ptr != |t| || v.value < 0 || v.value > INT_MAX then None else Some(v.value)
  }

  function Parse(s: string): (v: Version) {
    var parts := Text.Split(s, ".");
    if |parts| == 2 && Number(parts[0]).Some? && Number(parts[1]).Some? then
      Version(Number(parts[0]).value, Number(parts[1]).value)
    else INVALID
  }

  /** `version_info::from_string`. */
  method FromString(s: string) returns (v: Version)
    ensures v == Parse(s)
  {
    var major, minor := -1, -1;
    var parts := Text.Split(s, ".");
    for i := 0 to |parts|
      invariant i == 0 ==> major == -1
      invariant i >= 1 ==> Number(parts[0]) == Some(major)
      invariant i <= 1 ==> minor == -1
      invariant i == 2 ==> Number(parts[1]) == Some(minor)
      invariant i <= 2
    {
      var num := parts[i];
      if major == -1 {
        var (ptr, value) := Charconv.FromCharsSigned(num, INT_MAX);
        if value.Err? || ptr != |num| {
          return INVALID;
        }
        major := value.value;
        if major < 0 {
          return INVALID;
        }
        SignedBound(num);
      } else if minor == -1 {
        var (ptr, value) := Charconv.FromCharsSigned(num, INT_MAX);
        if value.Err? || ptr != |num| {
          return INVALID;
        }
        minor := value.value;
        if minor < 0 {
          return INVALID;
        }
        SignedBound(num);
      } else {
        return INVALID;
      }
    }
    if major == -1 || minor == -1 {
      return INVALID;
    }
    v := Version(major, minor);
  }

  lemma SignedBound(t: string)
    ensures Charconv.FromCharsSigned(t, INT_MAX).1.Ok? ==>
              -0x8000_0000 <= Charconv.FromCharsSigned(t, INT_MAX).1.value <= INT_MAX
  {
  }

  // ----- what is accepted

  predicate DigitsOf(t: string, n: nat) {
    t != "" && Charconv.AllDigits(t, 10) && Charconv.Value(t, 10) == n
  }

  /** The texts of a number: digits, with any number of leading zeros, and for zero also with a minus sign. */
  predicate NumberText(t: string, n: nat) {
    n <= INT_MAX && (DigitsOf(t, n) || (t != "" && t[0] == '-' && n == 0 && DigitsOf(t[1..], 0)))
  }

  lemma NumberExact(t: string, n: nat)
    ensures Number(t) == Some(n) <==> NumberText(t, n)
  {
    if t != "" && t[0] == '-' {
      var d := t[1..];
      if NumberText(t, n) {
        assert !Charconv.IsDigit('-', 10);
        Charconv.FromCharsAllDigits(d, 10, INT_MAX + 1);
      }
      if Number(t) == Some(n) {
        Charconv.FromCharsConsumed(d, 10, INT_MAX + 1);
      }
    } else {
      if NumberText(t, n) {
        Charconv.FromCharsAllDigits(t, 10, INT_MAX);
      }
      if Number(t) == Some(n) {
        Charconv.FromCharsConsumed(t, 10, INT_MAX);
      }
    }
  }

  lemma NumberTextHasNoDot(t: string, n: nat)
    requires NumberText(t, n)
    ensures '.' !in t && t != ""
  {
    assert !Charconv.IsDigit('.', 10);
    if t[0] == '-' {
      assert !Charconv.IsDigit('-', 10);
      assert t == ['-'] + t[1..];
    }
  }

  /** `s` is two number texts joined by one dot. */
  ghost predicate VersionText(s: string, v: Version) {
    exists a: string, b: string ::
      s == a + "." + b && v.major >= 0 && v.minor >= 0 && NumberText(a, v.major) && NumberText(b, v.minor)
  }

  /** Two in-range numbers joined by one dot are read as that version; every other text is the invalid version. */
  lemma ParseExact(s: string)
    ensures forall v: Version :: VersionText(s, v) ==> Parse(s) == v
    ensures (forall v: Version :: !VersionText(s, v)) ==> Parse(s) == INVALID
  {
    hide Number, NumberText;
    forall v: Version | VersionText(s, v) ensures Parse(s) == v {
      var a: string, b: string :|
        s == a + "." + b && v.major >= 0 && v.minor >= 0 && NumberText(a, v.major) && NumberText(b, v.minor);
      NumberTextHasNoDot(a, v.major);
      NumberTextHasNoDot(b, v.minor);
      Text.CutAtChar(a, '.', b);
      Text.ContainsChar(b, '.');
      Text.CutFree(b, ".");
      NumberExact(a, v.major);
      NumberExact(b, v.minor);
    }
    var parts := Text.Split(s, ".");
    if |parts| == 2 && Number(parts[0]).Some? && Number(parts[1]).Some? {
      var a, b := parts[0], parts[1];
      var v := Version(Number(a).value, Number(b).value);
      NumberExact(a, v.major);
      NumberExact(b, v.minor);
      Text.JoinCut(s, ".");
      assert parts == [a, b] && parts[1..] == [b];
      assert VersionText(s, v);
    }
  }

  /** Every version with non-negative parts is read back from its text. */
  lemma RoundTrip(v: Version)
    requires v.major >= 0 && v.minor >= 0
    ensures Parse(Format(v, '.')) == v
  {
    hide Parse;
    Charconv.DigitsValue(v.major, 10, false);
    Charconv.DigitsValue(v.minor, 10, false);
    var a, b := Charconv.Decimal(v.major), Charconv.Decimal(v.minor);
    assert NumberText(a, v.major) && NumberText(b, v.minor);
    assert Format(v, '.') == a + "." + b;
    assert VersionText(Format(v, '.'), v);
    ParseExact(Format(v, '.'));
  }

  /** Comparing a version with the text of another compares the two. */
  lemma CompareText(v: Version, w: Version)
    requires v.minor >= 0 && w.major >= 0 && w.minor >= 0
    ensures Less(v, Parse(Charconv.Decimal(w.major) + "." + Charconv.Decimal(w.minor))) <==>
            v.major * 0x8000_0000 + v.minor < w.major * 0x8000_0000 + w.minor
    ensures v == Parse(Charconv.Decimal(w.major) + "." + Charconv.Decimal(w.minor)) <==> v == w
  {
    hide Parse, Less;
    RoundTrip(w);
    LessExact(v, w);
  }

  /** Against a text that is no version, a version compares as smaller, unless it is the invalid version itself: only
      then does the comparison with malformed text not report "newer". */
  lemma MalformedIsNewer(s: string, v: Version)
    requires forall w: Version :: !VersionText(s, w)
    ensures Less(v, Parse(s)) <==> v != INVALID
    ensures !Less(Parse(s), v)
  {
    hide Parse;
    ParseExact(s);
  }

  /** At a real input: the text "x" is no version, and the invalid version does not compare as older than it. */
  lemma MalformedExample()
    ensures forall w: Version :: !VersionText("x", w)
    ensures Parse("x") == INVALID && !Less(INVALID, Parse("x"))
  {
    hide NumberText;
    forall w: Version | VersionText("x", w) ensures false {
      var a: string, b: string :|
        "x" == a + "." + b && w.major >= 0 && w.minor >= 0 && NumberText(a, w.major) && NumberText(b, w.minor);
      NumberTextHasNoDot(a, w.major);
      NumberTextHasNoDot(b, w.minor);
    }
    ParseExact("x");
  }
}
