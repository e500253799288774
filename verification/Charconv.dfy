/** Integer text in base 10 and 16: `std::from_chars` and the `{}`, `{:x}`, `{:X}`, `{:04x}`, `{:04X}` formats. */
module Charconv {
  import opened Errors

  predicate IsBase(base: int) {
    base == 10 || base == 16
  }

  /** The value of an alphanumeric character as a digit, or a value no base admits. */
  function DigitValue(c: char): (v: nat) {
    if '0' <= c <= '9' then (c - '0') as int
    else if 'a' <= c <= 'z' then (c - 'a') as int + 10
    else if 'A' <= c <= 'Z' then (c - 'A') as int + 10
    else 36
  }

  predicate IsDigit(c: char, base: int) {
    DigitValue(c) < base
  }

  function DigitChar(v: nat, upper: bool): (c: char)
    requires v < 16
    ensures DigitValue(c) == v
    ensures v < 10 <==> '0' <= c <= '9'
    ensures v >= 10 ==> if upper then 'A' <= c <= 'F' else 'a' <= c <= 'f'
  {
    if v < 10 then '0' + v as char
    else if upper then 'A' + (v - 10) as char
    else 'a' + (v - 10) as char
  }

  /** The digits by their text, in either case; every other character has a value that no base admits. */
  lemma DigitsByText(c: char)
    ensures forall i :: 0 <= i < 16 ==>
                          && DigitValue("0123456789abcdef"[i]) == DigitValue("0123456789ABCDEF"[i]) == i
                          && DigitChar(i, false) == "0123456789abcdef"[i]
                          && DigitChar(i, true) == "0123456789ABCDEF"[i]
    ensures DigitValue(c) < 16 <==> c in "0123456789abcdef" || c in "0123456789ABCDEF"
    ensures DigitValue(c) < 10 <==> c in "0123456789"
  {
    var lower, upper, decimal := "0123456789abcdef", "0123456789ABCDEF", "0123456789";
    forall i | 0 <= i < 16 ensures DigitChar(i, false) == lower[i] && DigitChar(i, true) == upper[i] {
      assert i == 0 || i == 1 || i == 2 || i == 3 || i == 4 || i == 5 || i == 6 || i == 7 ||
             i == 8 || i == 9 || i == 10 || i == 11 || i == 12 || i == 13 || i == 14 || i == 15;
    }
    if DigitValue(c) < 16 {
      DigitCharOfValue(c, 16, 'A' <= c <= 'Z');
      var v := DigitValue(c);
      assert c == if 'A' <= c <= 'Z' then upper[v] else lower[v];
      assert v < 10 ==> decimal[v] == lower[v];
    }
    if c in decimal {
      var i :| 0 <= i < 10 && decimal[i] == c;
      assert decimal[i] == lower[i];
    }
  }

  predicate AllDigits(s: string, base: int) {
    forall i :: 0 <= i < |s| ==> IsDigit(s[i], base)
  }

  /** The number that a digit string denotes, most significant digit first. */
  function Value(s: string, base: int): (v: nat)
    requires IsBase(base) && AllDigits(s, base)
  {
    if s == "" then 0
    else Value(s[..|s| - 1], base) * base + DigitValue(s[|s| - 1])
  }

  /** The length of the longest prefix made of digits, counted from position `i`. */
  function DigitRun(s: string, base: int, i: nat): (r: nat)
    requires i <= |s|
    ensures i <= r <= |s|
    ensures forall j :: i <= j < r ==> IsDigit(s[j], base)
    ensures r < |s| ==> !IsDigit(s[r], base)
    decreases |s| - i
  {
    if i < |s| && IsDigit(s[i], base) then DigitRun(s, base, i + 1) else i
  }

  /** What `std::from_chars` leaves behind: how far it read, and the value it stored or the error it reports. */
  datatype Conversion = Conversion(ptr: nat, result: Result<nat>)

  /** `std::from_chars` into an unsigned type whose largest value is `max`: no sign, no prefix, no blanks. */
  function FromChars(s: string, base: int, max: nat): (c: Conversion)
    requires IsBase(base)
    ensures c.ptr <= |s|
    ensures c.result.Ok? ==> c.result.value <= max
  {
    var k := DigitRun(s, base, 0);
    if k == 0 then Conversion(0, Err(InvalidArgument))
    else
      var v := Value(s[..k], base);
      Conversion(k, if v <= max then Ok(v) else Err(ResultOutOfRange))
  }

  /** `std::from_chars` into a signed type, base 10: one leading minus sign is admitted. */
  function FromCharsSigned(s: string, max: nat): (c: (nat, Result<int>))
    ensures c.0 <= |s|
  {
    if s != "" && s[0] == '-' then
      var c := FromChars(s[1..], 10, max + 1);
      match c.result
      case Ok(v) => var w: int := v; var negated: int := -w; (c.ptr + 1, Ok(negated))
      case Err(ec) => (if c.ptr == 0 then 0 else c.ptr + 1, Err(ec))
    else
      var c := FromChars(s, 10, max);
      match c.result
      case Ok(v) => var positive: int := v; (c.ptr, Ok(positive))
      case Err(ec) => (c.ptr, Err(ec))
  }

  /** A digit string is read to its end. */
  lemma FromCharsAllDigits(s: string, base: int, max: nat)
    requires IsBase(base) && s != "" && AllDigits(s, base)
    ensures FromChars(s, base, max) ==
            Conversion(|s|, if Value(s, base) <= max then Ok(Value(s, base)) else Err(ResultOutOfRange))
  {
    assert DigitRun(s, base, 0) == |s|;
    assert s[..|s|] == s;
  }

  /** Reading to the end with a value means that the text was a digit string of that value. */
  lemma FromCharsConsumed(s: string, base: int, max: nat)
    requires IsBase(base)
    requires FromChars(s, base, max).result.Ok? && FromChars(s, base, max).ptr == |s|
    ensures s != "" && AllDigits(s, base) && FromChars(s, base, max).result.value == Value(s, base)
  {
    assert s[..|s|] == s;
  }

  /** The shortest digit string of `n`: the `{}`, `{:x}` and `{:X}` formats. */
  function Digits(n: nat, base: int, upper: bool): (s: string)
    requires IsBase(base)
    ensures s != ""
  {
    if n < base then [DigitChar(n, upper)]
    else Digits(n / base, base, upper) + [DigitChar(n % base, upper)]
  }

  function Decimal(n: nat): (s: string) {
    Digits(n, 10, false)
  }

  predicate NoLeadingZero(s: string) {
    |s| > 1 ==> s[0] != '0'
  }

  /** Printing then reading gives the number back, and the printed text has no superfluous zero. */
  lemma {:induction false} DigitsValue(n: nat, base: int, upper: bool)
    requires IsBase(base)
    ensures AllDigits(Digits(n, base, upper), base)
    ensures Value(Digits(n, base, upper), base) == n
    ensures NoLeadingZero(Digits(n, base, upper))
    ensures n > 0 ==> Digits(n, base, upper)[0] != '0'
    decreases n
  {
    var s := Digits(n, base, upper);
    if n < base {
      assert s[..|s| - 1] == "";
    } else {
      var q := Digits(n / base, base, upper);
      DigitsValue(n / base, base, upper);
      assert s[..|s| - 1] == q;
      assert s[0] == q[0];
      assert n / base > 0;
      assert n == n / base * base + n % base;
    }
  }

  function Power(base: nat, n: nat): nat {
    if n == 0 then 1 else Power(base, n - 1) * base
  }

  /** The value by places: a digit stands for itself, and digits in front of `n` others count `base` to the `n` times.
      */
  lemma {:induction false} ValueByPlaces(s: string, t: string, base: int)
    requires IsBase(base) && AllDigits(s, base) && AllDigits(t, base)
    ensures AllDigits(s + t, base) && Value(s + t, base) == Value(s, base) * Power(base, |t|) + Value(t, base)
    ensures |t| == 1 ==> Value(t, base) == DigitValue(t[0])
    decreases |t|
  {
    hide DigitValue, IsDigit;
    if t == "" {
      assert s + t == s;
    } else {
      var init, last := t[..|t| - 1], t[|t| - 1];
      ValueByPlaces(s, init, base);
      assert (s + t)[..|s + t| - 1] == s + init && (s + t)[|s + t| - 1] == last;
      Distribute(Value(s, base), Power(base, |init|), Value(init, base), base);
    }
  }

  lemma Distribute(v: int, p: int, w: int, base: int)
    ensures (v * p + w) * base == v * (p * base) + w * base
  {
  }

  lemma {:induction false} ValuePositive(s: string, base: int)
    requires IsBase(base) && s != "" && AllDigits(s, base) && s[0] != '0'
    ensures Value(s, base) > 0
    decreases |s|
  {
    if |s| > 1 {
      ValuePositive(s[..|s| - 1], base);
      assert Value(s[..|s| - 1], base) * base > 0;
    } else {
      assert s[..|s| - 1] == "";
    }
  }

  /** Letters of one case only. */
  predicate InCase(s: string, upper: bool) {
    forall i :: 0 <= i < |s| ==> if upper then !('a' <= s[i] <= 'z') else !('A' <= s[i] <= 'Z')
  }

  lemma DigitCharOfValue(c: char, base: int, upper: bool)
    requires IsBase(base) && IsDigit(c, base) && InCase([c], upper)
    ensures DigitChar(DigitValue(c), upper) == c
  {
    assert [c][0] == c;
  }

  lemma QuotientRemainder(q: nat, d: nat, base: int)
    requires IsBase(base) && d < base
    ensures (q * base + d) / base == q && (q * base + d) % base == d
    ensures q > 0 ==> q * base + d >= base
  {
    if base == 10 {
      assert (q * 10 + d) / 10 == q;
    } else {
      assert (q * 16 + d) / 16 == q;
    }
  }

  /** Reading then printing gives the text back, for text in one case and without superfluous zeros. */
  lemma {:induction false} ValueDigits(s: string, base: int, upper: bool)
    requires IsBase(base) && s != "" && AllDigits(s, base) && NoLeadingZero(s) && InCase(s, upper)
    ensures Digits(Value(s, base), base, upper) == s
    decreases |s|
  {
    hide Digits, DigitChar, DigitValue;
    var init, last := s[..|s| - 1], s[|s| - 1];
    DigitCharOfValue(last, base, upper);
    if |s| == 1 {
      assert init == "" && s == [last];
      DigitsOne(DigitValue(last), base, upper);
    } else {
      ValueDigits(init, base, upper);
      ValuePositive(init, base);
      DigitsStep(Value(init, base), DigitValue(last), base, upper);
      assert s == init + [last];
    }
  }

  lemma DigitsOne(d: nat, base: int, upper: bool)
    requires IsBase(base) && d < base
    ensures Digits(d, base, upper) == [DigitChar(d, upper)]
  {
  }

  lemma DigitsStep(q: nat, d: nat, base: int, upper: bool)
    requires IsBase(base) && q > 0 && d < base
    ensures Digits(q * base + d, base, upper) == Digits(q, base, upper) + [DigitChar(d, upper)]
  {
    QuotientRemainder(q, d, base);
  }

  lemma ValueDecimal(s: string)
    requires s != "" && AllDigits(s, 10) && NoLeadingZero(s)
    ensures Decimal(Value(s, 10)) == s
  {
    ValueDigits(s, 10, false);
  }

  /** Printing uses letters of the case that was asked for. */
  lemma {:induction false} DigitsCase(n: nat, base: int, upper: bool)
    requires IsBase(base)
    ensures InCase(Digits(n, base, upper), upper)
    decreases n
  {
    if n >= base {
      DigitsCase(n / base, base, upper);
    }
  }

  /** An upper bound on the printed length. */
  lemma {:induction false} DigitsLength(n: nat, base: int, upper: bool)
    requires IsBase(base)
    ensures n < 256 && base == 10 ==> |Digits(n, base, upper)| <= 3
    ensures n < 65536 && base == 16 ==> |Digits(n, base, upper)| <= 4
    ensures n < 65536 && base == 10 ==> |Digits(n, base, upper)| <= 5
  {
    if n >= base {
      var n1 := n / base;
      assert |Digits(n, base, upper)| == |Digits(n1, base, upper)| + 1;
      if n1 >= base {
        var n2 := n1 / base;
        assert |Digits(n1, base, upper)| == |Digits(n2, base, upper)| + 1;
        if n2 >= base {
          var n3 := n2 / base;
          assert |Digits(n2, base, upper)| == |Digits(n3, base, upper)| + 1;
          if n3 >= base {
            assert |Digits(n3, base, upper)| == |Digits(n3 / base, base, upper)| + 1;
          }
        }
      }
    }
  }

  /** The value of at most four hexadecimal digits fits in sixteen bits. */
  lemma {:induction false} HexValueBound(s: string)
    requires |s| <= 4 && AllDigits(s, 16)
    ensures Value(s, 16) < 65536
    ensures |s| <= 3 ==> Value(s, 16) < 4096
    ensures |s| <= 2 ==> Value(s, 16) < 256
    ensures |s| <= 1 ==> Value(s, 16) < 16
    decreases |s|
  {
    if s != "" {
      HexValueBound(s[..|s| - 1]);
      assert s[..|s| - 1] == "" ==> Value(s[..|s| - 1], 16) == 0;
    }
  }

  /** Pads with zeros on the left up to `width` characters, as `{:04x}` does. */
  function Pad(s: string, width: nat): (r: string)
    decreases width - |s|
  {
    if |s| >= width then s else Pad("0" + s, width)
  }

  lemma {:induction false} LeadingZeroValue(s: string, base: int)
    requires IsBase(base) && AllDigits(s, base)
    ensures AllDigits("0" + s, base) && Value("0" + s, base) == Value(s, base)
    decreases |s|
  {
    var z := "0" + s;
    if s == "" {
      assert z[..0] == "";
    } else {
      LeadingZeroValue(s[..|s| - 1], base);
      assert z[..|z| - 1] == "0" + s[..|s| - 1];
    }
  }

  lemma {:induction false} PadValue(s: string, base: int, width: nat)
    requires IsBase(base) && AllDigits(s, base)
    ensures AllDigits(Pad(s, width), base) && Value(Pad(s, width), base) == Value(s, base)
    ensures |Pad(s, width)| == if |s| < width then width else |s|
    decreases width - |s|
  {
    if |s| < width {
      LeadingZeroValue(s, base);
      PadValue("0" + s, base, width);
    }
  }

  lemma {:induction false} PadCase(s: string, width: nat, upper: bool)
    requires InCase(s, upper)
    ensures InCase(Pad(s, width), upper)
    decreases width - |s|
  {
    if |s| < width {
      PadCase("0" + s, width, upper);
    }
  }

  lemma {:induction false} PadMore(s: string, width: nat)
    requires |s| <= width
    ensures Pad(s, width + 1) == "0" + Pad(s, width)
    decreases width - |s|
  {
    if |s| < width {
      PadMore("0" + s, width);
    }
  }

  /** A hexadecimal text in one case is the padded text of its value. */
  lemma {:induction false} ValuePadded(s: string, upper: bool)
    requires s != "" && AllDigits(s, 16) && InCase(s, upper)
    ensures Pad(Digits(Value(s, 16), 16, upper), |s|) == s
    ensures |Digits(Value(s, 16), 16, upper)| <= |s|
    decreases |s|
  {
    if |s| > 1 && s[0] == '0' {
      var rest := s[1..];
      assert s == "0" + rest;
      ValuePadded(rest, upper);
      LeadingZeroValue(rest, 16);
      PadMore(Digits(Value(rest, 16), 16, upper), |rest|);
    } else {
      ValueDigits(s, 16, upper);
    }
  }
}
