/** The formatter of `address_v6`, step by step: the specification parser that sets its flags, the scan for the longest
    run, and the loops that append to the output. */
module AddressV6Formatter {
  import opened ByteOrder
  import opened AddressV6
  import opened AddressV6Format
  import Text
  import AddressV4

  // ----- the specification language

  /** The letter that a character stands for, whatever its case. */
  function Letter(c: char): char {
    if 'A' <= c <= 'Z' then c - 'A' + 'a' else c
  }

  const LETTERS := "rfzmnu"

  lemma InLetters(c: char)
    ensures c in LETTERS <==> c == 'r' || c == 'f' || c == 'z' || c == 'm' || c == 'n' || c == 'u'
  {
    assert LETTERS == ['r', 'f', 'z', 'm', 'n', 'u'];
  }

  predicate Has(text: string, letter: char) {
    exists i :: 0 <= i < |text| && Letter(text[i]) == letter
  }

  /** Known letters only, none twice; 'r' not with 'f', 'z' or 'm'; 'm' not with 'n'. */
  predicate Legal(text: string) {
    && (forall i :: 0 <= i < |text| ==> Letter(text[i]) in LETTERS)
    && (forall i, j :: 0 <= i < j < |text| ==> Letter(text[i]) != Letter(text[j]))
    && !(Has(text, 'r') && (Has(text, 'f') || Has(text, 'z') || Has(text, 'm')))
    && !(Has(text, 'm') && Has(text, 'n'))
  }

  /** The flags that a legal specification sets; the empty one asks for the recommended form. */
  function SpecOf(text: string): Spec {
    if text == "" then RECOMMENDED
    else Spec(Has(text, 'r'), Has(text, 'f'), Has(text, 'z'), Has(text, 'm'), Has(text, 'n'), Has(text, 'u'))
  }

  /** The flags, by the characters of the text. */
  lemma SpecOfExact(text: string)
    ensures var spec := SpecOf(text);
            && (spec.r <==> text == "" || 'r' in text || 'R' in text)
            && (spec.f <==> 'f' in text || 'F' in text)
            && (spec.z <==> 'z' in text || 'Z' in text)
            && (spec.m <==> 'm' in text || 'M' in text)
            && (spec.n <==> 'n' in text || 'N' in text)
            && (spec.u <==> 'u' in text || 'U' in text)
  {
    hide Has;
    HasExact(text, 'r', 'R');
    HasExact(text, 'f', 'F');
    HasExact(text, 'z', 'Z');
    HasExact(text, 'm', 'M');
    HasExact(text, 'n', 'N');
    HasExact(text, 'u', 'U');
  }

  lemma HasExact(text: string, lower: char, upper: char)
    requires 'a' <= lower <= 'z' && 'A' <= upper <= 'Z' && lower - 'a' == upper - 'A'
    ensures Has(text, lower) <==> lower in text || upper in text
  {
    forall c: char ensures Letter(c) == lower <==> c == lower || c == upper {
    }
    if Has(text, lower) {
      var i :| 0 <= i < |text| && Letter(text[i]) == lower;
      assert text[i] in text;
    }
  }

  /** Neither of two characters, which are the cases of one letter, occurs a second time. */
  predicate Once(text: string, lower: char, upper: char) {
    forall i, j :: 0 <= i < j < |text| ==>
                     !((text[i] == lower || text[i] == upper) && (text[j] == lower || text[j] == upper))
  }

  /** The legal specifications, by their characters. */
  predicate LegalByText(text: string) {
    && (forall i :: 0 <= i < |text| ==> text[i] in "rRfFzZmMnNuU")
    && Once(text, 'r', 'R') && Once(text, 'f', 'F') && Once(text, 'z', 'Z')
    && Once(text, 'm', 'M') && Once(text, 'n', 'N') && Once(text, 'u', 'U')
    && (('r' in text || 'R' in text) ==>
          && 'f' !in text && 'F' !in text && 'z' !in text && 'Z' !in text && 'm' !in text && 'M' !in text)
    && (('m' in text || 'M' in text) ==> 'n' !in text && 'N' !in text)
  }

  lemma LegalExact(text: string)
    ensures Legal(text) <==> LegalByText(text)
  {
    hide Has;
    HasExact(text, 'r', 'R');
    HasExact(text, 'f', 'F');
    HasExact(text, 'z', 'Z');
    HasExact(text, 'm', 'M');
    HasExact(text, 'n', 'N');
    forall c: char ensures Letter(c) in LETTERS <==> c in "rRfFzZmMnNuU" {
      KnownCharacters(c);
    }
    if forall i :: 0 <= i < |text| ==> Letter(text[i]) in LETTERS {
      OnceExact(text);
    }
  }

  lemma KnownCharacters(c: char)
    ensures Letter(c) in LETTERS <==> c in "rRfFzZmMnNuU"
  {
    InLetters(Letter(c));
    assert "rRfFzZmMnNuU" == ['r', 'R', 'f', 'F', 'z', 'Z', 'm', 'M', 'n', 'N', 'u', 'U'];
  }

  lemma OnceExact(text: string)
    requires forall i :: 0 <= i < |text| ==> Letter(text[i]) in LETTERS
    ensures (forall i, j :: 0 <= i < j < |text| ==> Letter(text[i]) != Letter(text[j])) <==>
            && Once(text, 'r', 'R') && Once(text, 'f', 'F') && Once(text, 'z', 'Z')
            && Once(text, 'm', 'M') && Once(text, 'n', 'N') && Once(text, 'u', 'U')
  {
    if i, j :| 0 <= i < j < |text| && Letter(text[i]) == Letter(text[j]) {
      InLetters(Letter(text[i]));
    }
  }

  /** The specification ends at the first closing brace, or with the input. */
  function SpecEnd(ctx: string): (i: nat)
    ensures i <= |ctx|
  {
    Text.FindFrom(ctx, "}", 0)
  }

  lemma SpecEndExact(ctx: string, i: nat)
    requires i < |ctx|
    ensures i < SpecEnd(ctx) ==> ctx[i] != '}'
    ensures i == SpecEnd(ctx) ==> ctx[i] == '}'
  {
    assert ctx[i..i + 1] == [ctx[i]];
    assert ctx[i] == '}' ==> Text.OccursAt(ctx, "}", i);
    assert i == SpecEnd(ctx) ==> Text.OccursAt(ctx, "}", i);
  }

  lemma HasMore(text: string, i: nat, letter: char)
    requires i < |text|
    ensures Has(text[..i + 1], letter) <==> Has(text[..i], letter) || Letter(text[i]) == letter
  {
    if Has(text[..i + 1], letter) && Letter(text[i]) != letter {
      var j :| 0 <= j < i + 1 && Letter(text[..i + 1][j]) == letter;
      assert Letter(text[..i][j]) == letter;
    }
    if Has(text[..i], letter) {
      var j :| 0 <= j < i && Letter(text[..i][j]) == letter;
      assert Letter(text[..i + 1][j]) == letter;
    }
    assert Letter(text[..i + 1][i]) == Letter(text[i]);
  }

  /** The letters read so far, without repetition. */
  predicate ReadOnce(text: string, i: nat)
    requires i <= |text|
  {
    && (forall j :: 0 <= j < i ==> Letter(text[j]) in LETTERS)
    && (forall j, k :: 0 <= j < k < i ==> Letter(text[j]) != Letter(text[k]))
  }

  lemma Repeated(text: string, i: nat)
    requires i < |text| && Has(text[..i], Letter(text[i]))
    ensures !Legal(text)
  {
    var j :| 0 <= j < i && Letter(text[..i][j]) == Letter(text[i]);
    assert Letter(text[j]) == Letter(text[i]);
  }

  lemma ReadMore(text: string, i: nat)
    requires i < |text| && ReadOnce(text, i) && Letter(text[i]) in LETTERS && !Has(text[..i], Letter(text[i]))
    ensures ReadOnce(text, i + 1)
  {
    forall j | 0 <= j < i ensures Letter(text[j]) != Letter(text[i]) {
      assert text[..i][j] == text[j];
    }
  }

  class Formatter {
    var seenR: bool
    var seenF: bool
    var seenZ: bool
    var seenM: bool
    var seenN: bool
    var seenU: bool

    constructor ()
      ensures Flags() == Spec(false, false, false, false, false, false)
    {
      seenR, seenF, seenZ, seenM, seenN, seenU := false, false, false, false, false, false;
    }

    function Flags(): Spec
      reads this
    {
      Spec(seenR, seenF, seenZ, seenM, seenN, seenU)
    }

    /** The flags are the letters of the text read so far. */
    ghost predicate Read(text: string, i: nat)
      requires i <= |text|
      reads this
    {
      && seenR == Has(text[..i], 'r') && seenF == Has(text[..i], 'f') && seenZ == Has(text[..i], 'z')
      && seenM == Has(text[..i], 'm') && seenN == Has(text[..i], 'n') && seenU == Has(text[..i], 'u')
    }

    /** One pass of the letter switch; false is a thrown `format_error`. */
    method Switch(c: char, ghost text: string, ghost i: nat) returns (ok: bool)
      requires i < |text| && c == text[i] && Read(text, i) && ReadOnce(text, i)
      modifies this
      ensures ok ==> Read(text, i + 1) && ReadOnce(text, i + 1)
      ensures !ok ==> !Legal(text)
    {
      ghost var letter := Letter(c);
      HasMore(text, i, 'r');
      HasMore(text, i, 'f');
      HasMore(text, i, 'z');
      HasMore(text, i, 'm');
      HasMore(text, i, 'n');
      HasMore(text, i, 'u');
      InLetters(letter);
      ok := false;
      if c == 'r' || c == 'R' {
        ok := !seenR;
        seenR := true;
      } else if c == 'f' || c == 'F' {
        ok := !seenF;
        seenF := true;
      } else if c == 'z' || c == 'Z' {
        ok := !seenZ;
        seenZ := true;
      } else if c == 'm' || c == 'M' {
        ok := !seenM;
        seenM := true;
      } else if c == 'n' || c == 'N' {
        ok := !seenN;
        seenN := true;
      } else if c == 'u' || c == 'U' {
        ok := !seenU;
        seenU := true;
      }
      if ok {
        ReadMore(text, i);
      } else if Has(text[..i], letter) {
        Repeated(text, i);
      } else {
        assert letter !in LETTERS;
      }
    }

    /** `parse`: accepts exactly the legal specifications, stops behind them, and sets the flags for their letters. */
    method Parse(ctx: string) returns (ok: bool, it: nat)
      requires Flags() == Spec(false, false, false, false, false, false)
      modifies this
      ensures ok <==> Legal(ctx[..SpecEnd(ctx)])
      ensures ok ==> it == SpecEnd(ctx) && Flags() == SpecOf(ctx[..SpecEnd(ctx)])
      ensures var text := ctx[..SpecEnd(ctx)];
              && (ok <==> LegalByText(text))
              && (ok ==> && (seenR <==> text == "" || 'r' in text || 'R' in text)
                         && (seenF <==> 'f' in text || 'F' in text)
                         && (seenZ <==> 'z' in text || 'Z' in text)
                         && (seenM <==> 'm' in text || 'M' in text)
                         && (seenN <==> 'n' in text || 'N' in text)
                         && (seenU <==> 'u' in text || 'U' in text))
    {
      hide LegalByText;
      ghost var text := ctx[..SpecEnd(ctx)];
      LegalExact(text);
      SpecOfExact(text);
      it := 0;
      if it < |ctx| {
        SpecEndExact(ctx, it);
      }
      if it == |ctx| || ctx[it] == '}' {
        assert text == "";
        seenR := true;
        return true, it;
      }
      while it < |ctx| && ctx[it] != '}'
        invariant it <= |text| && Read(text, it) && ReadOnce(text, it)
      {
        SpecEndExact(ctx, it);
        assert it < |text| && ctx[it] == text[it];
        ok := Switch(ctx[it], text, it);
        if !ok {
          return;
        }
        it := it + 1;
        if it < |ctx| {
          SpecEndExact(ctx, it);
        }
      }
      if it < |ctx| {
        SpecEndExact(ctx, it);
      }
      assert it == |text| && text[..it] == text;
      ok := true;
      if seenR {
        if seenF {
          return false, it;
        }
        if seenZ {
          return false, it;
        }
        if seenM {
          return false, it;
        }
      } else {
        if seenM && seenN {
          return false, it;
        }
      }
    }

    /** `format`. */
    method Format(e: Endian, a: Address) returns (s: string)
      ensures s == AddressV6Format.Format(e, Flags(), a)
    {
      hide CompressedText, FullText, AddressV4.Dotted, BytesOfWord, WordOfHalves, Hton16, CheckMixed;
      var local := Hton(e, a.raw);
      var recommended, full, removed, uppercase := seenR, seenF, !seenZ, seenU;
      var mixed := if recommended then !seenN && CheckMixed(local) else seenM;
      var out: string;
      if full {
        out := FullText(local[..Limit(mixed)], removed, mixed, uppercase);
      } else {
        out := CompressedIpv6("", local, removed, mixed, uppercase);
      }
      if mixed {
        var v4 := AddressV4.Address(WordOfHalves(e, Halves(a.raw[6], a.raw[7])));
        assert AddressV4.Format(e, v4) == AddressV4.Dotted(V4Part(e, a));
        s := out + AddressV4.Format(e, v4);
      } else {
        s := out + "";
      }
    }
  }

  /** `compressed_ipv6`: one pass finds the run to leave out, two more write the groups on either side of it. */
  method CompressedIpv6(out: string, local: Raw, removed: bool, mixed: bool, upper: bool) returns (r: string)
    ensures r == out + CompressedText(local, removed, mixed, upper)
  {
    hide GroupText, Hton16;
    var bestStart, bestLen, curStart, curLen := 0, 0, 0, 0;
    var limit := Limit(mixed);
    ghost var l := local[..limit];
    for i := 0 to limit
      invariant Scan(l, i) == ScanState(Run(bestStart, bestLen), Run(curStart, curLen))
    {
      if local[i] == 0 {
        if curLen == 0 {
          curStart := i;
        }
        curLen := curLen + 1;
        if curLen > bestLen {
          bestLen, bestStart := curLen, curStart;
        }
      } else {
        curLen := 0;
      }
    }
    RunInside(l);
    r := WriteAround(out, local, removed, mixed, upper, bestStart, bestLen);
  }

  /** The groups before the run, each followed by a colon. */
  method WriteBefore(out: string, local: Raw, removed: bool, upper: bool, end: nat) returns (r: string)
    requires end <= 8
    ensures r == out + Before(GroupTexts(local[..end], removed, upper))
  {
    hide GroupText;
    ghost var t := GroupTexts(local[..end], removed, upper);
    r := out;
    for i := 0 to end
      invariant r == out + Before(t[..i])
    {
      assert t[..i + 1][..i] == t[..i];
      r := r + GroupText(local[i], removed, upper) + ":";
    }
    assert t[..end] == t;
  }

  /** The groups behind the run, each preceded by a colon. */
  method WriteAfter(out: string, local: Raw, removed: bool, upper: bool, first: nat, end: nat) returns (r: string)
    requires first <= end <= 8
    ensures r == out + After(GroupTexts(local[first..end], removed, upper))
  {
    hide GroupText;
    ghost var t := GroupTexts(local[first..end], removed, upper);
    r := out;
    for i := first to end
      invariant r == out + After(t[..i - first])
    {
      var n := i - first;
      assert t[..n + 1][..n] == t[..n];
      r := r + ":" + GroupText(local[i], removed, upper);
    }
    assert t[..end - first] == t;
  }

  /** The part of `compressed_ipv6` behind the scan. */
  method WriteAround(out: string, local: Raw, removed: bool, mixed: bool, upper: bool, bestStart: nat, bestLen: nat)
    returns (r: string)
    requires LongestRun(local[..Limit(mixed)]) == Run(bestStart, bestLen)
    requires bestStart + bestLen <= Limit(mixed)
    ensures r == out + CompressedText(local, removed, mixed, upper)
  {
    hide GroupText, GroupTexts, Scan, LeftmostLongest, Text.Join, FullText, Before, After;
    var limit := Limit(mixed);
    if bestLen < 2 {
      return out + FullText(local[..limit], removed, mixed, upper);
    }
    if bestStart == 0 && bestLen == limit {
      return out + [':', ':'];
    }
    var first := bestStart + bestLen;
    ghost var l := local[..limit];
    CompressedTextPieces(local, removed, mixed, upper, Run(bestStart, bestLen));
    assert l[..bestStart] == local[..bestStart] && l[first..] == local[first..limit];
    ghost var ht, tt := GroupTexts(local[..bestStart], removed, upper), GroupTexts(local[first..limit], removed, upper);
    r := WriteBefore(out, local, removed, upper, bestStart);
    if bestStart == 0 {
      r := r + ":";
    }
    assert r == out + Before(ht) + (if ht == [] then ":" else "");
    r := WriteAfter(r, local, removed, upper, first, limit);
    if bestStart + bestLen == limit || mixed {
      r := r + ":";
    }
    assert r == out + Before(ht) + (if ht == [] then ":" else "") + After(tt) + (if tt == [] || mixed then ":" else "");
    InFront(out, Before(ht), if ht == [] then ":" else "", After(tt), if tt == [] || mixed then ":" else "");
  }

  lemma InFront(out: string, a: string, b: string, c: string, d: string)
    ensures out + a + b + c + d == out + (a + b + c + d)
  {
  }
}
