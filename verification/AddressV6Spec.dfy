/** From the characters of a format specification to the form of the printed address. */
module AddressV6Spec {
  import opened Errors
  import opened ByteOrder
  import opened AddressV6Grammar
  import opened AddressV6
  import opened AddressV6Format
  import opened AddressV6Canonical
  import AddressV6Formatter
  import Charconv

  /** A group as the specification asks for it: four digits, or none that is superfluous; of one case. */
  predicate DigitsAsAsked(digits: string, padded: bool, upper: bool) {
    && (if padded then |digits| == 4 else |digits| > 1 ==> digits[0] != '0')
    && forall i :: 0 <= i < |digits| ==> digits[i] in (if upper then "0123456789ABCDEF" else "0123456789abcdef")
  }

  predicate SectionsAsAsked(xs: seq<Section>, padded: bool, upper: bool) {
    forall i :: 0 <= i < |xs| && xs[i].Hex? ==> DigitsAsAsked(xs[i].digits, padded, upper)
  }

  /** What the letters mean: 'f' forbids "::", without it "::" stands for the leftmost longest run of two or more zero
      groups, if there is one; 'z' pads the groups; 'u' makes them upper case; 'm' asks for a dotted part; and 'r', or
      no letter at all, leaves the dotted part to the recommendation, which 'n' overrides. */
  ghost predicate AsAsked(text: string, f: Form, local: Raw)
    requires ValidForm(f)
  {
    var padded, upper := 'z' in text || 'Z' in text, 'u' in text || 'U' in text;
    && (match f
        case Full(xs) => SectionsAsAsked(xs, padded, upper)
        case Compressed(head, tail) => SectionsAsAsked(head, padded, upper) && SectionsAsAsked(tail, padded, upper))
    && (if 'f' in text || 'F' in text then f.Full? else RunLeftOut(f, Scanned(Embeds(f), local)))
    && (Embeds(f) <==>
          if text == "" || 'r' in text || 'R' in text then 'n' !in text && 'N' !in text && RecommendsDotted(local)
          else 'm' in text || 'M' in text)
  }

  /** "::" stands for the leftmost longest run of zeros among the groups in hexadecimal, if that has two groups or more;
      and otherwise there is none. */
  ghost predicate RunLeftOut(f: Form, l: seq<uint16>)
    requires ValidForm(f)
  {
    match f
    case Full(_) => forall i: nat :: !ZeroPair(l, i)
    case Compressed(head, tail) =>
      var run := 8 - |Groups(head)| - |Groups(tail)|;
      run >= 2 && LeftmostLongest(l, Run(|head|, run))
  }

  lemma DigitsAsAskedExact(x: Section, padded: bool, upper: bool)
    requires ValidSection(x) && x.Hex?
    ensures DigitsAsAsked(x.digits, padded, upper) <==> StyledSection(x, !padded, upper)
  {
    var s := x.digits;
    forall i | 0 <= i < |s|
      ensures s[i] in (if upper then "0123456789ABCDEF" else "0123456789abcdef") <==>
              if upper then !('a' <= s[i] <= 'z') else !('A' <= s[i] <= 'Z')
    {
      CaseExact(s[i], upper);
    }
  }

  lemma CaseExact(c: char, upper: bool)
    requires Charconv.IsDigit(c, 16)
    ensures c in (if upper then "0123456789ABCDEF" else "0123456789abcdef") <==>
            if upper then !('a' <= c <= 'z') else !('A' <= c <= 'Z')
  {
    Charconv.DigitsByText(c);
    assert "0123456789ABCDEF" ==
           ['0', '1', '2', '3', '4', '5', '6', '7', '8', '9', 'A', 'B', 'C', 'D', 'E', 'F'];
    assert "0123456789abcdef" ==
           ['0', '1', '2', '3', '4', '5', '6', '7', '8', '9', 'a', 'b', 'c', 'd', 'e', 'f'];
  }

  lemma SectionsAsAskedExact(xs: seq<Section>, padded: bool, upper: bool)
    requires AllValid(xs)
    ensures SectionsAsAsked(xs, padded, upper) <==> StyledSections(xs, !padded, upper)
  {
    hide StyledSection, DigitsAsAsked, ValidSection;
    forall i | 0 <= i < |xs| && xs[i].Hex?
      ensures DigitsAsAsked(xs[i].digits, padded, upper) <==> StyledSection(xs[i], !padded, upper)
    {
      DigitsAsAskedExact(xs[i], padded, upper);
    }
    forall i | 0 <= i < |xs| && xs[i].Embedded? ensures StyledSection(xs[i], !padded, upper) {
      EmbeddedStyled(xs[i], !padded, upper);
    }
  }

  lemma EmbeddedStyled(x: Section, removed: bool, upper: bool)
    requires x.Embedded?
    ensures StyledSection(x, removed, upper)
  {
  }

  lemma AsAskedObeys(text: string, f: Form, local: Raw)
    requires ValidForm(f)
    ensures AsAsked(text, f, local) <==> Obeys(AddressV6Formatter.SpecOf(text), f, local)
  {
    hide AddressV6Formatter.SpecOf, StyledSections, SectionsAsAsked, LeftmostLongest, RecommendsDotted, Groups, Scanned,
         ValidSection;
    AddressV6Formatter.SpecOfExact(text);
    var padded, upper := 'z' in text || 'Z' in text, 'u' in text || 'U' in text;
    match f
    case Full(xs) => SectionsAsAskedExact(xs, padded, upper);
    case Compressed(head, tail) =>
      SectionsAsAskedExact(head, padded, upper);
      SectionsAsAskedExact(tail, padded, upper);
  }

  /** For every specification: an accepted text is what is printed for its address exactly if it is written as the
      letters ask. */
  lemma PrintedExact(e: Endian, text: string, f: Form)
    requires Accepted(f)
    ensures Render(f) == Format(e, AddressV6Formatter.SpecOf(text), Address(Hton(e, Denote(f)))) <==>
            AsAsked(text, f, Denote(f))
  {
    hide Render, Format, Obeys, AsAsked, AddressV6Formatter.SpecOf;
    FormatExact(e, AddressV6Formatter.SpecOf(text), f);
    AsAskedObeys(text, f, Denote(f));
  }

  /** Formatting an address with a specification: the formatter reads it up to the closing brace and then prints. What
      is rejected is said by characters, and so is the form of what is printed. */
  method FormatWith(e: Endian, ctx: string, a: Address) returns (r: Option<string>)
    ensures var text := ctx[..AddressV6Formatter.SpecEnd(ctx)];
            && (r.Some? <==> AddressV6Formatter.LegalByText(text))
            && (r.Some? ==> exists f: Form ::
                              && Accepted(f) && Denote(f) == Hton(e, a.raw) && Render(f) == r.value
                              && AsAsked(text, f, Hton(e, a.raw)))
  {
    hide Render, Format, AsAsked, AddressV6Formatter.SpecOf, AddressV6Formatter.LegalByText, AddressV6Formatter.Legal;
    ghost var text := ctx[..AddressV6Formatter.SpecEnd(ctx)];
    ghost var spec := AddressV6Formatter.SpecOf(text);
    var formatter := new AddressV6Formatter.Formatter();
    var ok, it := formatter.Parse(ctx);
    if !ok {
      return None;
    }
    var s := formatter.Format(e, a);
    PrintedFormFacts(e, spec, a);
    HtonInvolution(e, a.raw);
    PrintedExact(e, text, PrintedForm(e, spec, a));
    r := Some(s);
  }
}
