/** Which of the texts of an address the formatter prints: an exact answer for every specification, and how `to_string`
    stands to RFC 5952. */
module AddressV6Canonical {
  import opened Errors
  import opened ByteOrder
  import opened AddressV6Grammar
  import opened AddressV6
  import opened AddressV6Format
  import Text
  import Charconv

  // ----- what a specification asks of a form

  /** The way in which a group is written: no leading zeros or exactly four digits, and one case of letters. */
  predicate StyledSection(x: Section, removed: bool, upper: bool) {
    x.Hex? ==>
      && (if removed then Charconv.NoLeadingZero(x.digits) else |x.digits| == 4)
      && Charconv.InCase(x.digits, upper)
  }

  predicate StyledSections(xs: seq<Section>, removed: bool, upper: bool) {
    forall i :: 0 <= i < |xs| ==> StyledSection(xs[i], removed, upper)
  }

  // Prefixes of ninety-six bits that are known to stand in front of an IPv4 address.

  /** "::ffff:0:0/96", section 2.5.5.2 of RFC 4291. */
  predicate MappedPrefix(local: Raw) {
    local[..6] == [0, 0, 0, 0, 0, 0xffff]
  }

  /** "::/96", section 2.5.5.1 of RFC 4291. */
  predicate CompatiblePrefix(local: Raw) {
    local[..6] == [0, 0, 0, 0, 0, 0]
  }

  /** "::ffff:0:0:0/96", section 2.1 of RFC 2765. */
  predicate TranslatedPrefix(local: Raw) {
    local[..6] == [0, 0, 0, 0, 0xffff, 0]
  }

  /** The addresses that the recommended form writes with a dotted part: IPv4-mapped ones, and IPv4-compatible ones of
      which more than the last sixteen bits are in use. */
  predicate RecommendsDotted(local: Raw) {
    MappedPrefix(local) || (CompatiblePrefix(local) && local[6] != 0)
  }

  /** Whether a specification asks for a dotted part. */
  predicate AsksDotted(spec: Spec, local: Raw) {
    if spec.r then !spec.n && RecommendsDotted(local) else spec.m
  }

  predicate Embeds(f: Form) {
    match f
    case Full(xs) => EndsEmbedded(xs)
    case Compressed(_, tail) => EndsEmbedded(tail)
  }

  /** The groups written in hexadecimal, among which "::" may stand for a run. */
  function Scanned(dotted: bool, local: Raw): seq<uint16> {
    if dotted then local[..6] else local
  }

  /** The groups are written in a given style; and "::" is used never, if the full form is asked for, or else exactly if
      there are two neighbouring zero groups among those in hexadecimal, and then for the leftmost longest run. */
  ghost predicate Written(f: Form, local: Raw, full: bool, removed: bool, upper: bool)
    requires ValidForm(f)
  {
    var l := Scanned(Embeds(f), local);
    match f
    case Full(xs) =>
      && StyledSections(xs, removed, upper)
      && (full || forall i: nat :: !ZeroPair(l, i))
    case Compressed(head, tail) =>
      && StyledSections(head, removed, upper) && StyledSections(tail, removed, upper)
      && !full
      && |Groups(head)| + |Groups(tail)| <= 6
      && LeftmostLongest(l, Run(|head|, 8 - |Groups(head)| - |Groups(tail)|))
  }

  /** The form is written as the specification asks: the style of the groups ('z', 'u'), "::" or not ('f'), and the last
      two groups in dotted form or not ('m', 'n', 'r'). */
  ghost predicate Obeys(spec: Spec, f: Form, local: Raw)
    requires ValidForm(f)
  {
    Written(f, local, spec.f, !spec.z, spec.u) && Embeds(f) == AsksDotted(spec, local)
  }

  /** The dotted rule, stated by prefixes, is the one that the formatter applies. */
  lemma AsksDottedExact(spec: Spec, local: Raw)
    ensures Mixed(spec, local) == AsksDotted(spec, local)
    ensures Scanned(AsksDotted(spec, local), local) == local[..Limit(Mixed(spec, local))]
  {
    assert local[..8] == local;
    assert forall i :: 0 <= i < 6 ==> local[..6][i] == local[i];
    if CheckMixed(local) {
      assert local[..6] == [0, 0, 0, 0, 0, local[5]];
    }
  }

  // ----- what is printed obeys the specification

  lemma SectionsStyled(l: seq<uint16>, removed: bool, upper: bool)
    ensures StyledSections(Sections(l, removed, upper), removed, upper)
  {
    forall i | 0 <= i < |l| ensures StyledSection(Sections(l, removed, upper)[i], removed, upper) {
      Charconv.DigitsValue(l[i], 16, upper);
      Charconv.DigitsLength(l[i], 16, upper);
      Charconv.DigitsCase(l[i], 16, upper);
      Charconv.PadValue(Charconv.Digits(l[i], 16, upper), 16, 4);
      Charconv.PadCase(Charconv.Digits(l[i], 16, upper), 4, upper);
    }
  }

  /** The form of the printed text. */
  function PrintedForm(e: Endian, spec: Spec, a: Address): (f: Form) {
    FormOf(e, a, spec.f, !spec.z, Mixed(spec, Hton(e, a.raw)), spec.u)
  }

  lemma PrintedFormFacts(e: Endian, spec: Spec, a: Address)
    ensures var f := PrintedForm(e, spec, a);
            Standard(f) && Denote(f) == Hton(e, a.raw) && Render(f) == Format(e, spec, a)
  {
    hide FormOf, DoFormat, Render, Denote, Standard, Hton16;
    var mixed := Mixed(spec, Hton(e, a.raw));
    FormDenotes(e, a, spec.f, !spec.z, mixed, spec.u);
    FormatRenders(e, a, spec.f, !spec.z, mixed, spec.u);
  }

  lemma StyledWithTrailer(e: Endian, a: Address, l: seq<uint16>, removed: bool, mixed: bool, upper: bool)
    ensures var xs := Sections(l, removed, upper) + Trailer(e, a, mixed);
            && ValidSections(xs) && StyledSections(xs, removed, upper) && EndsEmbedded(xs) == mixed
            && |Groups(xs)| == |l| + if mixed then 2 else 0
  {
    hide V4Part, GroupText, Groups, Hton16;
    SectionsStyled(l, removed, upper);
    WithTrailer(e, a, l, removed, mixed, upper);
  }

  lemma PrintedObeys(e: Endian, spec: Spec, a: Address)
    ensures var f := PrintedForm(e, spec, a);
            ValidForm(f) && Obeys(spec, f, Hton(e, a.raw))
  {
    hide V4Part, GroupText, Groups, Scan, Hton16, ValidSection, StyledSection, Trailer, Sections, Mixed, AsksDotted,
         Scanned, LeftmostLongest, Written, ValidForm, FormOf;
    var local := Hton(e, a.raw);
    var mixed := Mixed(spec, local);
    AsksDottedExact(spec, local);
    if spec.f || LongestRun(local[..Limit(mixed)]).len < 2 {
      FullWritten(e, a, spec.f, !spec.z, mixed, spec.u);
    } else {
      CompressedWritten(e, a, !spec.z, mixed, spec.u);
    }
  }

  lemma FullWritten(e: Endian, a: Address, full: bool, removed: bool, mixed: bool, upper: bool)
    requires full || LongestRun(Hton(e, a.raw)[..Limit(mixed)]).len < 2
    ensures var f := FormOf(e, a, full, removed, mixed, upper);
            ValidForm(f) && Embeds(f) == mixed && Written(f, Hton(e, a.raw), full, removed, upper)
  {
    hide V4Part, GroupText, Groups, Scan, Hton16, ValidSection, StyledSection, Trailer, Sections;
    var local := Hton(e, a.raw);
    var l := local[..Limit(mixed)];
    assert Scanned(mixed, local) == l;
    StyledWithTrailer(e, a, l, removed, mixed, upper);
    NoPair(l);
  }

  lemma CompressedWritten(e: Endian, a: Address, removed: bool, mixed: bool, upper: bool)
    requires LongestRun(Hton(e, a.raw)[..Limit(mixed)]).len >= 2
    ensures var f := FormOf(e, a, false, removed, mixed, upper);
            ValidForm(f) && Embeds(f) == mixed && Written(f, Hton(e, a.raw), false, removed, upper)
  {
    hide V4Part, GroupText, Groups, Scan, Hton16, ValidSection, StyledSection, Trailer, Sections, LeftmostLongest,
         StyledSections, ValidSections;
    var local := Hton(e, a.raw);
    var l := local[..Limit(mixed)];
    var best := LongestRun(l);
    assert Scanned(mixed, local) == l;
    RunInside(l);
    LongestRunExact(l);
    SectionsGroups(l[..best.start], removed, upper);
    SectionsStyled(l[..best.start], removed, upper);
    StyledWithTrailer(e, a, l[best.start + best.len..], removed, mixed, upper);
    var f := FormOf(e, a, false, removed, mixed, upper);
    assert f.Compressed? && |f.head| == best.start by {
      SectionsLength(l[..best.start], removed, upper);
    }
    assert Run(best.start, best.len) == best;
  }

  lemma SectionsLength(l: seq<uint16>, removed: bool, upper: bool)
    ensures |Sections(l, removed, upper)| == |l|
  {
  }

  lemma NoPair(l: seq<uint16>)
    ensures LongestRun(l).len < 2 ==> forall i: nat :: !ZeroPair(l, i)
    ensures LongestRun(l).len >= 2 ==> ZeroPair(l, LongestRun(l).start)
  {
    hide Scan;
    LongestRunExact(l);
  }

  // ----- the specification leaves one form only

  /** A group written in a given style is determined by its value. */
  lemma GroupDetermined(x: Section, removed: bool, upper: bool)
    requires ValidSection(x) && x.Hex? && StyledSection(x, removed, upper)
    ensures x == Hex(GroupText(SectionGroups(x)[0], removed, upper))
  {
    if removed {
      Charconv.ValueDigits(x.digits, 16, upper);
    } else {
      Charconv.ValuePadded(x.digits, upper);
    }
  }

  lemma {:induction false} HexDetermined(xs: seq<Section>, removed: bool, upper: bool)
    requires ValidSections(xs) && StyledSections(xs, removed, upper) && !EndsEmbedded(xs)
    ensures xs == Sections(Groups(xs), removed, upper)
  {
    hide Charconv.Value, GroupText, StyledSection, Sections;
    if xs == [] {
      assert Sections([], removed, upper) == [];
    } else {
      var x, rest := xs[0], xs[1..];
      assert forall i :: 0 <= i < |rest| ==> rest[i] == xs[i + 1];
      assert x.Hex?;
      HexDetermined(rest, removed, upper);
      GroupDetermined(x, removed, upper);
      var g := SectionGroups(x)[0];
      SectionsCons(g, Groups(rest), removed, upper);
      assert xs == [x] + rest;
      assert SectionGroups(x) == [g];
    }
  }

  lemma SectionsCons(g: uint16, l: seq<uint16>, removed: bool, upper: bool)
    ensures Sections([g] + l, removed, upper) == [Hex(GroupText(g, removed, upper))] + Sections(l, removed, upper)
  {
    hide GroupText;
  }

  lemma QuadDetermined(q: Quad, r: Quad)
    requires [q.a * 0x100 + q.b, q.c * 0x100 + q.d] == [r.a * 0x100 + r.b, r.c * 0x100 + r.d]
    ensures q == r
  {
    assert q.a * 0x100 + q.b == [q.a * 0x100 + q.b, q.c * 0x100 + q.d][0] == r.a * 0x100 + r.b;
    assert q.c * 0x100 + q.d == [q.a * 0x100 + q.b, q.c * 0x100 + q.d][1] == r.c * 0x100 + r.d;
  }

  /** A list of sections in a given style, for given groups, is the list that the formatter writes. */
  lemma Determined(e: Endian, a: Address, xs: seq<Section>, l: seq<uint16>, removed: bool, mixed: bool, upper: bool)
    requires ValidSections(xs) && StyledSections(xs, removed, upper) && EndsEmbedded(xs) == mixed
    requires Groups(xs) == l + if mixed then Hton(e, a.raw)[6..] else []
    ensures xs == Sections(l, removed, upper) + Trailer(e, a, mixed)
  {
    hide V4Part, GroupText, Hton16, Groups, StyledSection;
    if mixed {
      MixedDetermined(e, a, xs, l, removed, upper);
    } else {
      assert l + [] == l;
      HexDetermined(xs, removed, upper);
      assert xs == Sections(l, removed, upper) + [];
    }
  }

  lemma MixedDetermined(e: Endian, a: Address, xs: seq<Section>, l: seq<uint16>, removed: bool, upper: bool)
    requires ValidSections(xs) && StyledSections(xs, removed, upper) && EndsEmbedded(xs)
    requires Groups(xs) == l + Hton(e, a.raw)[6..]
    ensures xs == Sections(l, removed, upper) + [Embedded(V4Part(e, a))]
  {
    hide V4Part, GroupText, Hton16, Hton, Groups, Charconv.Value, Sections, StyledSection;
    var init, last := xs[..|xs| - 1], xs[|xs| - 1];
    var g := SectionGroups(last);
    assert xs == init + [last];
    LastGroups(init, last);
    SplitEnd(Groups(init), g, l, Hton(e, a.raw)[6..]);
    HexDetermined(init, removed, upper);
    V4PartGroups(e, a);
    QuadDetermined(last.octets, V4Part(e, a));
  }

  lemma LastGroups(init: seq<Section>, last: Section)
    requires AllValid(init) && ValidSection(last)
    ensures AllValid(init + [last]) && Groups(init + [last]) == Groups(init) + SectionGroups(last)
  {
    assert [last][1..] == [] && Groups([]) == [];
    GroupsAppend(init, [last]);
  }

  lemma SplitEnd(a: seq<uint16>, b: seq<uint16>, c: seq<uint16>, d: seq<uint16>)
    requires a + b == c + d && |b| == |d|
    ensures a == c && b == d
  {
    assert a == (a + b)[..|a|] && c == (c + d)[..|c|];
    assert b == (a + b)[|a|..] && d == (c + d)[|c|..];
  }

  /** The groups on either side of a run, within the scanned part. */
  lemma Sides(h: seq<uint16>, z: seq<uint16>, t: seq<uint16>, l: seq<uint16>, rest: seq<uint16>)
    requires h + z + t == l + rest && |h| + |z| <= |l|
    ensures h == l[..|h|] && t == l[|h| + |z|..] + rest
  {
    var all := h + z + t;
    assert h == all[..|h|] && t == all[|h| + |z|..];
    assert all[..|h|] == l[..|h|];
    assert all[|h| + |z|..] == l[|h| + |z|..] + rest;
  }

  lemma LongestUnique(l: seq<uint16>, r: Run, s: Run)
    requires LeftmostLongest(l, r) && LeftmostLongest(l, s) && r.len > 0
    ensures r == s
  {
    assert ZeroRun(l, r.start, r.start + r.len) && ZeroRun(l, s.start, s.start + s.len);
  }

  lemma FullDetermined(e: Endian, spec: Spec, a: Address, xs: seq<Section>)
    requires Accepted(Full(xs)) && Denote(Full(xs)) == Hton(e, a.raw) && Obeys(spec, Full(xs), Hton(e, a.raw))
    ensures Full(xs) == PrintedForm(e, spec, a)
  {
    hide V4Part, GroupText, Groups, Scan, Hton16, ValidSection, StyledSection, Mixed, AsksDotted, Scanned;
    var local := Hton(e, a.raw);
    var mixed := Mixed(spec, local);
    AsksDottedExact(spec, local);
    var l := local[..Limit(mixed)];
    var best := LongestRun(l);
    LongestRunExact(l);
    assert l == Scanned(mixed, local);
    assert spec.f || !ZeroPair(l, best.start);
    assert local == l + if mixed then local[6..] else [];
    Determined(e, a, xs, l, !spec.z, mixed, spec.u);
    assert PrintedForm(e, spec, a) == Full(Sections(l, !spec.z, spec.u) + Trailer(e, a, mixed));
  }

  lemma CompressedDetermined(e: Endian, spec: Spec, a: Address, head: seq<Section>, tail: seq<Section>)
    requires Accepted(Compressed(head, tail)) && Denote(Compressed(head, tail)) == Hton(e, a.raw)
    requires Obeys(spec, Compressed(head, tail), Hton(e, a.raw))
    ensures Compressed(head, tail) == PrintedForm(e, spec, a)
  {
    hide V4Part, GroupText, Groups, Scan, Hton16, ValidSection, StyledSection, Trailer, Sections, Mixed, AsksDotted,
         Scanned, LeftmostLongest, StyledSections;
    var local := Hton(e, a.raw);
    var mixed := Mixed(spec, local);
    AsksDottedExact(spec, local);
    var l := local[..Limit(mixed)];
    var rest := if mixed then local[6..] else [];
    var h, t := Groups(head), Groups(tail);
    var r := Run(|head|, 8 - |h| - |t|);
    LongestRunExact(l);
    LongestUnique(l, r, LongestRun(l));
    RunInside(l);
    GroupsCount(head);
    assert local == l + rest;
    Sides(h, Zeros(r.len), t, l, rest);
    HexDetermined(head, !spec.z, spec.u);
    Determined(e, a, tail, l[r.start + r.len..], !spec.z, mixed, spec.u);
    assert LongestRun(l) == r;
  }

  /** The formatter, exactly: for every combination of flags, an accepted text is what is printed for its address if and
      only if its form obeys the specification. */
  lemma FormatExact(e: Endian, spec: Spec, f: Form)
    requires Accepted(f)
    ensures Obeys(spec, f, Denote(f)) <==> Render(f) == Format(e, spec, Address(Hton(e, Denote(f))))
  {
    hide Render, FormOf, Hton16, Obeys, Format;
    var a := Address(Hton(e, Denote(f)));
    HtonInvolution(e, Denote(f));
    PrintedFormFacts(e, spec, a);
    PrintedObeys(e, spec, a);
    if Render(f) == Format(e, spec, a) {
      RenderInjective(f, PrintedForm(e, spec, a));
    }
    if Obeys(spec, f, Denote(f)) {
      if f.Full? {
        FullDetermined(e, spec, a, f.sections);
      } else {
        CompressedDetermined(e, spec, a, f.head, f.tail);
      }
    }
  }

  // ----- RFC 5952

  /** Section 4 of RFC 5952: no leading zeros (4.1) and lower case (4.3); "::" wherever two neighbouring groups are zero
      (4.2.1), never for a single one (4.2.2), and for the leftmost longest run (4.2.3). */
  ghost predicate Section4(f: Form, local: Raw)
    requires ValidForm(f)
  {
    Written(f, local, false, true, false)
  }

  /** The addresses that have a well-known prefix of RFC 4291 or RFC 2765 in front of an IPv4 address. The unspecified
      and the loopback address lie under "::/96" but are not IPv4-compatible (sections 2.5.2 and 2.5.3 of RFC 4291). */
  predicate WellKnown(local: Raw) {
    || MappedPrefix(local)
    || TranslatedPrefix(local)
    || (CompatiblePrefix(local) && !(local[6] == 0 && local[7] <= 1))
  }

  /** Section 5 of RFC 5952: a dotted part exactly where a well-known prefix tells that there is an IPv4 address. */
  predicate Section5(f: Form, local: Raw) {
    Embeds(f) == WellKnown(local)
  }

  /** The addresses for which `to_string` follows section 5: all but the IPv4-translated ones and the IPv4-compatible
      ones that use no more than the last sixteen bits. */
  predicate FollowsSection5(local: Raw) {
    !TranslatedPrefix(local) && !(CompatiblePrefix(local) && local[6] == 0 && local[7] > 1)
  }

  /** `to_string`, exactly: it prints the text that obeys section 4 and has a dotted part where one is recommended. */
  lemma ToStringExact(e: Endian, f: Form)
    requires Accepted(f)
    ensures Render(f) == ToString(e, Address(Hton(e, Denote(f)))) <==>
            Section4(f, Denote(f)) && Embeds(f) == RecommendsDotted(Denote(f))
  {
    hide Render, Written, Format;
    FormatExact(e, RECOMMENDED, f);
  }

  lemma RecommendsDottedOrNot(local: Raw)
    ensures RecommendsDotted(local) == WellKnown(local) <==> FollowsSection5(local)
  {
    assert [0, 0, 0, 0, 0, 0xffff][5] != [0, 0, 0, 0, 0xffff, 0][5];
    assert [0, 0, 0, 0, 0, 0xffff][5] != [0, 0, 0, 0, 0, 0][5];
    assert [0, 0, 0, 0, 0xffff, 0][4] != [0, 0, 0, 0, 0, 0][4];
  }

  /** What is printed obeys section 4 always, and section 5 exactly for the addresses named by `FollowsSection5`; for
      those, the printed text is the only one that obeys both sections. */
  lemma Rfc5952Exact(e: Endian, f: Form)
    requires Accepted(f)
    ensures var s := ToString(e, Address(Hton(e, Denote(f))));
            && (Render(f) == s ==> Section4(f, Denote(f)))
            && (Render(f) == s ==> (Section5(f, Denote(f)) <==> FollowsSection5(Denote(f))))
            && (FollowsSection5(Denote(f)) ==> (Render(f) == s <==> Section4(f, Denote(f)) && Section5(f, Denote(f))))
  {
    hide Render, Written, Format, WellKnown, RecommendsDotted, FollowsSection5;
    ToStringExact(e, f);
    RecommendsDottedOrNot(Denote(f));
  }

  /** `to_string` chooses one text for each address: two accepted texts denote the same address exactly when their
      addresses print alike, and what is printed is accepted with the same address. */
  lemma ToStringCanonical(e: Endian, s: string, t: string)
    requires Parse(e, s).Ok? && Parse(e, t).Ok?
    ensures Parse(e, s) == Parse(e, t) <==> ToString(e, Parse(e, s).value) == ToString(e, Parse(e, t).value)
    ensures Parse(e, ToString(e, Parse(e, s).value)) == Parse(e, s)
  {
    hide Parse, Format;
    RoundTrip(e, RECOMMENDED, Parse(e, s).value);
    RoundTrip(e, RECOMMENDED, Parse(e, t).value);
  }

  /** In the printed text, "::" occurs once if some two neighbouring groups among those scanned are zero, and nowhere
      otherwise. */
  lemma DoubleColonOnce(e: Endian, a: Address)
    ensures var s, local := ToString(e, a), Hton(e, a.raw);
            var l := Scanned(RecommendsDotted(local), local);
            && ((exists i: nat :: Text.OccursAt(s, "::", i)) <==> exists i: nat :: ZeroPair(l, i))
            && forall i: nat, j: nat :: Text.OccursAt(s, "::", i) && Text.OccursAt(s, "::", j) ==> i == j
  {
    hide Hton16, FormOf, DoFormat, Scan, RecommendsDotted;
    var f := PrintedForm(e, RECOMMENDED, a);
    var local := Hton(e, a.raw);
    var l := Scanned(RecommendsDotted(local), local);
    PrintedFormFacts(e, RECOMMENDED, a);
    PrintedObeys(e, RECOMMENDED, a);
    OccurrencesOf(f);
    if f.Compressed? {
      assert ZeroPair(l, |f.head|);
      assert Text.OccursAt(ToString(e, a), "::", |Text.Join(Texts(f.head), ":")|);
    }
  }

  /** Where "::" occurs in a rendered form: behind the head of a compressed one, and nowhere else. */
  lemma OccurrencesOf(f: Form)
    requires Accepted(f)
    ensures forall i: nat :: Text.OccursAt(Render(f), "::", i) <==>
                               f.Compressed? && i == |Text.Join(Texts(f.head), ":")|
  {
    match f
    case Full(xs) =>
      JoinTextsShape(xs);
      NoDoubleColonExact(Render(f));
      Text.ContainsExact(Render(f), "::");
    case Compressed(head, tail) =>
      JoinTextsShape(head);
      JoinTextsShape(tail);
      ColonsInside(Text.Join(Texts(head), ":"), Text.Join(Texts(tail), ":"));
  }

  lemma ColonsInside(h: string, t: string)
    requires NoDoubleColon(h) && NoDoubleColon(t)
    requires (h != "" ==> h[|h| - 1] != ':') && (t != "" ==> t[0] != ':')
    ensures forall i: nat :: Text.OccursAt(h + "::" + t, "::", i) <==> i == |h|
  {
    var s := h + "::" + t;
    forall i: nat ensures Text.OccursAt(s, "::", i) <==> i == |h| {
      DoubleColonAt(s, i);
      if i + 1 < |s| {
        if i < |h| {
          assert s[i] == h[i];
          assert i + 1 < |h| ==> s[i + 1] == h[i + 1];
        } else if i == |h| + 1 {
          assert s[i + 1] == t[0];
        } else if i > |h| + 1 {
          assert s[i] == t[i - |h| - 2] && s[i + 1] == t[i - |h| - 1];
        }
      }
    }
  }

  // ----- an address at which section 5 is not followed

  /** The groups of the IPv4-translated address of 1.2.3.4. */
  const TRANSLATED: Raw := [0, 0, 0, 0, 0xffff, 0, 0x102, 0x304]

  const PLAIN_TAIL := [Hex("ffff"), Hex("0"), Hex("102"), Hex("304")]
  const DOTTED_TAIL := [Hex("ffff"), Hex("0"), Embedded(Quad(1, 2, 3, 4))]

  lemma ExampleLetters()
    ensures ValidSection(Hex("ffff")) && SectionGroups(Hex("ffff")) == [0xffff]
    ensures ValidSection(Hex("0")) && SectionGroups(Hex("0")) == [0]
  {
    assert "ffff"[..3] == "fff" && "fff"[..2] == "ff" && "ff"[..1] == "f" && "f"[..0] == "" && "0"[..0] == "";
    assert Charconv.Value("", 16) == 0;
    assert Charconv.Value("f", 16) == 0xf && Charconv.Value("ff", 16) == 0xff && Charconv.Value("fff", 16) == 0xfff;
  }

  lemma ExampleDigits()
    ensures ValidSection(Hex("102")) && SectionGroups(Hex("102")) == [0x102]
    ensures ValidSection(Hex("304")) && SectionGroups(Hex("304")) == [0x304]
  {
    assert "102"[..2] == "10" && "10"[..1] == "1" && "1"[..0] == "";
    assert "304"[..2] == "30" && "30"[..1] == "3" && "3"[..0] == "";
    assert Charconv.Value("", 16) == 0;
    assert Charconv.Value("1", 16) == 1 && Charconv.Value("10", 16) == 0x10;
    assert Charconv.Value("3", 16) == 3 && Charconv.Value("30", 16) == 0x30;
  }

  lemma ExampleGroups()
    ensures ValidSections(PLAIN_TAIL) && Groups(PLAIN_TAIL) == [0xffff, 0, 0x102, 0x304]
    ensures ValidSections(DOTTED_TAIL) && Groups(DOTTED_TAIL) == [0xffff, 0, 0x102, 0x304]
  {
    hide SectionGroups, ValidSection;
    ExampleLetters();
    ExampleDigits();
    EmbeddedExample();
    var a, b, c, d := Hex("ffff"), Hex("0"), Hex("102"), Hex("304");
    var q := Embedded(Quad(1, 2, 3, 4));
    assert Groups([]) == [];
    assert [a, b, c, d][1..] == [b, c, d] && [b, c, d][1..] == [c, d] && [c, d][1..] == [d] && [d][1..] == [];
    assert [a, b, q][1..] == [b, q] && [b, q][1..] == [q] && [q][1..] == [];
    assert Groups([d]) == [0x304] && Groups([c, d]) == [0x102, 0x304] && Groups([b, c, d]) == [0, 0x102, 0x304];
    assert Groups([q]) == [0x102, 0x304] && Groups([b, q]) == [0, 0x102, 0x304];
  }

  lemma EmbeddedExample()
    ensures ValidSection(Embedded(Quad(1, 2, 3, 4))) && SectionGroups(Embedded(Quad(1, 2, 3, 4))) == [0x102, 0x304]
  {
  }

  lemma ExampleRuns()
    ensures LeftmostLongest(TRANSLATED, Run(0, 4)) && LeftmostLongest(TRANSLATED[..6], Run(0, 4))
  {
    assert TRANSLATED[4] != 0 && TRANSLATED[6] != 0 && TRANSLATED[7] != 0;
    assert TRANSLATED[..6] == [0, 0, 0, 0, 0xffff, 0];
  }

  /** Both forms denote the address; the plain one obeys section 4, the dotted one sections 4 and 5. */
  lemma ExampleForms()
    ensures var p := Compressed([], PLAIN_TAIL);
            && Accepted(p) && Denote(p) == TRANSLATED && Section4(p, TRANSLATED) && !Embeds(p)
    ensures var d := Compressed([], DOTTED_TAIL);
            && Accepted(d) && Denote(d) == TRANSLATED && Section4(d, TRANSLATED) && Section5(d, TRANSLATED)
  {
    hide SectionGroups, ValidSection, LeftmostLongest, ZeroRun;
    ExampleGroups();
    ExampleRuns();
    assert Groups([]) == [];
    assert [] + Zeros(4) + [0xffff, 0, 0x102, 0x304] == TRANSLATED;
    assert TRANSLATED[..6] == [0, 0, 0, 0, 0xffff, 0];
  }

  /** At a real input: the IPv4-translated address of 1.2.3.4 is not printed with a dotted part, although another text
      of it obeys both sections of the standard. */
  lemma TranslatedExample(e: Endian)
    ensures ToString(e, Address(Hton(e, TRANSLATED))) == Render(Compressed([], PLAIN_TAIL))
    ensures Parse(e, Render(Compressed([], DOTTED_TAIL))) == Ok(Address(Hton(e, TRANSLATED)))
    ensures Section5(Compressed([], DOTTED_TAIL), TRANSLATED) && !Section5(Compressed([], PLAIN_TAIL), TRANSLATED)
    ensures Render(Compressed([], PLAIN_TAIL)) == "::ffff:0:102:304"
  {
    hide Render, Format, Parse, Written, Denote, Accepted;
    ExampleForms();
    assert TRANSLATED[..6] == [0, 0, 0, 0, 0xffff, 0];
    assert [0, 0, 0, 0, 0xffff, 0][4] == 0xffff;
    ToStringExact(e, Compressed([], PLAIN_TAIL));
    ParseComplete(e, Compressed([], DOTTED_TAIL));
    ExampleText();
  }

  lemma ExampleText()
    ensures Render(Compressed([], PLAIN_TAIL)) == "::ffff:0:102:304"
  {
    var t := ["ffff", "0", "102", "304"];
    assert Texts(PLAIN_TAIL) == t && Texts([]) == [];
    assert t[1..] == ["0", "102", "304"] && t[1..][1..] == ["102", "304"] && t[1..][1..][1..] == ["304"];
    assert Text.Join(["304"], ":") == "304";
    assert Text.Join(["102", "304"], ":") == "102:304";
    assert Text.Join(["0", "102", "304"], ":") == "0:102:304";
  }
}
