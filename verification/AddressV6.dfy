/** `address_v6`: the checked text parser and its exact language. */
module AddressV6 {
  import opened Errors
  import opened ByteOrder
  import opened AddressV6Grammar
  import Text
  import Charconv
  import AddressV4

  type Raw = g: seq<uint16> | |g| == 8 witness [0, 0, 0, 0, 0, 0, 0, 0]

  /** The eight raw groups are in network byte order. */
  datatype Address = Address(raw: Raw)

  function Hton(e: Endian, g: Raw): (r: Raw)
    ensures forall i :: 0 <= i < 8 ==> r[i] == Hton16(e, g[i])
  {
    seq(8, i requires 0 <= i < 8 => Hton16(e, g[i]))
  }

  lemma HtonInvolution(e: Endian, g: Raw)
    ensures Hton(e, Hton(e, g)) == g
  {
    forall i | 0 <= i < 8 ensures Hton(e, Hton(e, g))[i] == g[i] {
      Hton16Involution(e, g[i]);
    }
  }

  // ----- the parser as a function

  /** What the section parser has gathered: the groups stored so far, in host order, and whether an embedded IPv4
      address has been seen. */
  datatype Progress = Progress(groups: seq<uint16>, seenV4: bool)

  const START := Progress([], false)

  /** A section with a dot, which must be an IPv4 address filling two groups. */
  function EmbeddedSection(e: Endian, p: Progress, sub: string): (r: Result<Progress>)
    ensures r.Ok? ==> |r.value.groups| == |p.groups| + 2 <= 8
  {
    if |p.groups| > 6 then Err(InvalidArgument)
    else
      match AddressV4.Parse(e, sub)
      case Err(_) => Err(InvalidArgument)
      case Ok(v4) =>
        var h := HalvesOfWord(e, v4.raw);
        Ok(Progress(p.groups + [Hton16(e, h.first), Hton16(e, h.second)], true))
  }

  function HexSection(p: Progress, sub: string): (r: Result<Progress>)
    ensures r.Ok? ==> |r.value.groups| == |p.groups| + 1 <= 8
  {
    if |p.groups| >= 8 then Err(InvalidArgument)
    else if |sub| > 4 then Err(InvalidArgument)
    else
      var c := Charconv.FromChars(sub, 16, 65535);
      match c.result
      case Err(ec) => Err(ec)
      case Ok(v) =>
        if c.ptr != |sub| then Err(InvalidArgument)
        else Ok(Progress(p.groups + [v], p.seenV4))
  }

  /** The lambda `parse_one_section`. */
  function OneSection(e: Endian, p: Progress, sub: string): (r: Result<Progress>)
    ensures r.Ok? ==> |r.value.groups| <= 8
  {
    if '.' in sub then EmbeddedSection(e, p, sub) else HexSection(p, sub)
  }

  /** The loop over the colon-separated parts of one side of "::". */
  function Side(e: Endian, p: Progress, parts: seq<string>): (r: Result<Progress>)
    requires |p.groups| <= 8
    ensures r.Ok? ==> |r.value.groups| <= 8
    decreases |parts|
  {
    if parts == [] then Ok(p)
    else if p.seenV4 || parts[0] == "" then Err(InvalidArgument)
    else
      var q :- OneSection(e, p, parts[0]);
      Side(e, q, parts[1..])
  }

  /** The part before "::", which may be empty. */
  function Head(e: Endian, chunk: string): (r: Result<Progress>)
    ensures r.Ok? ==> |r.value.groups| <= 8
  {
    if chunk == "" then Ok(START) else Side(e, START, Text.Split(chunk, ":"))
  }

  /** The part after "::", which may be empty, and the groups of the whole address: those of the head, zeros, and
      those of the tail. */
  function Tail(e: Endian, head: Progress, chunk: string): (r: Result<Raw>)
    requires |head.groups| <= 8
  {
    if head.seenV4 then Err(InvalidArgument)
    else if chunk == "" then Ok(head.groups + Zeros(8 - |head.groups|))
    else
      var p :- Side(e, head, Text.Split(chunk, ":"));
      SideExtends(e, head, Text.Split(chunk, ":"));
      if |p.groups| >= 8 then Err(InvalidArgument)
      else Ok(head.groups + Zeros(8 - |p.groups|) + p.groups[|head.groups|..])
  }

  lemma {:induction false} SideExtends(e: Endian, p: Progress, parts: seq<string>)
    requires |p.groups| <= 8
    ensures Side(e, p, parts).Ok? ==> p.groups <= Side(e, p, parts).value.groups
    decreases |parts|
  {
    if parts != [] && !p.seenV4 && parts[0] != "" && OneSection(e, p, parts[0]).Ok? {
      SideExtends(e, OneSection(e, p, parts[0]).value, parts[1..]);
    }
  }

  function Parse(e: Endian, s: string): (r: Result<Address>) {
    if s == "" || |s| > 45 then Err(InvalidArgument)
    else
      var chunks := Text.Split(s, "::");
      var head :- Head(e, chunks[0]);
      if |chunks| == 1 then
        if |head.groups| != 8 then Err(InvalidArgument) else Ok(Address(Hton(e, head.groups)))
      else
        var g :- Tail(e, head, chunks[1]);
        if |chunks| > 2 then Err(InvalidArgument) else Ok(Address(Hton(e, g)))
  }

  // ----- the sections that the parser accepts

  lemma EmbeddedComplete(e: Endian, p: Progress, q: Quad)
    requires |p.groups| + 2 <= 8
    ensures EmbeddedSection(e, p, AddressV4.Dotted(q)) ==
            Ok(Progress(p.groups + [q.a * 0x100 + q.b, q.c * 0x100 + q.d], true))
  {
    var w := WordOfBytes(e, q);
    var a := AddressV4.Address(w);
    hide AddressV4.Dotted, AddressV4.Parse;
    assert AddressV4.Format(e, a) == AddressV4.Dotted(q) by {
      BytesOfWordOfBytes(e, q);
    }
    assert AddressV4.Parse(e, AddressV4.Dotted(q)) == Ok(a) by {
      AddressV4.ParseExact(e, AddressV4.Dotted(q), a);
    }
    HostHalves(e, q);
  }

  lemma HexComplete(p: Progress, digits: string)
    requires ValidSection(Hex(digits)) && |p.groups| < 8
    ensures HexSection(p, digits) == Ok(Progress(p.groups + SectionGroups(Hex(digits)), p.seenV4))
  {
    Charconv.HexValueBound(digits);
    Charconv.FromCharsAllDigits(digits, 16, 65535);
  }

  /** A section text is read as the groups that it denotes, as long as they fit. */
  lemma OneSectionComplete(e: Endian, p: Progress, x: Section)
    requires ValidSection(x) && |Advance(p, x).groups| <= 8
    ensures OneSection(e, p, SectionText(x)) == Ok(Advance(p, x))
  {
    hide HexSection, EmbeddedSection, AddressV4.Dotted, Charconv.Value;
    DotMeansEmbedded(x);
    var s := SectionText(x);
    if x.Hex? {
      assert OneSection(e, p, s) == HexSection(p, s);
      HexComplete(p, x.digits);
    } else {
      assert OneSection(e, p, s) == EmbeddedSection(e, p, s);
      EmbeddedComplete(e, p, x.octets);
    }
  }

  function SectionOf(e: Endian, sub: string): (x: Section)
    requires '.' in sub ==> AddressV4.Parse(e, sub).Ok?
  {
    if '.' in sub then Embedded(BytesOfWord(e, AddressV4.Parse(e, sub).value.raw)) else Hex(sub)
  }

  /** Whatever the section parser accepts is the text of a section whose groups fit. */
  lemma OneSectionSound(e: Endian, p: Progress, sub: string)
    requires sub != "" && OneSection(e, p, sub).Ok?
    ensures var x := SectionOf(e, sub);
            && ValidSection(x) && SectionText(x) == sub && |p.groups| + |SectionGroups(x)| <= 8
  {
    if '.' in sub {
      var a := AddressV4.Parse(e, sub).value;
      AddressV4.ParseExact(e, sub, a);
    } else {
      Charconv.FromCharsConsumed(sub, 16, 65535);
    }
  }

  /** A failed section is always reported as an invalid argument: four hexadecimal digits cannot overflow. */
  lemma OneSectionError(e: Endian, p: Progress, sub: string)
    ensures OneSection(e, p, sub).Err? ==> OneSection(e, p, sub).error == InvalidArgument
  {
    if '.' !in sub && |sub| <= 4 {
      var k := Charconv.DigitRun(sub, 16, 0);
      Charconv.HexValueBound(sub[..k]);
    }
  }

  /** What one section adds to the progress. */
  function Advance(p: Progress, x: Section): Progress
    requires ValidSection(x)
  {
    Progress(p.groups + SectionGroups(x), p.seenV4 || x.Embedded?)
  }

  /** What a list of sections adds to the progress. */
  function AdvanceAll(p: Progress, xs: seq<Section>): Progress
    requires AllValid(xs)
  {
    Progress(p.groups + Groups(xs), p.seenV4 || EndsEmbedded(xs))
  }

  lemma AdvanceCons(p: Progress, xs: seq<Section>)
    requires ValidSections(xs) && xs != []
    ensures ValidSections(xs[1..])
    ensures xs[0].Embedded? ==> xs[1..] == []
    ensures AdvanceAll(p, xs) == AdvanceAll(Advance(p, xs[0]), xs[1..])
  {
    assert forall i :: 0 <= i < |xs[1..]| ==> xs[1..][i] == xs[i + 1];
    assert p.groups + (SectionGroups(xs[0]) + Groups(xs[1..])) == p.groups + SectionGroups(xs[0]) + Groups(xs[1..]);
  }

  /** One step of the loop over a section list. */
  lemma SideStep(e: Endian, p: Progress, xs: seq<Section>)
    requires xs != [] && ValidSection(xs[0]) && !p.seenV4 && |Advance(p, xs[0]).groups| <= 8
    ensures Side(e, p, Texts(xs)) == Side(e, Advance(p, xs[0]), Texts(xs[1..]))
  {
    var t := Texts(xs);
    assert t[0] == SectionText(xs[0]) && t[1..] == Texts(xs[1..]);
    DotMeansEmbedded(xs[0]);
    OneSectionComplete(e, p, xs[0]);
  }

  lemma SideDone(e: Endian, p: Progress)
    requires |p.groups| <= 8
    ensures Side(e, p, Texts([])) == Ok(AdvanceAll(p, []))
  {
    assert Texts([]) == [];
    assert p.groups + [] == p.groups;
  }

  /** The texts of a valid section list are read as the groups that it denotes, as long as they fit. */
  lemma {:induction false} SideComplete(e: Endian, p: Progress, xs: seq<Section>)
    requires ValidSections(xs) && |AdvanceAll(p, xs).groups| <= 8
    requires p.seenV4 ==> xs == []
    ensures Side(e, p, Texts(xs)) == Ok(AdvanceAll(p, xs))
    decreases |xs|
  {
    if xs == [] {
      SideDone(e, p);
    } else {
      AdvanceCons(p, xs);
      SideStep(e, p, xs);
      SideComplete(e, Advance(p, xs[0]), xs[1..]);
    }
  }

  /** Whatever one side accepts is the texts of a valid section list whose groups fit. */
  lemma {:induction false} SideSound(e: Endian, p: Progress, parts: seq<string>) returns (xs: seq<Section>)
    requires !p.seenV4 && |p.groups| <= 8 && Side(e, p, parts).Ok?
    ensures ValidSections(xs) && Texts(xs) == parts && |p.groups| + |Groups(xs)| <= 8
    decreases |parts|
  {
    hide HexSection, AddressV4.Parse, AddressV4.Dotted, Charconv.Value, HalvesOfWord;
    if parts == [] {
      xs := [];
    } else {
      var x := SectionOf(e, parts[0]);
      OneSectionSound(e, p, parts[0]);
      OneSectionComplete(e, p, x);
      var q := OneSection(e, p, parts[0]).value;
      if x.Embedded? {
        assert parts[1..] == [];
        xs := [x];
        assert Groups(xs[1..]) == [];
        assert Texts(xs) == parts;
      } else {
        var rest := SideSound(e, q, parts[1..]);
        xs := [x] + rest;
        assert xs[1..] == rest;
        assert Texts(xs) == [parts[0]] + Texts(rest);
      }
    }
  }

  lemma {:induction false} SideError(e: Endian, p: Progress, parts: seq<string>)
    requires |p.groups| <= 8
    ensures Side(e, p, parts).Err? ==> Side(e, p, parts).error == InvalidArgument
    decreases |parts|
  {
    if parts != [] && !p.seenV4 && parts[0] != "" {
      OneSectionError(e, p, parts[0]);
      if OneSection(e, p, parts[0]).Ok? {
        SideError(e, OneSection(e, p, parts[0]).value, parts[1..]);
      }
    }
  }

  lemma SplitTexts(xs: seq<Section>)
    requires ValidSections(xs) && xs != []
    ensures Text.Split(Text.Join(Texts(xs), ":"), ":") == Texts(xs)
  {
    TextsPlain(xs);
    JoinShape(Texts(xs));
    Text.CutJoin(Texts(xs), ':');
  }

  // ----- the language of the parser

  /** Completeness: every accepted form is parsed, to the address that it denotes. */
  lemma ParseComplete(e: Endian, f: Form)
    requires Accepted(f)
    ensures Parse(e, Render(f)) == Ok(Address(Hton(e, Denote(f))))
  {
    if f.Full? {
      ParseFull(e, f.sections);
    } else {
      ParseCompressed(e, f.head, f.tail);
    }
  }

  lemma ParseFull(e: Endian, xs: seq<Section>)
    requires Accepted(Full(xs))
    ensures Parse(e, Render(Full(xs))) == Ok(Address(Hton(e, Groups(xs))))
  {
    RenderedLength(Full(xs));
    CutRendered(Full(xs));
    HeadComplete(e, xs);
  }

  lemma ParseCompressed(e: Endian, head: seq<Section>, tail: seq<Section>)
    requires Accepted(Compressed(head, tail))
    ensures Parse(e, Render(Compressed(head, tail))) == Ok(Address(Hton(e, Denote(Compressed(head, tail)))))
  {
    var s := Render(Compressed(head, tail));
    RenderedLength(Compressed(head, tail));
    CutRendered(Compressed(head, tail));
    var h, t := Text.Join(Texts(head), ":"), Text.Join(Texts(tail), ":");
    assert Text.Split(s, "::") == [h, t];
    HeadComplete(e, head);
    TailComplete(e, head, tail);
  }

  lemma HeadComplete(e: Endian, xs: seq<Section>)
    requires ValidSections(xs) && |Groups(xs)| <= 8
    ensures Head(e, Text.Join(Texts(xs), ":")) == Ok(Progress(Groups(xs), EndsEmbedded(xs)))
  {
    JoinTextsShape(xs);
    if xs != [] {
      SplitTexts(xs);
      SideComplete(e, START, xs);
      assert [] + Groups(xs) == Groups(xs);
    }
  }

  lemma TailComplete(e: Endian, head: seq<Section>, tail: seq<Section>)
    requires Accepted(Compressed(head, tail))
    ensures Tail(e, Progress(Groups(head), false), Text.Join(Texts(tail), ":")) == Ok(Denote(Compressed(head, tail)))
  {
    hide Tail, Side, Text.Join, Groups;
    if tail == [] {
      EmptyTailComplete(e, Groups(head));
      DenoteEmptyTail(head);
    } else {
      NonEmptyTailComplete(e, Groups(head), tail);
    }
  }

  lemma DenoteEmptyTail(head: seq<Section>)
    requires Accepted(Compressed(head, []))
    ensures Denote(Compressed(head, [])) == Groups(head) + Zeros(8 - |Groups(head)|)
  {
    var z := Zeros(8 - |Groups(head)|);
    assert Groups([]) == [] && Groups(head) + z + [] == Groups(head) + z;
  }

  lemma EmptyTailComplete(e: Endian, h: seq<uint16>)
    requires |h| <= 8
    ensures Tail(e, Progress(h, false), Text.Join(Texts([]), ":")) == Ok(h + Zeros(8 - |h|))
  {
    assert Texts([]) == [];
  }

  lemma NonEmptyTailComplete(e: Endian, h: seq<uint16>, tail: seq<Section>)
    requires ValidSections(tail) && tail != [] && |h| + |Groups(tail)| <= 7
    ensures Tail(e, Progress(h, false), Text.Join(Texts(tail), ":")) ==
            Ok(h + Zeros(8 - |h| - |Groups(tail)|) + Groups(tail))
  {
    hide Side, Text.Cut, Text.Join, SectionGroups, Groups;
    JoinTextsShape(tail);
    SplitTexts(tail);
    var p := Progress(h, false);
    SideComplete(e, p, tail);
    var g := h + Groups(tail);
    assert g[|h|..] == Groups(tail);
    assert 8 - |g| == 8 - |h| - |Groups(tail)|;
  }

  /** Soundness: every text that the parser accepts is the rendering of an accepted form. */
  lemma ParseSound(e: Endian, s: string) returns (f: Form)
    requires Parse(e, s).Ok?
    ensures Accepted(f) && Render(f) == s
  {
    var chunks := Text.Split(s, "::");
    Text.JoinCut(s, "::");
    var head := HeadSound(e, chunks[0]);
    var p := Head(e, chunks[0]).value;
    if |chunks| == 1 {
      f := Full(head);
      HeadComplete(e, head);
    } else {
      assert chunks == [chunks[0], chunks[1]];
      assert chunks[1..] == [chunks[1]];
      HeadComplete(e, head);
      var tail := TailSound(e, p, chunks[1]);
      f := Compressed(head, tail);
    }
  }

  /** The head text is the rendering of a valid section list. */
  lemma HeadSound(e: Endian, chunk: string) returns (xs: seq<Section>)
    requires Head(e, chunk).Ok?
    ensures ValidSections(xs) && Text.Join(Texts(xs), ":") == chunk && |Groups(xs)| <= 8
  {
    if chunk == "" {
      xs := [];
    } else {
      xs := SideSound(e, START, Text.Split(chunk, ":"));
      Text.JoinCut(chunk, ":");
    }
  }

  lemma TailSound(e: Endian, p: Progress, chunk: string) returns (xs: seq<Section>)
    requires |p.groups| <= 8 && Tail(e, p, chunk).Ok?
    ensures ValidSections(xs) && Text.Join(Texts(xs), ":") == chunk
    ensures xs != [] ==> |p.groups| + |Groups(xs)| <= 7
  {
    if chunk == "" {
      xs := [];
    } else {
      xs := SideSound(e, p, Text.Split(chunk, ":"));
      Text.JoinCut(chunk, ":");
      SideComplete(e, p, xs);
    }
  }

  /** The language and the meaning of the parser, exactly: a text is accepted with an address if and only if it is the
      rendering of an accepted form that denotes the address. In particular the length guard rejects no accepted
      form. */
  lemma ParseExact(e: Endian, s: string, a: Address)
    ensures Parse(e, s) == Ok(a) <==>
            exists f: Form :: Accepted(f) && Render(f) == s && a == Address(Hton(e, Denote(f)))
  {
    if Parse(e, s) == Ok(a) {
      var f := ParseSound(e, s);
      ParseComplete(e, f);
    }
    if exists f: Form :: Accepted(f) && Render(f) == s && a == Address(Hton(e, Denote(f))) {
      var f: Form :| Accepted(f) && Render(f) == s && a == Address(Hton(e, Denote(f)));
      ParseComplete(e, f);
    }
  }

  /** A rejected text is always reported as an invalid argument. */
  lemma ParseError(e: Endian, s: string)
    ensures Parse(e, s).Err? ==> Parse(e, s).error == InvalidArgument
  {
    if s != "" {
      var chunks := Text.Split(s, "::");
      SideError(e, START, Text.Split(chunks[0], ":"));
      if Head(e, chunks[0]).Ok? && |chunks| > 1 {
        SideError(e, Head(e, chunks[0]).value, Text.Split(chunks[1], ":"));
      }
    }
  }

  // ----- unambiguity, and what lies beyond the standard

  lemma DottedInjective(q: Quad, r: Quad)
    requires AddressV4.Dotted(q) == AddressV4.Dotted(r)
    ensures q == r
  {
    AddressV4.SplitDotted(q);
    AddressV4.SplitDotted(r);
    var s, t := AddressV4.Texts([q.a, q.b, q.c, q.d]), AddressV4.Texts([r.a, r.b, r.c, r.d]);
    assert s[0] == t[0] && s[1] == t[1] && s[2] == t[2] && s[3] == t[3];
    DecimalInjective(q.a, r.a);
    DecimalInjective(q.b, r.b);
    DecimalInjective(q.c, r.c);
    DecimalInjective(q.d, r.d);
  }

  lemma DecimalInjective(m: nat, n: nat)
    ensures Charconv.Decimal(m) == Charconv.Decimal(n) ==> m == n
  {
    Charconv.DigitsValue(m, 10, false);
    Charconv.DigitsValue(n, 10, false);
  }

  lemma SectionTextInjective(x: Section, y: Section)
    requires ValidSection(x) && ValidSection(y) && SectionText(x) == SectionText(y)
    ensures x == y
  {
    SectionTextShape(x);
    SectionTextShape(y);
    if x.Embedded? {
      DottedInjective(x.octets, y.octets);
    }
  }

  lemma JoinTextsInjective(xs: seq<Section>, ys: seq<Section>)
    requires ValidSections(xs) && ValidSections(ys)
    requires Text.Join(Texts(xs), ":") == Text.Join(Texts(ys), ":")
    ensures xs == ys
  {
    JoinTextsShape(xs);
    JoinTextsShape(ys);
    if xs != [] {
      SplitTexts(xs);
      SplitTexts(ys);
      assert |xs| == |ys|;
      forall i | 0 <= i < |xs| ensures xs[i] == ys[i] {
        assert Texts(xs)[i] == Texts(ys)[i];
        SectionTextInjective(xs[i], ys[i]);
      }
    }
  }

  /** The grammar is unambiguous: an accepted text has one form only. */
  lemma RenderInjective(f: Form, g: Form)
    requires Accepted(f) && Accepted(g) && Render(f) == Render(g)
    ensures f == g
  {
    CutRendered(f);
    CutRendered(g);
    var pieces := Text.Cut(Render(f), "::");
    if f.Full? {
      assert |pieces| == 1 && g.Full?;
      JoinTextsInjective(f.sections, g.sections);
    } else {
      assert |pieces| == 2 && g.Compressed?;
      assert pieces[0] == Text.Join(Texts(g.head), ":") && pieces[1] == Text.Join(Texts(g.tail), ":");
      JoinTextsInjective(f.head, g.head);
      JoinTextsInjective(f.tail, g.tail);
    }
  }

  /** A text is accepted outside the standard exactly when it is eight groups followed by "::", which then stands for no
      group at all; section 2.2 of RFC 4291 asks that it stand for at least one. */
  lemma BeyondTheStandard(e: Endian, s: string)
    ensures Parse(e, s).Ok? && !(exists f: Form :: Standard(f) && Render(f) == s) <==>
            exists f: Form :: EightThenColons(f) && Render(f) == s
  {
    if Parse(e, s).Ok? {
      var f := ParseSound(e, s);
    }
    if f: Form :| EightThenColons(f) && Render(f) == s {
      ParseComplete(e, f);
      forall g: Form | Standard(g) && Render(g) == s ensures false {
        RenderInjective(f, g);
      }
    }
  }

  /** The exception is not empty: eight zero groups followed by "::". */
  lemma BeyondTheStandardExample(e: Endian)
    ensures exists f: Form :: EightThenColons(f) && Parse(e, Render(f)) == Ok(Address(Hton(e, Zeros(8))))
  {
    var xs := seq(8, _ => Hex("0"));
    var f := Compressed(xs, []);
    ZeroSections(xs);
    assert Groups([]) == [];
    assert Zeros(8) + Zeros(0) + [] == Zeros(8);
    ParseComplete(e, f);
    assert EightThenColons(f);
  }

  lemma {:induction false} ZeroSections(xs: seq<Section>)
    requires forall i :: 0 <= i < |xs| ==> xs[i] == Hex("0")
    ensures ValidSections(xs) && !EndsEmbedded(xs) && Groups(xs) == Zeros(|xs|)
  {
    if xs != [] {
      ZeroSections(xs[1..]);
      assert "0"[..0] == "" && Charconv.Value("", 16) == 0 && SectionGroups(Hex("0")) == [0];
      assert [0] + Zeros(|xs| - 1) == Zeros(|xs|);
    }
  }
}
