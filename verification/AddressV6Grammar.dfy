/** The text forms of an IPv6 address (section 2.2 of RFC 4291), written as an abstract syntax with a rendering and a
    denotation. An embedded IPv4 address is written as `address_v4` prints it; the one form beyond the standard that the
    parser lets through is set apart as `EightThenColons`. */
module AddressV6Grammar {
  import opened ByteOrder
  import Text
  import Charconv
  import AddressV4

  /** One colon-separated section: up to four hexadecimal digits, or an embedded IPv4 address. */
  datatype Section = Hex(digits: string) | Embedded(octets: Quad)

  predicate ValidSection(x: Section) {
    x.Hex? ==> 1 <= |x.digits| <= 4 && Charconv.AllDigits(x.digits, 16)
  }

  function SectionText(x: Section): (s: string) {
    match x
    case Hex(digits) => digits
    case Embedded(octets) => AddressV4.Dotted(octets)
  }

  /** The sixteen-bit groups that a section stands for, in host order. */
  function SectionGroups(x: Section): (g: seq<uint16>)
    requires ValidSection(x)
    ensures |g| == if x.Hex? then 1 else 2
  {
    match x
    case Hex(digits) => Charconv.HexValueBound(digits); [Charconv.Value(digits, 16)]
    case Embedded(q) => [q.a * 0x100 + q.b, q.c * 0x100 + q.d]
  }

  predicate AllValid(xs: seq<Section>) {
    forall i :: 0 <= i < |xs| ==> ValidSection(xs[i])
  }

  /** Only the last section of a list may be an IPv4 address. */
  predicate ValidSections(xs: seq<Section>) {
    && AllValid(xs)
    && (forall i :: 0 <= i < |xs| - 1 ==> xs[i].Hex?)
  }

  predicate EndsEmbedded(xs: seq<Section>) {
    xs != [] && xs[|xs| - 1].Embedded?
  }

  function Groups(xs: seq<Section>): (g: seq<uint16>)
    requires AllValid(xs)
  {
    if xs == [] then [] else SectionGroups(xs[0]) + Groups(xs[1..])
  }

  function Texts(xs: seq<Section>): (t: seq<string>)
    ensures |t| == |xs| && forall i :: 0 <= i < |xs| ==> t[i] == SectionText(xs[i])
  {
    seq(|xs|, i requires 0 <= i < |xs| => SectionText(xs[i]))
  }

  /** The full form lists every group; the compressed form replaces a run of zero groups by "::". */
  datatype Form = Full(sections: seq<Section>) | Compressed(head: seq<Section>, tail: seq<Section>)

  function Render(f: Form): (s: string) {
    match f
    case Full(xs) => Text.Join(Texts(xs), ":")
    case Compressed(head, tail) => Text.Join(Texts(head), ":") + "::" + Text.Join(Texts(tail), ":")
  }

  predicate ValidForm(f: Form) {
    match f
    case Full(xs) => ValidSections(xs)
    case Compressed(head, tail) => ValidSections(head) && ValidSections(tail) && !EndsEmbedded(head)
  }

  /** The forms of the standard: eight groups, or "::" standing for at least one zero group. */
  predicate Standard(f: Form) {
    && ValidForm(f)
    && match f
       case Full(xs) => |Groups(xs)| == 8
       case Compressed(head, tail) => |Groups(head)| + |Groups(tail)| <= 7
  }

  /** The one form beyond the standard that `address_v6::from_string` lets through: eight groups followed by "::". */
  predicate EightThenColons(f: Form) {
    f.Compressed? && f.tail == [] && ValidForm(f) && |Groups(f.head)| == 8
  }

  predicate Accepted(f: Form) {
    Standard(f) || EightThenColons(f)
  }

  function Zeros(n: nat): (z: seq<uint16>)
    ensures |z| == n && forall i :: 0 <= i < n ==> z[i] == 0
  {
    seq(n, _ => 0)
  }

  /** The eight groups of an accepted form, in host order: head, zeros, tail. */
  function Denote(f: Form): (g: seq<uint16>)
    requires Accepted(f)
    ensures |g| == 8
  {
    match f
    case Full(xs) => Groups(xs)
    case Compressed(head, tail) =>
      Groups(head) + Zeros(8 - |Groups(head)| - |Groups(tail)|) + Groups(tail)
  }

  // ----- facts about lists of sections

  lemma {:induction false} GroupsAppend(xs: seq<Section>, ys: seq<Section>)
    requires AllValid(xs) && AllValid(ys)
    ensures AllValid(xs + ys)
    ensures Groups(xs + ys) == Groups(xs) + Groups(ys)
  {
    if xs == [] {
      assert xs + ys == ys;
    } else {
      var rest := xs[1..] + ys;
      GroupsAppend(xs[1..], ys);
      assert xs + ys == [xs[0]] + rest;
      assert (xs + ys)[1..] == rest;
      assert SectionGroups(xs[0]) + (Groups(xs[1..]) + Groups(ys)) ==
             SectionGroups(xs[0]) + Groups(xs[1..]) + Groups(ys);
    }
  }

  lemma {:induction false} GroupsCount(xs: seq<Section>)
    requires ValidSections(xs)
    ensures |Groups(xs)| == |xs| + if EndsEmbedded(xs) then 1 else 0
  {
    if |xs| > 1 {
      assert forall i :: 0 <= i < |xs[1..]| ==> xs[1..][i] == xs[i + 1];
      GroupsCount(xs[1..]);
    } else if |xs| == 1 {
      assert Groups(xs[1..]) == [];
    }
  }

  /** Groups `g`, from position `at` on, hold the sections one after the other: the value of the digits, most
      significant first, or the octets of an embedded address in pairs. */
  predicate HoldsSections(g: seq<uint16>, at: nat, xs: seq<Section>)
    requires AllValid(xs)
  {
    forall i :: 0 <= i < |xs| ==>
      match xs[i]
      case Hex(digits) => at + i < |g| && g[at + i] == Charconv.Value(digits, 16)
      case Embedded(q) => at + i + 1 < |g| && g[at + i] == q.a * 0x100 + q.b && g[at + i + 1] == q.c * 0x100 + q.d
  }

  lemma {:induction false} GroupsHold(xs: seq<Section>)
    requires ValidSections(xs)
    ensures HoldsSections(Groups(xs), 0, xs)
  {
    if xs != [] {
      var rest := xs[1..];
      assert forall i :: 0 <= i < |rest| ==> rest[i] == xs[i + 1];
      GroupsHold(rest);
      forall i | 0 < i < |xs| ensures xs[i] == rest[i - 1] && xs[0].Hex? {
      }
      HoldBehind(Groups(rest), rest, SectionGroups(xs[0]));
    }
  }

  /** Groups put in front move the positions. */
  lemma HoldBehind(g: seq<uint16>, xs: seq<Section>, front: seq<uint16>)
    requires AllValid(xs) && HoldsSections(g, 0, xs)
    ensures HoldsSections(front + g, |front|, xs)
  {
    forall i | 0 <= i < |xs| ensures xs[i].Hex? ==> (front + g)[|front| + i] == g[i] {
    }
  }

  /** The denotation, by positions: the sections of a full form, or those in front of "::" from the first group on,
      zeros, and those behind it up to the last group. */
  lemma DenoteExact(f: Form)
    requires Accepted(f)
    ensures match f
            case Full(xs) => HoldsSections(Denote(f), 0, xs)
            case Compressed(head, tail) =>
              var behind := |tail| + if EndsEmbedded(tail) then 1 else 0;
              && |head| + behind <= 8
              && HoldsSections(Denote(f), 0, head)
              && (forall i :: |head| <= i < 8 - behind ==> Denote(f)[i] == 0)
              && HoldsSections(Denote(f), 8 - behind, tail)
  {
    hide Groups;
    match f
    case Full(xs) => GroupsHold(xs);
    case Compressed(head, tail) =>
      GroupsHold(head);
      GroupsHold(tail);
      GroupsCount(head);
      GroupsCount(tail);
      var z := Zeros(8 - |Groups(head)| - |Groups(tail)|);
      HoldBehind(Groups(tail), tail, Groups(head) + z);
  }

  /** No section text is empty, holds a colon, or is longer than its kind allows. */
  lemma SectionTextShape(x: Section)
    requires ValidSection(x)
    ensures 0 < |SectionText(x)| <= (if x.Hex? then 4 else 15)
    ensures forall i :: 0 <= i < |SectionText(x)| ==>
                          var c := SectionText(x)[i]; c == '.' || Charconv.IsDigit(c, 16)
    ensures '.' in SectionText(x) <==> x.Embedded?
  {
    match x
    case Hex(digits) =>
    case Embedded(q) =>
      AddressV4.DottedIsJoin(q);
      assert AddressV4.Dotted(q)[|Charconv.Decimal(q.a)|] == '.';
      Charconv.DigitsValue(q.a, 10, false);
      Charconv.DigitsValue(q.b, 10, false);
      Charconv.DigitsValue(q.c, 10, false);
      Charconv.DigitsValue(q.d, 10, false);
  }

  /** A dot tells an embedded address from a group. */
  lemma DotMeansEmbedded(x: Section)
    requires ValidSection(x)
    ensures SectionText(x) != "" && ('.' in SectionText(x) <==> x.Embedded?)
  {
    SectionTextShape(x);
  }

  predicate IsAddressChar(c: char) {
    c == ':' || c == '.' || Charconv.IsDigit(c, 16)
  }

  /** Pieces that are neither empty nor contain a colon. */
  predicate Plain(t: seq<string>) {
    forall i :: 0 <= i < |t| ==> t[i] != "" && ':' !in t[i]
  }

  lemma TextsPlain(xs: seq<Section>)
    requires ValidSections(xs)
    ensures Plain(Texts(xs))
  {
    forall i | 0 <= i < |xs| ensures Texts(xs)[i] != "" && ':' !in Texts(xs)[i] {
      SectionTextShape(xs[i]);
    }
  }

  predicate NoDoubleColon(s: string) {
    forall j :: 0 <= j < |s| - 1 ==> s[j] == ':' ==> s[j + 1] != ':'
  }

  lemma DoubleColonAt(s: string, j: nat)
    ensures Text.OccursAt(s, "::", j) <==> j + 1 < |s| && s[j] == ':' && s[j + 1] == ':'
  {
    if j + 1 < |s| {
      assert s[j..j + 2] == [s[j], s[j + 1]];
    }
  }

  lemma NoDoubleColonExact(s: string)
    ensures NoDoubleColon(s) <==> !Text.Contains(s, "::")
  {
    Text.ContainsExact(s, "::");
    if !NoDoubleColon(s) {
      var j :| 0 <= j < |s| - 1 && s[j] == ':' && s[j + 1] == ':';
      DoubleColonAt(s, j);
    }
    if Text.Contains(s, "::") {
      DoubleColonAt(s, Text.FindFrom(s, "::", 0));
    }
  }

  /** A join of plain pieces neither starts nor ends with a colon, and holds no "::". */
  lemma {:induction false} JoinShape(t: seq<string>)
    requires |t| > 0 && Plain(t)
    ensures var s := Text.Join(t, ":");
            s != "" && s[0] != ':' && s[|s| - 1] != ':' && NoDoubleColon(s)
  {
    if |t| > 1 {
      var rest := Text.Join(t[1..], ":");
      JoinShape(t[1..]);
      var s := t[0] + ":" + rest;
      var n := |t[0]|;
      forall j | 0 <= j < |s| - 1 && s[j] == ':' ensures s[j + 1] != ':' {
        if j == n {
          assert s[j + 1] == rest[0];
        } else if j > n {
          assert s[j] == rest[j - n - 1] && s[j + 1] == rest[j - n];
        }
      }
    }
  }

  /** Cutting a rendered form at "::" gives one piece for a full form and two for a compressed one. */
  lemma CutRendered(f: Form)
    requires ValidForm(f) && (f.Full? ==> f.sections != [])
    ensures Render(f) != ""
    ensures Text.Cut(Render(f), "::") ==
            match f
            case Full(xs) => [Text.Join(Texts(xs), ":")]
            case Compressed(head, tail) => [Text.Join(Texts(head), ":"), Text.Join(Texts(tail), ":")]
  {
    match f
    case Full(xs) =>
      TextsPlain(xs);
      JoinShape(Texts(xs));
      NoDoubleColonExact(Render(f));
    case Compressed(head, tail) =>
      CutCompressed(head, tail);
  }

  lemma JoinTextsShape(xs: seq<Section>)
    requires ValidSections(xs)
    ensures var s := Text.Join(Texts(xs), ":");
            (s == "" <==> xs == []) && NoDoubleColon(s) && (s != "" ==> s[0] != ':' && s[|s| - 1] != ':')
  {
    TextsPlain(xs);
    if xs != [] {
      JoinShape(Texts(xs));
    }
  }

  lemma CutCompressed(head: seq<Section>, tail: seq<Section>)
    requires ValidSections(head) && ValidSections(tail)
    ensures var h, t := Text.Join(Texts(head), ":"), Text.Join(Texts(tail), ":");
            Text.Cut(h + "::" + t, "::") == [h, t]
  {
    var h, t := Text.Join(Texts(head), ":"), Text.Join(Texts(tail), ":");
    JoinTextsShape(head);
    JoinTextsShape(tail);
    NoDoubleColonExact(t);
    var s := h + "::" + t;
    forall j | 0 <= j < |h| ensures !Text.OccursAt(s, "::", j) {
      DoubleColonAt(s, j);
      assert s[j] == h[j];
      assert j + 1 < |h| ==> s[j + 1] == h[j + 1];
    }
    Text.CutAtFirst(h, "::", t);
  }

  /** Sections joined by colons take at most five characters a group, less one, plus six for an embedded address. */
  lemma {:induction false} JoinTextsLength(xs: seq<Section>)
    requires ValidSections(xs) && xs != []
    ensures |Text.Join(Texts(xs), ":")| <= 5 * |Groups(xs)| - 1 + if EndsEmbedded(xs) then 6 else 0
  {
    SectionTextShape(xs[0]);
    if |xs| > 1 {
      assert forall i :: 0 <= i < |xs[1..]| ==> xs[1..][i] == xs[i + 1];
      JoinTextsLength(xs[1..]);
      assert Texts(xs)[1..] == Texts(xs[1..]);
    } else {
      assert Groups(xs[1..]) == [];
    }
  }

  /** No accepted form is longer than 45 characters, so the length guard rejects none. */
  lemma RenderedLength(f: Form)
    requires Accepted(f)
    ensures 0 < |Render(f)| <= 45
  {
    match f
    case Full(xs) =>
      JoinTextsShape(xs);
      JoinTextsLength(xs);
    case Compressed(head, tail) =>
      if head != [] {
        JoinTextsLength(head);
      }
      if tail != [] {
        JoinTextsLength(tail);
      }
  }

  /** Rendered forms use only digits, dots and colons. */
  lemma RenderedChars(f: Form)
    requires ValidForm(f)
    ensures forall c :: c in Render(f) ==> IsAddressChar(c)
  {
    match f
    case Full(xs) => JoinTextsChars(xs);
    case Compressed(head, tail) =>
      JoinTextsChars(head);
      JoinTextsChars(tail);
  }

  lemma JoinTextsChars(xs: seq<Section>)
    requires ValidSections(xs)
    ensures forall c :: c in Text.Join(Texts(xs), ":") ==> IsAddressChar(c)
  {
    forall c | c in Text.Join(Texts(xs), ":") ensures IsAddressChar(c) {
      Text.JoinChars(Texts(xs), ":", c);
      if c != ':' {
        var k :| 0 <= k < |xs| && c in Texts(xs)[k];
        SectionTextShape(xs[k]);
      }
    }
  }
}
