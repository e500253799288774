/** The `std::formatter` of `address_v6`: its specification language, its text, and what that text means. */
module AddressV6Format {
  import opened Errors
  import opened ByteOrder
  import opened AddressV6Grammar
  import opened AddressV6
  import Text
  import Charconv
  import AddressV4

  // ----- the longest run of zero groups

  /** A stretch of groups, by its first position and its length. */
  datatype Run = Run(start: nat, len: nat)

  predicate ZeroRun(l: seq<uint16>, a: nat, b: nat) {
    a <= b <= |l| && forall i :: a <= i < b ==> l[i] == 0
  }

  /** Two neighbouring zero groups. */
  predicate ZeroPair(l: seq<uint16>, i: nat) {
    ZeroRun(l, i, i + 2)
  }

  /** No zero run is longer, and none of the same length starts further left. */
  ghost predicate LeftmostLongest(l: seq<uint16>, r: Run) {
    && ZeroRun(l, r.start, r.start + r.len)
    && forall a: nat, b: nat :: ZeroRun(l, a, b) ==> b - a <= r.len && (b - a == r.len > 0 ==> r.start <= a)
  }

  /** The scan variables of `compressed_ipv6`. */
  datatype ScanState = ScanState(best: Run, cur: Run)

  function Scan(l: seq<uint16>, i: nat): (s: ScanState)
    requires i <= |l|
  {
    if i == 0 then ScanState(Run(0, 0), Run(0, 0))
    else
      var s := Scan(l, i - 1);
      if l[i - 1] == 0 then
        var cur := Run(if s.cur.len == 0 then i - 1 else s.cur.start, s.cur.len + 1);
        ScanState(if cur.len > s.best.len then cur else s.best, cur)
      else ScanState(s.best, Run(s.cur.start, 0))
  }

  function LongestRun(l: seq<uint16>): (r: Run) {
    Scan(l, |l|).best
  }

  /** After `i` groups, the current run is the zero run that ends there and cannot be extended to the left, and the best
      run is the leftmost longest one so far. */
  lemma {:induction false} ScanCorrect(l: seq<uint16>, i: nat)
    requires i <= |l|
    ensures var s := Scan(l, i);
            && s.cur.len <= i && ZeroRun(l[..i], i - s.cur.len, i)
            && (s.cur.len > 0 ==> s.cur.start + s.cur.len == i)
            && (s.cur.len < i ==> l[i - s.cur.len - 1] != 0)
            && LeftmostLongest(l[..i], s.best)
    decreases i
  {
    if i > 0 {
      ScanCorrect(l, i - 1);
      var p, s := Scan(l, i - 1), Scan(l, i);
      forall a: nat, b: nat | ZeroRun(l[..i], a, b)
        ensures b - a <= s.best.len && (b - a == s.best.len > 0 ==> s.best.start <= a)
      {
        if b < i {
          assert ZeroRun(l[..i - 1], a, b);
        } else {
          assert a < i ==> l[..i][i - 1] == 0;
          assert ZeroRun(l[..i - 1], if a < i then a else i - 1, i - 1);
        }
      }
    }
  }

  /** The scan finds the leftmost longest run of zero groups. */
  lemma LongestRunExact(l: seq<uint16>)
    ensures LeftmostLongest(l, LongestRun(l))
  {
    ScanCorrect(l, |l|);
    assert l[..|l|] == l;
  }

  // ----- the text

  /** `{:x}`, `{:X}`, `{:04x}` or `{:04X}` of one group. */
  function GroupText(g: uint16, removed: bool, upper: bool): (s: string) {
    var d := Charconv.Digits(g, 16, upper);
    if removed then d else Charconv.Pad(d, 4)
  }

  function GroupTexts(l: seq<uint16>, removed: bool, upper: bool): (t: seq<string>)
    ensures |t| == |l| && forall i :: 0 <= i < |l| ==> t[i] == GroupText(l[i], removed, upper)
  {
    seq(|l|, i requires 0 <= i < |l| => GroupText(l[i], removed, upper))
  }

  /** `full_ipv6`, and `mixed_full_ipv6` with its colon before the IPv4 part. */
  function FullText(l: seq<uint16>, removed: bool, mixed: bool, upper: bool): (s: string) {
    Text.Join(GroupTexts(l, removed, upper), ":") + if mixed then ":" else ""
  }

  /** Each group followed by a colon. */
  function Before(t: seq<string>): (s: string) {
    if t == [] then "" else Before(t[..|t| - 1]) + t[|t| - 1] + ":"
  }

  /** Each group preceded by a colon. */
  function After(t: seq<string>): (s: string) {
    if t == [] then "" else After(t[..|t| - 1]) + ":" + t[|t| - 1]
  }

  function Limit(mixed: bool): nat {
    if mixed then 6 else 8
  }

  /** `compressed_ipv6`. */
  function CompressedText(local: Raw, removed: bool, mixed: bool, upper: bool): (s: string) {
    var l := local[..Limit(mixed)];
    var best := LongestRun(l);
    LongestRunExact(l);
    if best.len < 2 then FullText(l, removed, mixed, upper)
    else if best.start == 0 && best.len == |l| then "::"
    else
      var t := GroupTexts(l, removed, upper);
      Before(t[..best.start])
      + (if best.start == 0 then ":" else "")
      + After(t[best.start + best.len..])
      + (if best.start + best.len == |l| || mixed then ":" else "")
  }

  function V4Part(e: Endian, a: Address): (q: Quad) {
    BytesOfWord(e, WordOfHalves(e, Halves(a.raw[6], a.raw[7])))
  }

  /** `do_format`. */
  function DoFormat(e: Endian, a: Address, full: bool, removed: bool, mixed: bool, upper: bool): (s: string) {
    var local := Hton(e, a.raw);
    (if full then FullText(local[..Limit(mixed)], removed, mixed, upper)
     else CompressedText(local, removed, mixed, upper))
    + if mixed then AddressV4.Dotted(V4Part(e, a)) else ""
  }

  /** IPv4-mapped, or IPv4-compatible with more than the last group in use. */
  predicate CheckMixed(local: Raw) {
    && (forall i :: 0 <= i < 5 ==> local[i] == 0)
    && (local[5] == 0xffff || (local[5] == 0 && local[6] != 0))
  }

  /** The letters seen in a format specification. */
  datatype Spec = Spec(r: bool, f: bool, z: bool, m: bool, n: bool, u: bool)

  const RECOMMENDED := Spec(true, false, false, false, false, false)

  predicate Mixed(spec: Spec, local: Raw) {
    if spec.r then !spec.n && CheckMixed(local) else spec.m
  }

  function Format(e: Endian, spec: Spec, a: Address): (s: string) {
    DoFormat(e, a, spec.f, !spec.z, Mixed(spec, Hton(e, a.raw)), spec.u)
  }

  function ToString(e: Endian, a: Address): (s: string) {
    Format(e, RECOMMENDED, a)
  }

  // ----- the text is the rendering of a grammatical form of the address

  function Sections(l: seq<uint16>, removed: bool, upper: bool): (xs: seq<Section>)
    ensures |xs| == |l| && forall i :: 0 <= i < |l| ==> xs[i] == Hex(GroupText(l[i], removed, upper))
  {
    seq(|l|, i requires 0 <= i < |l| => Hex(GroupText(l[i], removed, upper)))
  }

  function Trailer(e: Endian, a: Address, mixed: bool): (xs: seq<Section>) {
    if mixed then [Embedded(V4Part(e, a))] else []
  }

  /** The form that the formatter writes: the leftmost longest zero run is left out when it has two groups or more. */
  function FormOf(e: Endian, a: Address, full: bool, removed: bool, mixed: bool, upper: bool): (f: Form) {
    var l := Hton(e, a.raw)[..Limit(mixed)];
    var best := LongestRun(l);
    LongestRunExact(l);
    if full || best.len < 2 then Full(Sections(l, removed, upper) + Trailer(e, a, mixed))
    else
      Compressed(Sections(l[..best.start], removed, upper),
                 Sections(l[best.start + best.len..], removed, upper) + Trailer(e, a, mixed))
  }

  lemma GroupTextValue(g: uint16, removed: bool, upper: bool)
    ensures ValidSection(Hex(GroupText(g, removed, upper)))
    ensures SectionGroups(Hex(GroupText(g, removed, upper))) == [g]
  {
    var d := Charconv.Digits(g, 16, upper);
    Charconv.DigitsValue(g, 16, upper);
    Charconv.DigitsLength(g, 16, upper);
    Charconv.PadValue(d, 16, 4);
  }

  lemma {:induction false} SectionsGroups(l: seq<uint16>, removed: bool, upper: bool)
    ensures ValidSections(Sections(l, removed, upper)) && !EndsEmbedded(Sections(l, removed, upper))
    ensures Groups(Sections(l, removed, upper)) == l
  {
    hide GroupText, SectionGroups, ValidSection;
    var xs := Sections(l, removed, upper);
    forall i | 0 <= i < |l| ensures ValidSection(xs[i]) {
      GroupTextValue(l[i], removed, upper);
    }
    if l != [] {
      GroupTextValue(l[0], removed, upper);
      SectionsGroups(l[1..], removed, upper);
      assert xs[1..] == Sections(l[1..], removed, upper);
      assert [l[0]] + l[1..] == l;
    }
  }

  /** The embedded address stands for the last two groups, on either machine. */
  lemma V4PartGroups(e: Endian, a: Address)
    ensures var q, local := V4Part(e, a), Hton(e, a.raw);
            [q.a * 0x100 + q.b, q.c * 0x100 + q.d] == local[6..]
  {
    hide Hton16, BytesOfWord, WordOfBytes, HalvesOfWord, WordOfHalves;
    var h := Halves(a.raw[6], a.raw[7]);
    var w := WordOfHalves(e, h);
    HostHalves(e, BytesOfWord(e, w));
    WordOfBytesOfWord(e, w);
    HalvesOfWordOfHalves(e, h);
  }

  lemma WithTrailer(e: Endian, a: Address, l: seq<uint16>, removed: bool, mixed: bool, upper: bool)
    ensures var xs := Sections(l, removed, upper) + Trailer(e, a, mixed);
            && ValidSections(xs)
            && Groups(xs) == l + if mixed then Hton(e, a.raw)[6..] else []
  {
    hide GroupText, Hton16, V4Part;
    var xs := Sections(l, removed, upper);
    SectionsGroups(l, removed, upper);
    if mixed {
      V4PartGroups(e, a);
      var y := [Embedded(V4Part(e, a))];
      assert Groups(y[1..]) == [];
      GroupsAppend(xs, y);
    } else {
      assert xs + [] == xs;
    }
  }

  /** Whatever the flags, the form is one of the standard, and denotes the address. */
  lemma FormDenotes(e: Endian, a: Address, full: bool, removed: bool, mixed: bool, upper: bool)
    ensures var f := FormOf(e, a, full, removed, mixed, upper);
            Standard(f) && Denote(f) == Hton(e, a.raw)
  {
    hide Hton16, V4Part, GroupText, SectionGroups, Groups, Scan;
    var local := Hton(e, a.raw);
    var l := local[..Limit(mixed)];
    var best := LongestRun(l);
    LongestRunExact(l);
    var rest := if mixed then local[6..] else [];
    assert l + rest == local;
    if full || best.len < 2 {
      WithTrailer(e, a, l, removed, mixed, upper);
    } else {
      var h, t := l[..best.start], l[best.start + best.len..];
      SectionsGroups(h, removed, upper);
      WithTrailer(e, a, t, removed, mixed, upper);
      assert l == h + Zeros(best.len) + t;
      assert h + Zeros(best.len) + (t + rest) == local;
    }
  }

  lemma {:induction false} BeforeJoin(t: seq<string>)
    requires t != []
    ensures Before(t) == Text.Join(t, ":") + ":"
  {
    if |t| > 1 {
      var init, last := t[..|t| - 1], t[|t| - 1];
      BeforeJoin(init);
      Text.JoinAppend(init, [last], ":");
      assert init + [last] == t;
    } else {
      assert t[..0] == [] && t == [t[0]];
    }
  }

  lemma {:induction false} AfterJoin(t: seq<string>)
    requires t != []
    ensures After(t) == ":" + Text.Join(t, ":")
  {
    if |t| > 1 {
      var init, last := t[..|t| - 1], t[|t| - 1];
      AfterJoin(init);
      Text.JoinAppend(init, [last], ":");
      assert init + [last] == t;
    } else {
      assert t[..0] == [] && t == [t[0]];
    }
  }

  lemma SectionsTexts(l: seq<uint16>, removed: bool, upper: bool)
    ensures Texts(Sections(l, removed, upper)) == GroupTexts(l, removed, upper)
  {
  }

  /** Sections and the IPv4 part, joined. */
  lemma JoinTrailer(e: Endian, a: Address, l: seq<uint16>, removed: bool, mixed: bool, upper: bool)
    ensures var t := GroupTexts(l, removed, upper);
            Text.Join(Texts(Sections(l, removed, upper) + Trailer(e, a, mixed)), ":") ==
            Text.Join(t, ":")
            + if mixed then (if l == [] then "" else ":") + AddressV4.Dotted(V4Part(e, a)) else ""
  {
    hide V4Part, GroupText, AddressV4.Dotted;
    var t := GroupTexts(l, removed, upper);
    var xs := Sections(l, removed, upper);
    SectionsTexts(l, removed, upper);
    if mixed {
      var d := AddressV4.Dotted(V4Part(e, a));
      assert Texts(xs + Trailer(e, a, mixed)) == t + [d];
      if l != [] {
        Text.JoinAppend(t, [d], ":");
      }
    } else {
      assert xs + [] == xs;
    }
  }

  /** What the formatter writes around the run that it leaves out. */
  function Pieces(ht: seq<string>, tt: seq<string>, mixed: bool): string {
    Before(ht) + (if ht == [] then ":" else "") + After(tt) + (if tt == [] || mixed then ":" else "")
  }

  lemma HeadPiece(ht: seq<string>)
    ensures Before(ht) + (if ht == [] then ":" else "") == Text.Join(ht, ":") + ":"
  {
    if ht != [] {
      BeforeJoin(ht);
    }
  }

  lemma TailPiece(tt: seq<string>, mixed: bool, d: string)
    ensures After(tt) + (if tt == [] || mixed then ":" else "") + (if mixed then d else "") ==
            ":" + (Text.Join(tt, ":") + if mixed then (if tt == [] then "" else ":") + d else "")
  {
    if tt != [] {
      AfterJoin(tt);
    }
  }

  lemma CompressedPieces(ht: seq<string>, tt: seq<string>, mixed: bool, d: string)
    ensures Pieces(ht, tt, mixed) + (if mixed then d else "") ==
            Text.Join(ht, ":") + "::"
            + (Text.Join(tt, ":") + if mixed then (if tt == [] then "" else ":") + d else "")
  {
    hide Before, After, Text.Join;
    var b := Before(ht) + (if ht == [] then ":" else "");
    var x, y, z := After(tt), if tt == [] || mixed then ":" else "", if mixed then d else "";
    var r := Text.Join(tt, ":") + if mixed then (if tt == [] then "" else ":") + d else "";
    HeadPiece(ht);
    TailPiece(tt, mixed, d);
    Reassociate(b, x, y, z, Text.Join(ht, ":"), r);
  }

  lemma Reassociate(b: string, x: string, y: string, z: string, h: string, r: string)
    requires b == h + ":" && x + y + z == ":" + r
    ensures b + x + y + z == h + "::" + r
  {
    assert b + x + y + z == b + (x + y + z);
    assert h + ":" + (":" + r) == h + (":" + ":") + r;
  }

  /** The compressed text, by the groups on either side of the run. */
  lemma CompressedTextPieces(local: Raw, removed: bool, mixed: bool, upper: bool, best: Run)
    requires best == LongestRun(local[..Limit(mixed)]) && best.len >= 2
    ensures best.start + best.len <= Limit(mixed)
    ensures var l := local[..Limit(mixed)];
            CompressedText(local, removed, mixed, upper) ==
            Pieces(GroupTexts(l[..best.start], removed, upper),
                   GroupTexts(l[best.start + best.len..], removed, upper), mixed)
  {
    hide GroupText, Scan, LeftmostLongest;
    var l := local[..Limit(mixed)];
    RunInside(l);
    var texts := GroupTexts(l, removed, upper);
    var ht, tt := GroupTexts(l[..best.start], removed, upper), GroupTexts(l[best.start + best.len..], removed, upper);
    assert texts[..best.start] == ht && texts[best.start + best.len..] == tt;
    assert best.start == 0 <==> ht == [];
    assert best.start + best.len == |l| <==> tt == [];
    if best.start == 0 && best.len == |l| {
      assert Before(ht) == "" && After(tt) == "";
    }
  }

  lemma RunInside(l: seq<uint16>)
    ensures LongestRun(l).start + LongestRun(l).len <= |l|
  {
    LongestRunExact(l);
  }

  /** The compressed text followed by the IPv4 part is the rendered form. */
  lemma CompressedRenders(e: Endian, a: Address, removed: bool, mixed: bool, upper: bool)
    requires LongestRun(Hton(e, a.raw)[..Limit(mixed)]).len >= 2
    ensures CompressedText(Hton(e, a.raw), removed, mixed, upper)
            + (if mixed then AddressV4.Dotted(V4Part(e, a)) else "")
            == Render(FormOf(e, a, false, removed, mixed, upper))
  {
    hide V4Part, GroupText, GroupTexts, Sections, AddressV4.Dotted, Scan, Hton16, CompressedText, Pieces, Text.Join;
    var local := Hton(e, a.raw);
    var l := local[..Limit(mixed)];
    var best := LongestRun(l);
    RunInside(l);
    var h, t := l[..best.start], l[best.start + best.len..];
    var d := AddressV4.Dotted(V4Part(e, a));
    CompressedTextPieces(local, removed, mixed, upper, best);
    CompressedPieces(GroupTexts(h, removed, upper), GroupTexts(t, removed, upper), mixed, d);
    SectionsTexts(h, removed, upper);
    JoinTrailer(e, a, t, removed, mixed, upper);
    assert t == [] <==> GroupTexts(t, removed, upper) == [];
  }

  lemma FullRenders(e: Endian, a: Address, removed: bool, mixed: bool, upper: bool)
    ensures var l := Hton(e, a.raw)[..Limit(mixed)];
            FullText(l, removed, mixed, upper) + (if mixed then AddressV4.Dotted(V4Part(e, a)) else "") ==
            Render(Full(Sections(l, removed, upper) + Trailer(e, a, mixed)))
  {
    hide V4Part, GroupText, AddressV4.Dotted, Hton16;
    JoinTrailer(e, a, Hton(e, a.raw)[..Limit(mixed)], removed, mixed, upper);
  }

  lemma FormatRenders(e: Endian, a: Address, full: bool, removed: bool, mixed: bool, upper: bool)
    ensures DoFormat(e, a, full, removed, mixed, upper) == Render(FormOf(e, a, full, removed, mixed, upper))
  {
    hide V4Part, GroupText, AddressV4.Dotted, Scan, Hton16, Render;
    var l := Hton(e, a.raw)[..Limit(mixed)];
    if full || LongestRun(l).len < 2 {
      FullRenders(e, a, removed, mixed, upper);
    } else {
      CompressedRenders(e, a, removed, mixed, upper);
    }
  }

  /** Every address, printed under every combination of flags, parses back to itself; no printed text exceeds the
      parser's length guard. */
  lemma RoundTrip(e: Endian, spec: Spec, a: Address)
    ensures Parse(e, Format(e, spec, a)) == Ok(a)
    ensures 0 < |Format(e, spec, a)| <= 45
  {
    hide Hton16, FormOf, DoFormat, Render, Denote, Parse;
    var mixed := Mixed(spec, Hton(e, a.raw));
    var f := FormOf(e, a, spec.f, !spec.z, mixed, spec.u);
    FormatRenders(e, a, spec.f, !spec.z, mixed, spec.u);
    FormDenotes(e, a, spec.f, !spec.z, mixed, spec.u);
    ParseComplete(e, f);
    RenderedLength(f);
    HtonInvolution(e, a.raw);
  }
}
