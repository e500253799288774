/** `socket_v6_info`: an IPv6 address and a port, as "[address]:port", "address/port" or "address#port". */
module SocketV6 {
  import opened Errors
  import opened ByteOrder
  import Text
  import AddressV6
  import AddressV6Format
  import AddressV6Formatter
  import AddressV6Grammar
  import AddressV6Parser
  import Port

  datatype Socket = Socket(address: AddressV6.Address, port: Port.Port)

  const UNSET := Socket(AddressV6.Address([0, 0, 0, 0, 0, 0, 0, 0]), Port.Port(0))

  /** How the address and the port are put together. */
  datatype Style = Brackets | Slash | Hash

  function Assemble(style: Style, address: string, port: string): (s: string) {
    match style
    case Brackets => "[" + address + "]:" + port
    case Slash => address + "/" + port
    case Hash => address + "#" + port
  }

  /** The `std::formatter` of `socket_v6_info`; `to_string` uses brackets and the recommended address form. */
  function FormatAs(e: Endian, v: Socket, style: Style, spec: AddressV6Format.Spec): (s: string) {
    Assemble(style, AddressV6Format.Format(e, spec, v.address), Port.Format(e, v.port))
  }

  // ----- parsing

  /** The parts between separators: an address, a port, and no more; the first fault decides the error. */
  function Pair(e: Endian, parts: seq<string>): (r: Result<Socket>) {
    if |parts| == 0 then Err(InvalidArgument)
    else
      var a :- AddressV6.Parse(e, parts[0]);
      if |parts| == 1 then Err(InvalidArgument)
      else
        var p :- Port.Parse(e, parts[1]);
        if |parts| > 2 then Err(InvalidArgument) else Ok(Socket(a, p))
  }

  function Parse(e: Endian, s: string): (r: Result<Socket>) {
    if Text.Contains(s, "]:") then
      if s[0] != '[' then Err(InvalidArgument) else Pair(e, Text.Split(s[1..], "]:"))
    else if '/' in s then Pair(e, Text.Split(s, "/"))
    else if '#' in s then Pair(e, Text.Split(s, "#"))
    else Err(InvalidArgument)
  }

  /** `socket_v6_info::from_string`. */
  method FromString(e: Endian, s: string) returns (r: Result<Socket>)
    ensures r == Parse(e, s)
  {
    hide AddressV6.Parse, Port.Parse, Text.Cut;
    var str, separator := s, "";
    if Text.Contains(str, "]:") {
      if str[0] != '[' {
        return Err(InvalidArgument);
      } else {
        str := str[1..];
      }
      separator := "]:";
    } else if '/' in str {
      separator := "/";
    } else if '#' in str {
      separator := "#";
    } else {
      return Err(InvalidArgument);
    }
    var parts := Text.Split(str, separator);
    var partCount := 0;
    var v := UNSET;
    for i := 0 to |parts|
      invariant partCount == i <= 2
      invariant i >= 1 ==> AddressV6.Parse(e, parts[0]) == Ok(v.address)
      invariant i == 2 ==> Port.Parse(e, parts[1]) == Ok(v.port)
    {
      partCount := partCount + 1;
      if partCount > 2 {
        return Err(InvalidArgument);
      }
      if partCount == 1 {
        var a := AddressV6Parser.FromString(e, parts[i]);
        if a.Err? {
          return Err(a.error);
        }
        v := v.(address := a.value);
      } else {
        var p := Port.Parse(e, parts[i]);
        if p.Err? {
          return Err(p.error);
        }
        v := v.(port := p.value);
      }
    }
    if partCount != 2 {
      return Err(InvalidArgument);
    }
    r := Ok(v);
  }

  /** `socket_v6_info::from_string_uncheck`: no unreachable point is reached and the result is the same, on every text
      that the checked parser accepts. */
  method FromStringUncheck(e: Endian, s: string) returns (v: Socket)
    requires Parse(e, s).Ok?
    ensures Parse(e, s) == Ok(v)
  {
    hide AddressV6.Parse, Port.Parse, Text.Cut;
    var str, separator := s, "";
    if Text.Contains(str, "]:") {
      separator := "]:";
      str := str[1..];
    } else if '/' in str {
      separator := "/";
    } else if '#' in str {
      separator := "#";
    } else {
      assert false;
    }
    var parts := Text.Split(str, separator);
    assert Parse(e, s) == Pair(e, parts);
    var partCount := 0;
    v := UNSET;
    for i := 0 to |parts|
      invariant partCount == i
      invariant i >= 1 ==> AddressV6.Parse(e, parts[0]) == Ok(v.address)
      invariant i == 2 ==> Port.Parse(e, parts[1]) == Ok(v.port)
    {
      partCount := partCount + 1;
      if partCount == 1 {
        var a := AddressV6Parser.FromStringUncheck(e, parts[i]);
        v := v.(address := a);
      } else {
        var p := Port.FromStringUncheck(e, parts[i]);
        v := v.(port := p);
      }
    }
  }

  // ----- the language of the parser

  /** No address text and no port text contains a separator. */
  predicate Separate(t: string) {
    ']' !in t && '/' !in t && '#' !in t && '[' !in t
  }

  lemma AddressTextSeparate(e: Endian, t: string)
    requires AddressV6.Parse(e, t).Ok?
    ensures t != "" && Separate(t)
  {
    hide AddressV6.Head, AddressV6.Tail, Text.Cut;
    var f := AddressV6.ParseSound(e, t);
    AddressV6Grammar.RenderedChars(f);
  }

  lemma PortTextSeparate(e: Endian, p: Port.Port)
    ensures Port.Format(e, p) != "" && Separate(Port.Format(e, p))
  {
    hide Port.Format;
    Port.FormatChars(e, p);
  }

  lemma PairExact(e: Endian, parts: seq<string>, v: Socket)
    ensures Pair(e, parts) == Ok(v) <==>
            |parts| == 2 && AddressV6.Parse(e, parts[0]) == Ok(v.address) && parts[1] == Port.Format(e, v.port)
  {
    hide AddressV6.Parse, Port.Parse, Port.Format;
    if |parts| == 2 {
      Port.ParseExact(e, parts[1], v.port);
    }
  }

  lemma BracketAt(s: string, i: nat)
    ensures Text.OccursAt(s, "]:", i) <==> i + 1 < |s| && s[i] == ']' && s[i + 1] == ':'
  {
    if i + 1 < |s| {
      assert s[i..i + 2] == [s[i], s[i + 1]];
    }
  }

  lemma BracketFree(t: string)
    requires ']' !in t
    ensures !Text.Contains(t, "]:")
  {
    if Text.Contains(t, "]:") {
      BracketAt(t, Text.FindFrom(t, "]:", 0));
      assert false;
    }
  }

  lemma CutBracket(t: string, q: string)
    requires ']' !in t && ']' !in q
    ensures Text.Cut(t + "]:" + q, "]:") == [t, q]
  {
    var s := t + "]:" + q;
    forall j | 0 <= j < |t| ensures !Text.OccursAt(s, "]:", j) {
      BracketAt(s, j);
      assert s[j] == t[j];
    }
    Text.CutAtFirst(t, "]:", q);
    BracketFree(q);
    Text.CutFree(q, "]:");
  }

  lemma CutSeparator(t: string, c: char, q: string)
    requires c !in t && c !in q
    ensures Text.Split(t + [c] + q, [c]) == [t, q]
  {
    Text.CutAtChar(t, c, q);
    Text.ContainsChar(q, c);
    Text.CutFree(q, [c]);
  }

  /** The texts of an address and of a port, put together in any style, are taken apart again. */
  lemma Disassemble(e: Endian, style: Style, t: string, q: string)
    requires t != "" && Separate(t) && Separate(q)
    ensures Parse(e, Assemble(style, t, q)) == Pair(e, [t, q])
  {
    hide Pair, Text.Cut;
    var s := Assemble(style, t, q);
    match style
    case Brackets =>
      CutBracket(t, q);
      assert s[1..] == t + "]:" + q;
      BracketAt(s, |t| + 1);
      Text.ContainsExact(s, "]:");
      assert s[0] == '[';
    case Slash =>
      CutSeparator(t, '/', q);
      BracketFree(s);
      assert s[|t|] == '/';
    case Hash =>
      CutSeparator(t, '#', q);
      BracketFree(s);
      assert s[|t|] == '#';
  }

  /** The parts that the parser looks at, put together again, are the text. */
  lemma Reassemble(s: string, d: string, t: string, q: string)
    requires d != "" && Text.Cut(s, d) == [t, q]
    ensures s == t + d + q
  {
    hide Text.Cut;
    Text.JoinCut(s, d);
    assert [t, q][1..] == [q];
  }

  lemma AcceptedStyle(e: Endian, s: string, v: Socket) returns (style: Style, t: string)
    requires Parse(e, s) == Ok(v)
    ensures AddressV6.Parse(e, t) == Ok(v.address) && s == Assemble(style, t, Port.Format(e, v.port))
  {
    hide AddressV6.Parse, Pair, Port.Format, Text.Cut;
    if Text.Contains(s, "]:") {
      style := Brackets;
      var parts := Text.Split(s[1..], "]:");
      PairExact(e, parts, v);
      t := parts[0];
      assert parts == [t, parts[1]];
      Reassemble(s[1..], "]:", t, parts[1]);
      assert s == [s[0]] + s[1..];
    } else {
      var d: string;
      style, d := if '/' in s then Slash else Hash, if '/' in s then "/" else "#";
      var parts := Text.Split(s, d);
      PairExact(e, parts, v);
      t := parts[0];
      assert parts == [t, parts[1]];
      Reassemble(s, d, t, parts[1]);
    }
  }

  /** The accepted texts, exactly: an accepted address text and the text of the port, in one of the three styles. */
  lemma ParseExact(e: Endian, s: string, v: Socket)
    ensures Parse(e, s) == Ok(v) <==>
            exists style: Style, t: string ::
              AddressV6.Parse(e, t) == Ok(v.address) && s == Assemble(style, t, Port.Format(e, v.port))
  {
    hide AddressV6.Parse, Parse, Port.Format, Assemble;
    if Parse(e, s) == Ok(v) {
      var style, t := AcceptedStyle(e, s, v);
    }
    if style: Style, t: string :|
      AddressV6.Parse(e, t) == Ok(v.address) && s == Assemble(style, t, Port.Format(e, v.port)) {
      AddressTextSeparate(e, t);
      PortTextSeparate(e, v.port);
      Disassemble(e, style, t, Port.Format(e, v.port));
      PairExact(e, [t, Port.Format(e, v.port)], v);
    }
  }

  /** The parser reports "out of range" exactly when the address is fine and the port behind it is out of range; every
      other rejection is an invalid argument. */
  lemma OutOfRangeExact(e: Endian, s: string)
    ensures Parse(e, s) == Err(ResultOutOfRange) <==>
            exists parts: seq<string> ::
              && Taken(s, parts) && |parts| > 1
              && AddressV6.Parse(e, parts[0]).Ok? && Port.Parse(e, parts[1]) == Err(ResultOutOfRange)
  {
    hide AddressV6.Parse, Port.Parse, Text.Cut;
    var d := if Text.Contains(s, "]:") then "]:" else if '/' in s then "/" else "#";
    var parts := Text.Split(if d == "]:" then s[1..] else s, d);
    if Taken(s, parts) {
      assert Parse(e, s) == Pair(e, parts);
      if |parts| > 0 {
        AddressV6.ParseError(e, parts[0]);
      }
    }
  }

  /** The parts of a text, at "]:" behind a bracket if there is one, else at '/' if there is one, else at '#'. */
  predicate Taken(s: string, parts: seq<string>) {
    if Text.Contains(s, "]:") then s[0] == '[' && parts == Text.Split(s[1..], "]:")
    else if '/' in s then parts == Text.Split(s, "/")
    else '#' in s && parts == Text.Split(s, "#")
  }

  /** Every socket, printed in every style under every combination of address flags, parses back to itself. */
  lemma RoundTrip(e: Endian, v: Socket, style: Style, spec: AddressV6Format.Spec)
    ensures Parse(e, FormatAs(e, v, style, spec)) == Ok(v)
  {
    hide AddressV6.Parse, AddressV6Format.Format, Parse, Assemble, Port.Format;
    AddressV6Format.RoundTrip(e, spec, v.address);
    ParseExact(e, FormatAs(e, v, style, spec), v);
  }

  // ----- the specification of the formatter

  /** The style asked for by the first character of a specification. */
  function StyleOf(text: string): Style {
    if text != "" && text[0] == '/' then Slash
    else if text != "" && text[0] == '#' then Hash
    else Brackets
  }

  /** What is left of a specification behind the style. */
  function Nested(text: string): string {
    if StyleOf(text).Brackets? then text else text[1..]
  }

  /** An optional style, then nothing, or a colon and a legal address specification. */
  predicate Legal(text: string) {
    var rest := Nested(text);
    rest == "" || (rest[0] == ':' && AddressV6Formatter.Legal(rest[1..]))
  }

  function SpecOf(text: string): AddressV6Format.Spec {
    var rest := Nested(text);
    if rest == "" then AddressV6Format.RECOMMENDED else AddressV6Formatter.SpecOf(rest[1..])
  }

  /** The specifications, by their text: a style character or none, and then nothing, or a colon and a specification of
      the address. */
  lemma LegalExact(text: string)
    ensures Legal(text) <==>
            || text == "" || text == "/" || text == "#"
            || exists t: string ::
                 AddressV6Formatter.Legal(t) && (text == ":" + t || text == "/:" + t || text == "#:" + t)
  {
    hide AddressV6Formatter.Legal;
    var rest := Nested(text);
    if t: string :| AddressV6Formatter.Legal(t) && (text == ":" + t || text == "/:" + t || text == "#:" + t) {
      NestedText(text, t);
    }
    if Legal(text) {
      assert text == (if StyleOf(text).Brackets? then "" else [text[0]]) + rest;
      if rest != "" {
        var t := rest[1..];
        assert rest == ":" + t && AddressV6Formatter.Legal(t);
        assert text == ":" + t || text == "/:" + t || text == "#:" + t;
      }
    }
  }

  lemma NestedText(text: string, t: string)
    requires text == ":" + t || text == "/:" + t || text == "#:" + t
    ensures Nested(text) == ":" + t && Nested(text)[1..] == t
    ensures StyleOf(text) == if text == ":" + t then Brackets else if text == "/:" + t then Slash else Hash
  {
    assert text == ":" + t ==> text[0] == ':';
    assert text == "/:" + t ==> text[0] == '/' && text[1..] == ":" + t;
    assert text == "#:" + t ==> text[0] == '#' && text[1..] == ":" + t;
  }

  /** What each of them prints: the recommended or the specified form of the address, and the port, in brackets or
      behind the style character. */
  lemma StyleExact(e: Endian, v: Socket, t: string)
    ensures var a, p := AddressV6Format.ToString(e, v.address), Port.Format(e, v.port);
            && Printed(e, v, "") == "[" + a + "]:" + p
            && Printed(e, v, "/") == a + "/" + p
            && Printed(e, v, "#") == a + "#" + p
    ensures var a, p := AddressV6Format.Format(e, AddressV6Formatter.SpecOf(t), v.address), Port.Format(e, v.port);
            && Printed(e, v, ":" + t) == "[" + a + "]:" + p
            && Printed(e, v, "/:" + t) == a + "/" + p
            && Printed(e, v, "#:" + t) == a + "#" + p
  {
    hide AddressV6Formatter.SpecOf, AddressV6Format.Format, Port.Format;
    NestedText(":" + t, t);
    NestedText("/:" + t, t);
    NestedText("#:" + t, t);
  }

  /** What is printed under a specification. */
  function Printed(e: Endian, v: Socket, text: string): string {
    FormatAs(e, v, StyleOf(text), SpecOf(text))
  }

  /** The positions that `parse` reads before it has compared them with the end of the input. */
  function ReadUnasked(ctx: string): (positions: seq<nat>) {
    if ctx != "" && (ctx[0] == '/' || ctx[0] == '#') then [0, 1] else [0]
  }

  predicate ReadsInside(ctx: string) {
    forall i :: 0 <= i < |ReadUnasked(ctx)| ==> ReadUnasked(ctx)[i] < |ctx|
  }

  /** `parse` reads past the end of exactly three inputs: the empty one, and a style character without anything behind
      it. */
  lemma ReadsInsideExact(ctx: string)
    ensures ReadsInside(ctx) <==> ctx != "" && ctx != "/" && ctx != "#"
  {
    if ctx != "" {
      assert ReadUnasked(ctx)[0] == 0;
      if |ctx| == 1 {
        assert ctx == [ctx[0]];
        assert ctx[0] == '/' || ctx[0] == '#' ==> ReadUnasked(ctx)[1] == 1;
      }
    } else {
      assert ReadUnasked(ctx)[0] == 0;
    }
  }

  class Formatter {
    var style: Style
    const address: AddressV6Formatter.Formatter

    constructor ()
      ensures style == Brackets && fresh(address)
      ensures address.Flags() == AddressV6Format.Spec(false, false, false, false, false, false)
    {
      style := Brackets;
      address := new AddressV6Formatter.Formatter();
    }

    /** `parse`, on every input that it does not read past the end of. */
    method Parse(ctx: string) returns (ok: bool, it: nat)
      requires ReadsInside(ctx)
      requires style == Brackets && address.Flags() == AddressV6Format.Spec(false, false, false, false, false, false)
      modifies this, address
      ensures var text := ctx[..AddressV6Formatter.SpecEnd(ctx)];
              && (ok <==> Legal(text))
              && (ok ==> it == |text| && style == StyleOf(text) && address.Flags() == SpecOf(text))
    {
      hide AddressV6Formatter.Legal, AddressV6Formatter.SpecOf;
      ghost var end := AddressV6Formatter.SpecEnd(ctx);
      ghost var text := ctx[..end];
      ReadsInsideExact(ctx);
      AtEnd(ctx, 0);
      it := 0;
      if ctx[it] == '/' || ctx[it] == '#' {
        assert ReadUnasked(ctx)[1] == 1;
        style := if ctx[it] == '/' then Slash else Hash;
        it := it + 1;
        AtEnd(ctx, it);
      }
      assert Nested(text) == ctx[it..end];
      ok := true;
      if ctx[it] == ':' {
        it := it + 1;
        EndBehind(ctx, it);
        var n;
        ok, n := address.Parse(ctx[it..]);
        assert ctx[it..][..end - it] == ctx[it..end] == Nested(text)[1..];
        if !ok {
          return;
        }
        it := it + n;
      } else {
        address.seenR := true;
      }
      if it < |ctx| {
        AtEnd(ctx, it);
      }
      if it < |ctx| && ctx[it] != '}' {
        ok := false;
      }
    }

    /** `format`. */
    method Format(e: Endian, v: Socket) returns (s: string)
      ensures s == FormatAs(e, v, style, address.Flags())
    {
      hide AddressV6Format.Format, Port.Format;
      if style.Brackets? {
        s := "[";
        var a := address.Format(e, v.address);
        s := s + a + "]:" + Port.Format(e, v.port);
      } else {
        s := address.Format(e, v.address);
        s := s + (if style.Slash? then "/" else "#") + Port.Format(e, v.port);
      }
    }
  }

  /** Inside the input, a position not behind the end of the specification is that end exactly if it holds a brace. */
  lemma AtEnd(ctx: string, i: nat)
    requires i < |ctx| && i <= AddressV6Formatter.SpecEnd(ctx)
    ensures i == AddressV6Formatter.SpecEnd(ctx) <==> ctx[i] == '}'
  {
    AddressV6Formatter.SpecEndExact(ctx, i);
  }

  /** Dropping characters before the end of the specification moves it forward by as many. */
  lemma EndBehind(ctx: string, i: nat)
    requires i <= AddressV6Formatter.SpecEnd(ctx)
    ensures AddressV6Formatter.SpecEnd(ctx[i..]) == AddressV6Formatter.SpecEnd(ctx) - i
  {
    hide AddressV6Formatter.SpecEnd;
    var end, rest := AddressV6Formatter.SpecEnd(ctx), ctx[i..];
    var n := AddressV6Formatter.SpecEnd(rest);
    if n < end - i {
      AddressV6Formatter.SpecEndExact(rest, n);
      AddressV6Formatter.SpecEndExact(ctx, i + n);
    } else if n > end - i {
      AddressV6Formatter.SpecEndExact(rest, end - i);
      AddressV6Formatter.SpecEndExact(ctx, end);
    }
  }
}
