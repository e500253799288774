/** `socket_v4_info`: an IPv4 address and a port, separated by ':' or '/'. */
module SocketV4 {
  import opened Errors
  import opened ByteOrder
  import Text
  import Charconv
  import AddressV4
  import Port

  datatype Socket = Socket(address: AddressV4.Address, port: Port.Port)

  const UNSET := Socket(AddressV4.Address(0), Port.Port(0))

  /** The `std::formatter` of `socket_v4_info` with either of its separators; `to_string` uses ':'. */
  function Format(e: Endian, v: Socket, separator: char): (s: string) {
    AddressV4.Format(e, v.address) + [separator] + Port.Format(e, v.port)
  }

  predicate IsSeparator(c: char) {
    c == ':' || c == '/'
  }

  /** The parts between separators: an address, a port, and no more; the first fault decides the error. */
  function Pair(e: Endian, parts: seq<string>): (r: Result<Socket>) {
    if |parts| == 0 then Err(InvalidArgument)
    else
      var a :- AddressV4.Parse(e, parts[0]);
      if |parts| == 1 then Err(InvalidArgument)
      else
        var p :- Port.Parse(e, parts[1]);
        if |parts| > 2 then Err(InvalidArgument) else Ok(Socket(a, p))
  }

  function Parse(e: Endian, s: string): (r: Result<Socket>) {
    if ':' in s then Pair(e, Text.Split(s, ":"))
    else if '/' in s then Pair(e, Text.Split(s, "/"))
    else Err(InvalidArgument)
  }

  /** `socket_v4_info::from_string`. */
  method FromString(e: Endian, s: string) returns (r: Result<Socket>)
    ensures r == Parse(e, s)
  {
    hide AddressV4.Parse, Port.Parse;
    var separator;
    if ':' in s {
      separator := ":";
    } else if '/' in s {
      separator := "/";
    } else {
      return Err(InvalidArgument);
    }
    var parts := Text.Split(s, separator);
    var partCount := 0;
    var v := UNSET;
    for i := 0 to |parts|
      invariant partCount == i <= 2
      invariant i >= 1 ==> AddressV4.Parse(e, parts[0]) == Ok(v.address)
      invariant i == 2 ==> Port.Parse(e, parts[1]) == Ok(v.port)
    {
      partCount := partCount + 1;
      if partCount > 2 {
        return Err(InvalidArgument);
      }
      if partCount == 1 {
        var a := AddressV4.FromString(e, parts[i]);
        if a.Err? {
          return Err(a.error);
        }
        v := v.(address := a.value);
      } else {
        var p := Port.Parse(e, parts[i]);
        if p.Err? {
          return Err(p.error);
        }
        v := v.(port := p.value);
      }
    }
    if partCount != 2 {
      return Err(InvalidArgument);
    }
    r := Ok(v);
  }

  /** `socket_v4_info::from_string_uncheck`: it looks for the other separator first, and yet agrees with the checked
      parser on every text that the latter accepts. */
  method FromStringUncheck(e: Endian, s: string) returns (v: Socket)
    requires Parse(e, s).Ok?
    ensures Parse(e, s) == Ok(v)
  {
    hide AddressV4.Parse, Port.Parse;
    NotBoth(e, s);
    var separator := ":";
    if '/' in s {
      separator := "/";
    }
    var parts := Text.Split(s, separator);
    assert Parse(e, s) == Pair(e, parts);
    var partCount := 0;
    v := UNSET;
    for i := 0 to |parts|
      invariant partCount == i
      invariant i >= 1 ==> AddressV4.Parse(e, parts[0]) == Ok(v.address)
      invariant i == 2 ==> Port.Parse(e, parts[1]) == Ok(v.port)
    {
      partCount := partCount + 1;
      if partCount == 1 {
        var a := AddressV4.FromStringUncheck(e, parts[i]);
        v := v.(address := a);
      } else {
        var p := Port.FromStringUncheck(e, parts[i]);
        v := v.(port := p);
      }
    }
  }

  lemma AddressChars(e: Endian, a: AddressV4.Address)
    ensures forall c :: c in AddressV4.Format(e, a) ==> c == '.' || Charconv.IsDigit(c, 10)
  {
    hide BytesOfWord;
    var q := BytesOfWord(e, a.raw);
    Charconv.DigitsValue(q.a, 10, false);
    Charconv.DigitsValue(q.b, 10, false);
    Charconv.DigitsValue(q.c, 10, false);
    Charconv.DigitsValue(q.d, 10, false);
  }

  /** An accepted pair is an address text and a port text. */
  lemma PairExact(e: Endian, parts: seq<string>, v: Socket)
    ensures Pair(e, parts) == Ok(v) <==> parts == [AddressV4.Format(e, v.address), Port.Format(e, v.port)]
  {
    hide AddressV4.Parse, AddressV4.Format, Port.Parse, Port.Format;
    if |parts| == 2 {
      assert parts == [parts[0], parts[1]];
      AddressV4.ParseExact(e, parts[0], v.address);
      Port.ParseExact(e, parts[1], v.port);
    }
  }

  /** The printed text, cut at its separator, and free of the other one. */
  lemma FormatParts(e: Endian, v: Socket, separator: char)
    requires IsSeparator(separator)
    ensures var s := Format(e, v, separator);
            && s != "" && separator in s
            && (forall c :: IsSeparator(c) && c != separator ==> c !in s)
            && Text.Split(s, [separator]) == [AddressV4.Format(e, v.address), Port.Format(e, v.port)]
  {
    hide AddressV4.Format, Port.Format;
    AddressChars(e, v.address);
    Port.FormatChars(e, v.port);
    var a, p := AddressV4.Format(e, v.address), Port.Format(e, v.port);
    assert Format(e, v, separator)[|a|] == separator;
    Text.CutAtChar(a, separator, p);
    Text.ContainsChar(p, separator);
    Text.CutFree(p, [separator]);
  }

  /** The accepted texts are exactly the printed ones, with either separator. */
  lemma ParseExact(e: Endian, s: string, v: Socket)
    ensures Parse(e, s) == Ok(v) <==> s == Format(e, v, ':') || s == Format(e, v, '/')
  {
    hide AddressV4.Format, Port.Format, Pair;
    FormatParts(e, v, ':');
    FormatParts(e, v, '/');
    PairExact(e, Text.Split(s, ":"), v);
    PairExact(e, Text.Split(s, "/"), v);
    var a, p := AddressV4.Format(e, v.address), Port.Format(e, v.port);
    assert IsSeparator(':') && IsSeparator('/');
    if Parse(e, s) == Ok(v) {
      var c := if ':' in s then ':' else '/';
      Text.JoinCut(s, [c]);
      assert Text.Cut(s, [c]) == [a, p];
      assert [a, p][1..] == [p];
    }
  }

  /** No accepted text contains both separators. */
  lemma NotBoth(e: Endian, s: string)
    requires Parse(e, s).Ok?
    ensures !(':' in s && '/' in s)
  {
    hide Parse, Format;
    var v := Parse(e, s).value;
    ParseExact(e, s, v);
    FormatParts(e, v, ':');
    FormatParts(e, v, '/');
    assert IsSeparator(':') && IsSeparator('/');
  }
  /** The parts of a text, at ':' if there is one, else at '/'. */
  predicate Taken(s: string, parts: seq<string>) {
    if ':' in s then parts == Text.Split(s, ":") else '/' in s && parts == Text.Split(s, "/")
  }

  /** The parser reports "out of range" exactly when the address in front of the separator is out of range, or it is
      fine and the port behind it is out of range; every other rejection is an invalid argument. */
  lemma OutOfRangeExact(e: Endian, s: string)
    ensures Parse(e, s) == Err(ResultOutOfRange) <==>
            exists parts: seq<string> ::
              && Taken(s, parts) && |parts| > 0
              && (|| AddressV4.Parse(e, parts[0]) == Err(ResultOutOfRange)
                  || (AddressV4.Parse(e, parts[0]).Ok? && |parts| > 1 &&
                      Port.Parse(e, parts[1]) == Err(ResultOutOfRange)))
  {
    hide AddressV4.Parse, Port.Parse, Text.Cut;
    if ':' in s || '/' in s {
      var parts := if ':' in s then Text.Split(s, ":") else Text.Split(s, "/");
      assert Taken(s, parts) && Parse(e, s) == Pair(e, parts);
    }
  }
}
