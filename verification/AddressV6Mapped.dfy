/** IPv4-mapped addresses (section 2.5.5.2 of RFC 4291). */
module AddressV6Mapped {
  import opened Errors
  import opened ByteOrder
  import opened AddressV6Grammar
  import opened AddressV6
  import opened AddressV6Format
  import opened AddressV6Canonical
  import Text
  import Charconv
  import AddressV4

  /** `is_ipv4_mapped`, which looks at the raw groups, in network order. */
  predicate IsMapped(a: Address) {
    && a.raw[0] == 0 && a.raw[1] == 0 && a.raw[2] == 0
    && a.raw[3] == 0 && a.raw[4] == 0 && a.raw[5] == 0xffff
  }

  /** `to_ipv4_mapped`. */
  function ToMapped(e: Endian, a: Address): (v: AddressV4.Address)
    requires IsMapped(a)
  {
    AddressV4.Address(WordOfHalves(e, Halves(a.raw[6], a.raw[7])))
  }

  /** The form of "::ffff:d.d.d.d". */
  function MappedForm(q: Quad): Form {
    Compressed([], [Hex("ffff"), Embedded(q)])
  }

  lemma MappedFormText(q: Quad)
    ensures Render(MappedForm(q)) == "::ffff:" + AddressV4.Dotted(q)
  {
    hide AddressV4.Dotted;
    var t := [Hex("ffff"), Embedded(q)];
    var d := AddressV4.Dotted(q);
    assert Texts(t) == ["ffff", d];
    assert ["ffff", d][1..] == [d];
    assert Text.Join(["ffff", d], ":") == "ffff" + ":" + d;
    assert Texts([]) == [];
  }

  lemma FFFF()
    ensures Charconv.AllDigits("ffff", 16) && Charconv.Value("ffff", 16) == 0xffff
  {
    assert "ffff"[..3] == "fff" && "fff"[..2] == "ff" && "ff"[..1] == "f" && "f"[..0] == "";
    assert Charconv.Value("", 16) == 0;
    assert Charconv.Value("f", 16) == 0xf;
    assert Charconv.Value("ff", 16) == 0xff;
    assert Charconv.Value("fff", 16) == 0xfff;
  }

  lemma MappedFormGroups(q: Quad)
    ensures ValidForm(MappedForm(q)) && Accepted(MappedForm(q))
    ensures Groups(MappedForm(q).head) == []
    ensures Groups(MappedForm(q).tail) == [0xffff, q.a * 0x100 + q.b, q.c * 0x100 + q.d]
    ensures Denote(MappedForm(q)) == [0, 0, 0, 0, 0, 0xffff, q.a * 0x100 + q.b, q.c * 0x100 + q.d]
  {
    FFFF();
    var t := [Hex("ffff"), Embedded(q)];
    assert t[1..] == [Embedded(q)] && t[1..][1..] == [];
    assert SectionGroups(Hex("ffff")) == [0xffff];
    assert Groups([]) == [];
    assert Groups([Embedded(q)]) == SectionGroups(Embedded(q)) + [];
    assert Groups(t) == [0xffff] + Groups([Embedded(q)]);
  }

  lemma MappedFormObeys(q: Quad)
    requires ValidForm(MappedForm(q)) && Accepted(MappedForm(q))
    ensures Obeys(RECOMMENDED, MappedForm(q), Denote(MappedForm(q)))
  {
    MappedFormGroups(q);
    var local := Denote(MappedForm(q));
    var l := local[..6];
    assert l == [0, 0, 0, 0, 0, 0xffff];
    assert l[5] != 0;
    assert LeftmostLongest(l, Run(0, 5));
  }

  /** On either machine: the text of an IPv4 address behind "::ffff:" parses to a mapped address, which maps back to the
      IPv4 address, and which prints as that text. */
  lemma MappedText(e: Endian, d: string, v: AddressV4.Address)
    requires AddressV4.Parse(e, d) == Ok(v)
    ensures var r := Parse(e, "::ffff:" + d);
            && r.Ok? && IsMapped(r.value) && ToMapped(e, r.value) == v
            && ToString(e, r.value) == "::ffff:" + d
  {
    hide Parse, Denote, Obeys, Format, BytesOfWord, WordOfBytes;
    var q := BytesOfWord(e, v.raw);
    AddressV4.ParseExact(e, d, v);
    MappedFormText(q);
    MappedFormGroups(q);
    MappedFormObeys(q);
    FormatExact(e, RECOMMENDED, MappedForm(q));
    ParseComplete(e, MappedForm(q));
    var g := Denote(MappedForm(q));
    MappedGroups(e, v, g);
  }

  /** Storing the groups of a mapped address in network order and reading the IPv4 part back. */
  lemma MappedGroups(e: Endian, v: AddressV4.Address, g: Raw)
    requires var q := BytesOfWord(e, v.raw);
             g == [0, 0, 0, 0, 0, 0xffff, q.a * 0x100 + q.b, q.c * 0x100 + q.d]
    ensures IsMapped(Address(Hton(e, g))) && ToMapped(e, Address(Hton(e, g))) == v
  {
    var q := BytesOfWord(e, v.raw);
    var h := HalvesOfWord(e, v.raw);
    WordOfBytesOfWord(e, v.raw);
    WordOfHalvesOfWord(e, v.raw);
    HostHalves(e, q);
    Hton16Involution(e, h.first);
    Hton16Involution(e, h.second);
  }

  /** Conversely, every mapped address is obtained this way, so an address is mapped exactly when it prints as "::ffff:"
      and the text of an IPv4 address, which is then the one that it maps to. */
  lemma MappedExact(e: Endian, a: Address)
    ensures IsMapped(a) <==> exists v: AddressV4.Address :: ToString(e, a) == "::ffff:" + AddressV4.Format(e, v)
    ensures IsMapped(a) ==> ToString(e, a) == "::ffff:" + AddressV4.Format(e, ToMapped(e, a))
  {
    hide Parse, Format, AddressV4.Format, AddressV4.Parse, WordOfHalves;
    if IsMapped(a) {
      var v := ToMapped(e, a);
      AddressV4.ParseExact(e, AddressV4.Format(e, v), v);
      MappedText(e, AddressV4.Format(e, v), v);
      var b := Parse(e, "::ffff:" + AddressV4.Format(e, v)).value;
      MappedInjective(e, a, b);
    }
    if v: AddressV4.Address :| ToString(e, a) == "::ffff:" + AddressV4.Format(e, v) {
      AddressV4.ParseExact(e, AddressV4.Format(e, v), v);
      MappedText(e, AddressV4.Format(e, v), v);
      RoundTrip(e, RECOMMENDED, a);
    }
  }

  lemma MappedInjective(e: Endian, a: Address, b: Address)
    requires IsMapped(a) && IsMapped(b) && ToMapped(e, a) == ToMapped(e, b)
    ensures a == b
  {
    HalvesOfWordOfHalves(e, Halves(a.raw[6], a.raw[7]));
    HalvesOfWordOfHalves(e, Halves(b.raw[6], b.raw[7]));
    assert Halves(a.raw[6], a.raw[7]) == Halves(b.raw[6], b.raw[7]);
    assert a.raw == b.raw;
  }

  /** The form of "::d.d.d.d". */
  function CompatibleForm(q: Quad): Form {
    Compressed([], [Embedded(q)])
  }

  lemma CompatibleFormGroups(q: Quad)
    ensures Accepted(CompatibleForm(q))
    ensures Denote(CompatibleForm(q)) == [0, 0, 0, 0, 0, 0, q.a * 0x100 + q.b, q.c * 0x100 + q.d]
  {
    var t := [Embedded(q)];
    assert t[1..] == [] && Groups([]) == [];
    assert Groups(t) == SectionGroups(Embedded(q)) + [];
  }

  /** The last two groups, as four bytes. */
  function LastQuad(local: Raw): Quad {
    Quad(local[6] / 0x100, local[6] % 0x100, local[7] / 0x100, local[7] % 0x100)
  }

  /** The recommended form uses dotted text exactly for what "::ffff:d.d.d.d" denotes, and for what "::d.d.d.d" denotes
      unless all but the last sixteen bits are zero. */
  lemma CheckMixedExact(local: Raw)
    ensures CheckMixed(local) <==>
            || (exists q: Quad :: Denoted(MappedForm(q), local))
            || (exists q: Quad :: Denoted(CompatibleForm(q), local) && (q.a != 0 || q.b != 0))
  {
    hide Denote;
    forall q: Quad ensures Denoted(MappedForm(q), local) <==>
                           local == [0, 0, 0, 0, 0, 0xffff, q.a * 0x100 + q.b, q.c * 0x100 + q.d]
    {
      MappedFormGroups(q);
    }
    forall q: Quad ensures Denoted(CompatibleForm(q), local) <==>
                           local == [0, 0, 0, 0, 0, 0, q.a * 0x100 + q.b, q.c * 0x100 + q.d]
    {
      CompatibleFormGroups(q);
    }
    if CheckMixed(local) {
      var q := LastQuad(local);
      assert local == local[..5] + [local[5], q.a * 0x100 + q.b, q.c * 0x100 + q.d];
      assert Denoted(if local[5] == 0 then CompatibleForm(q) else MappedForm(q), local);
    }
  }

  predicate Denoted(f: Form, local: Raw) {
    Accepted(f) && Denote(f) == local
  }
}
