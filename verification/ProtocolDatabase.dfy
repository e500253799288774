/** `protocol_database`: a table indexed by protocol number, an index of names, and an iterator that skips the unused
    entries, all filled from the lines of the system's protocol list. */
module ProtocolDatabase {
  import opened Errors

  /** `socket_config::protocol_no_limit` and `unknown_protocol_no`. */
  const CAPACITY := 512
  const UNKNOWN_NO := -1

  datatype Entry = Entry(name: string, alias: seq<string>, no: int) {
    /** The conversion of an entry to `bool`. */
    predicate Known() {
      no != UNKNOWN_NO
    }
  }

  const UNKNOWN_PROTOCOL := Entry("unknown", ["Unknown", "UNKNOWN"], UNKNOWN_NO)

  /** What `getprotoent` returns for one line; either pointer may be null. */
  datatype Line = Line(name: Option<string>, aliases: Option<seq<string>>, no: int)

  // ----- the reference: a linear scan of the lines

  function NonEmpty(names: seq<string>): (r: seq<string>) {
    if names == [] then []
    else
      var init, last := NonEmpty(names[..|names| - 1]), names[|names| - 1];
      if last == "" then init else init + [last]
  }

  /** The entry that a line describes. */
  function EntryOf(line: Line): Entry {
    Entry(if line.name.Some? then line.name.value else "",
          if line.aliases.Some? then NonEmpty(line.aliases.value) else [],
          line.no)
  }

  /** `picked` lists the positions of the names that are not empty, each once and in order. */
  ghost predicate PicksNonEmpty(names: seq<string>, picked: seq<nat>) {
    && (forall k, l :: 0 <= k < l < |picked| ==> picked[k] < picked[l])
    && (forall k :: 0 <= k < |picked| ==> picked[k] < |names|)
    && (forall p: nat :: p in picked <==> p < |names| && names[p] != "")
  }

  /** An entry says of a line what it should: the number; the name, or an empty one if there is none; and of the aliases
      those that are not empty, in their order. */
  ghost predicate Describes(entry: Entry, line: Line) {
    && entry.no == line.no
    && (line.name.Some? ==> entry.name == line.name.value)
    && (line.name.None? ==> entry.name == "")
    && (line.aliases.None? ==> entry.alias == [])
    && (line.aliases.Some? ==>
          exists picked: seq<nat> ::
            && PicksNonEmpty(line.aliases.value, picked)
            && |entry.alias| == |picked|
            && forall k :: 0 <= k < |picked| ==> picked[k] < |line.aliases.value| &&
                                                 entry.alias[k] == line.aliases.value[picked[k]])
  }

  lemma {:induction false} NonEmptyPicked(names: seq<string>) returns (picked: seq<nat>)
    ensures PicksNonEmpty(names, picked) && |NonEmpty(names)| == |picked|
    ensures forall k :: 0 <= k < |picked| ==> picked[k] < |names| && NonEmpty(names)[k] == names[picked[k]]
  {
    hide PicksNonEmpty;
    if names == [] {
      picked := [];
      NothingToPick();
    } else {
      var n := |names| - 1;
      var init := names[..n];
      var some := NonEmptyPicked(init);
      PickMore(init, names[n], some);
      assert names == init + [names[n]];
      picked := if names[n] == "" then some else some + [n];
    }
  }

  lemma NothingToPick()
    ensures PicksNonEmpty([], [])
  {
  }

  lemma PickMore(init: seq<string>, last: string, some: seq<nat>)
    requires PicksNonEmpty(init, some)
    ensures PicksNonEmpty(init + [last], if last == "" then some else some + [|init|])
  {
    var names, n := init + [last], |init|;
    var picked := if last == "" then some else some + [n];
    forall p: nat ensures p in picked <==> p < |names| && names[p] != "" {
      assert p in some <==> p < n && init[p] != "";
      assert p < n ==> init[p] == names[p];
    }
  }

  /** The reference entry of a line is the one that describes it, and no other does. */
  lemma EntryOfExact(line: Line, entry: Entry)
    ensures Describes(entry, line) <==> entry == EntryOf(line)
  {
    hide NonEmpty, PicksNonEmpty;
    if line.aliases.Some? {
      var names := line.aliases.value;
      var picked := NonEmptyPicked(names);
      PickedInside(names, picked);
      assert Describes(EntryOf(line), line);
      if Describes(entry, line) {
        var other: seq<nat> :|
          && PicksNonEmpty(names, other) && |entry.alias| == |other|
          && forall k :: 0 <= k < |other| ==> other[k] < |names| && entry.alias[k] == names[other[k]];
        PickedOnce(names, picked, other);
        assert entry.alias == NonEmpty(names);
      }
    }
  }

  lemma PickedInside(names: seq<string>, picked: seq<nat>)
    requires PicksNonEmpty(names, picked)
    ensures forall k :: 0 <= k < |picked| ==> picked[k] < |names|
  {
  }

  lemma PickedOnce(names: seq<string>, a: seq<nat>, b: seq<nat>)
    requires PicksNonEmpty(names, a) && PicksNonEmpty(names, b)
    ensures a == b
  {
    IncreasingUnique(a, b);
  }

  /** An increasing sequence is determined by its members. */
  lemma {:induction false} IncreasingUnique(a: seq<nat>, b: seq<nat>)
    requires forall k, l :: 0 <= k < l < |a| ==> a[k] < a[l]
    requires forall k, l :: 0 <= k < l < |b| ==> b[k] < b[l]
    requires forall p: nat :: p in a <==> p in b
    ensures a == b
    decreases |a|
  {
    assert |a| > 0 ==> a[0] in a;
    assert |b| > 0 ==> b[0] in b;
    if a != [] && b != [] {
      var m, n := |a| - 1, |b| - 1;
      assert a[m] in b && b[n] in a;
      assert a[m] == b[n];
      var c, d := a[..m], b[..n];
      forall p: nat ensures p in c <==> p in d {
        if p in c {
          assert p in b && p != b[n];
        }
        if p in d {
          assert p in a && p != a[m];
        }
      }
      IncreasingUnique(c, d);
      assert a == c + [a[m]] && b == d + [b[n]];
    }
  }

  predicate Carries(line: Line, name: string) {
    name != "" && (line.name == Some(name) || (line.aliases.Some? && name in line.aliases.value))
  }

  /** No earlier line has the number of line `i`. */
  predicate FirstOfNumber(lines: seq<Line>, i: nat)
    requires i < |lines|
  {
    forall j :: 0 <= j < i ==> lines[j].no != lines[i].no
  }

  predicate InRange(line: Line) {
    0 <= line.no < CAPACITY
  }

  /** The position of the first line with a number, or the number of lines. */
  function ByNumber(lines: seq<Line>, no: int): (i: nat)
    ensures i <= |lines|
  {
    if lines == [] then 0
    else
      var n := |lines| - 1;
      var i := ByNumber(lines[..n], no);
      if i < n then i else if lines[n].no == no then n else |lines|
  }

  lemma {:induction false} ByNumberExact(lines: seq<Line>, no: int)
    ensures var i := ByNumber(lines, no);
            && (i < |lines| ==> lines[i].no == no)
            && forall j :: 0 <= j < i ==> lines[j].no != no
  {
    if lines != [] {
      var n := |lines| - 1;
      var init := lines[..n];
      ByNumberExact(init, no);
      assert forall j :: 0 <= j < n ==> init[j] == lines[j];
    }
  }

  lemma ByNumberAppend(lines: seq<Line>, line: Line, no: int)
    ensures ByNumber(lines + [line], no) ==
            if ByNumber(lines, no) < |lines| then ByNumber(lines, no)
            else if line.no == no then |lines| else |lines| + 1
  {
    assert (lines + [line])[..|lines|] == lines;
  }

  /** The position of the earliest line that carries a name, among the lines whose number had not appeared before; or
      the number of lines. */
  function ByName(lines: seq<Line>, name: string): (i: nat)
    ensures i <= |lines|
  {
    if lines == [] then 0
    else
      var n := |lines| - 1;
      var i := ByName(lines[..n], name);
      if i < n then i else if FirstOfNumber(lines, n) && Carries(lines[n], name) then n else |lines|
  }

  /** The scan finds the earliest such line, if there is one. */
  lemma {:induction false} ByNameExact(lines: seq<Line>, name: string)
    ensures var i := ByName(lines, name);
            && (i < |lines| ==> FirstOfNumber(lines, i) && Carries(lines[i], name))
            && forall j :: 0 <= j < i && FirstOfNumber(lines, j) ==> !Carries(lines[j], name)
  {
    hide Carries, FirstOfNumber;
    if lines != [] {
      var n := |lines| - 1;
      var init := lines[..n];
      ByNameExact(init, name);
      forall j | 0 <= j < n ensures init[j] == lines[j] && FirstOfNumber(init, j) == FirstOfNumber(lines, j) {
        FirstOfPrefix(lines, n, j);
      }
    }
  }

  lemma FirstOfPrefix(lines: seq<Line>, n: nat, j: nat)
    requires j < n <= |lines|
    ensures FirstOfNumber(lines[..n], j) == FirstOfNumber(lines, j)
  {
    assert forall k :: 0 <= k < n ==> lines[..n][k] == lines[k];
  }

  lemma ByNameAppend(lines: seq<Line>, line: Line, name: string)
    ensures ByName(lines + [line], name) ==
            if ByName(lines, name) < |lines| then ByName(lines, name)
            else if FirstOfNumber(lines + [line], |lines|) && Carries(line, name) then |lines| else |lines| + 1
  {
    hide Carries, FirstOfNumber;
    assert (lines + [line])[..|lines|] == lines;
  }

  function Numbers(lines: seq<Line>): (r: set<int>) {
    set line | line in lines :: line.no
  }

  /** What the number lookup should give. */
  function Expected(lines: seq<Line>, no: int): Entry {
    var i := ByNumber(lines, no);
    if i < |lines| then EntryOf(lines[i]) else UNKNOWN_PROTOCOL
  }

  lemma ExpectedDescribes(lines: seq<Line>, no: int)
    ensures var i := ByNumber(lines, no);
            i < |lines| ==> Describes(Expected(lines, no), lines[i])
  {
    var i := ByNumber(lines, no);
    if i < |lines| {
      EntryOfExact(lines[i], EntryOf(lines[i]));
    }
  }

  lemma FoundDescribes(lines: seq<Line>, name: string)
    ensures var i := ByName(lines, name);
            i < |lines| ==> Describes(EntryOf(lines[i]), lines[i])
  {
    var i := ByName(lines, name);
    if i < |lines| {
      EntryOfExact(lines[i], EntryOf(lines[i]));
    }
  }

  // ----- the index

  /** `try_emplace`: an existing key keeps its value. */
  function TryEmplace(index: map<string, nat>, name: string, no: nat): map<string, nat> {
    if name in index then index else index[name := no]
  }

  function EmplaceAll(index: map<string, nat>, names: seq<string>, no: nat): map<string, nat> {
    if names == [] then index
    else TryEmplace(EmplaceAll(index, names[..|names| - 1], no), names[|names| - 1], no)
  }

  lemma {:induction false} EmplaceAllLookup(index: map<string, nat>, names: seq<string>, no: nat, name: string)
    ensures var r := EmplaceAll(index, names, no);
            && (name in r <==> name in index || name in names)
            && (name in r ==> r[name] == if name in index then index[name] else no)
  {
    if names != [] {
      EmplaceAllLookup(index, names[..|names| - 1], no, name);
    }
  }

  lemma {:induction false} NonEmptyMembers(names: seq<string>, name: string)
    ensures name in NonEmpty(names) <==> name != "" && name in names
  {
    if names != [] {
      NonEmptyMembers(names[..|names| - 1], name);
    }
  }

  /** The names under which a line is entered into the index. */
  function NamesOf(line: Line): seq<string> {
    var entry := EntryOf(line);
    (if entry.name == "" then [] else [entry.name]) + entry.alias
  }

  lemma NamesOfExact(line: Line, name: string)
    ensures name in NamesOf(line) <==> Carries(line, name)
  {
    if line.aliases.Some? {
      NonEmptyMembers(line.aliases.value, name);
    }
  }

  // ----- the database

  class Database {
    var db: seq<Entry>
    var nameIndex: map<string, nat>
    var total: nat
    ghost var lines: seq<Line>

    /** The fields agree with a linear scan of the lines read so far. */
    ghost predicate Valid()
      reads this
    {
      && |db| == CAPACITY
      && (forall line :: line in lines ==> InRange(line))
      && (forall no :: 0 <= no < CAPACITY ==> db[no] == Expected(lines, no))
      && (forall name :: name in nameIndex <==> ByName(lines, name) < |lines|)
      && (forall name :: name in nameIndex ==> nameIndex[name] == lines[ByName(lines, name)].no)
      && total == |Numbers(lines)|
    }

    /** The default values of the fields. */
    constructor ()
      ensures Valid() && lines == []
    {
      db := seq(CAPACITY, _ => UNKNOWN_PROTOCOL);
      nameIndex := map[];
      total := 0;
      lines := [];
      new;
      assert Numbers([]) == {};
    }

    /** The body of the constructor: reads every line. A number outside the table is an exception. */
    method Load(input: seq<Line>) returns (ok: bool)
      requires Valid() && lines == []
      modifies this
      ensures ok <==> forall line :: line in input ==> 0 <= line.no < 512
      ensures ok ==> Valid() && lines == input
    {
      hide ByName, ByNumber, Carries, EntryOf, Numbers;
      for k := 0 to |input|
        invariant Valid() && lines == input[..k]
        invariant forall j :: 0 <= j < k ==> InRange(input[j])
      {
        var rawEntry := input[k];
        var no := rawEntry.no;
        if no < 0 || no >= CAPACITY {
          assert rawEntry in input;
          return false;
        }
        assert input[..k + 1] == input[..k] + [rawEntry];
        KnownNumbers(lines, no);
        if db[no].no != UNKNOWN_NO {
          Skip(rawEntry);
          continue;
        }
        ReadLine(rawEntry);
      }
      assert input[..|input|] == input;
      ok := true;
    }

    /** A line whose number is taken leaves the fields alone. */
    ghost method Skip(rawEntry: Line)
      requires Valid() && InRange(rawEntry) && ByNumber(lines, rawEntry.no) < |lines|
      modifies this`lines
      ensures Valid() && lines == old(lines) + [rawEntry]
    {
      hide ByName, ByNumber, Carries, EntryOf, Numbers, Expected;
      SkipLine(lines, rawEntry);
      lines := lines + [rawEntry];
    }

    /** The fields of an unused entry, from a line. */
    method FillEntry(rawEntry: Line) returns (entry: Entry)
      ensures entry == EntryOf(rawEntry) && Describes(entry, rawEntry)
    {
      hide Describes;
      EntryOfExact(rawEntry, EntryOf(rawEntry));
      entry := Entry("", [], rawEntry.no);
      if rawEntry.name.Some? && rawEntry.name.value != "" {
        entry := entry.(name := rawEntry.name.value);
      }
      if rawEntry.aliases.Some? {
        var aliases := rawEntry.aliases.value;
        assert aliases[..0] == [];
        for j := 0 to |aliases|
          invariant entry == Entry(EntryOf(rawEntry).name, NonEmpty(aliases[..j]), rawEntry.no)
        {
          assert aliases[..j + 1][..j] == aliases[..j];
          if aliases[j] != "" {
            entry := entry.(alias := entry.alias + [aliases[j]]);
          }
        }
        assert aliases[..|aliases|] == aliases;
      }
    }

    /** Enters the name and the aliases of an entry into the index; names already present keep their number. */
    method IndexEntry(entry: Entry, ghost line: Line)
      requires entry == EntryOf(line) && entry.no >= 0
      modifies this`nameIndex
      ensures forall name :: name in nameIndex <==> name in old(nameIndex) || Carries(line, name)
      ensures forall name :: name in nameIndex ==>
                               nameIndex[name] == if name in old(nameIndex) then old(nameIndex)[name] else entry.no
    {
      if entry.name != "" {
        nameIndex := TryEmplace(nameIndex, entry.name, entry.no);
      }
      ghost var named := nameIndex;
      assert entry.alias[..0] == [];
      for j := 0 to |entry.alias|
        invariant nameIndex == EmplaceAll(named, entry.alias[..j], entry.no)
      {
        assert entry.alias[..j + 1][..j] == entry.alias[..j];
        nameIndex := TryEmplace(nameIndex, entry.alias[j], entry.no);
      }
      assert entry.alias[..|entry.alias|] == entry.alias;
      forall name ensures (name in nameIndex <==> name in old(nameIndex) || Carries(line, name))
                      && (name in nameIndex ==>
                            nameIndex[name] == if name in old(nameIndex) then old(nameIndex)[name] else entry.no)
      {
        EmplaceAllLookup(named, entry.alias, entry.no, name);
        NamesOfExact(line, name);
      }
    }

    /** The part of the loop that takes an unused entry. */
    method ReadLine(rawEntry: Line)
      requires Valid() && InRange(rawEntry) && ByNumber(lines, rawEntry.no) == |lines|
      modifies this
      ensures Valid() && lines == old(lines) + [rawEntry]
    {
      hide ByName, ByNumber, Carries, EntryOf, Numbers, Expected;
      total := total + 1;
      var entry := FillEntry(rawEntry);
      assert entry.no == rawEntry.no by {
        EntryNumber(rawEntry);
      }
      db := db[rawEntry.no := entry];
      IndexEntry(entry, rawEntry);
      TakeLine(lines, rawEntry);
      lines := lines + [rawEntry];
    }

    /** `get(name)`: the entry of the earliest line that carries the name, among the lines whose number had not
        appeared before; the unknown entry when there is none. */
    function Get(name: string): (entry: Entry)
      requires Valid()
      reads this
      ensures var i := ByName(lines, name);
              if i < |lines| then Describes(entry, lines[i]) else entry == Entry("unknown", ["Unknown", "UNKNOWN"], -1)
      ensures entry.Known() <==> Contains(name)
    {
      FoundByNumber(lines, name);
      FoundDescribes(lines, name);
      if name in nameIndex then db[nameIndex[name]] else UNKNOWN_PROTOCOL
    }

    predicate Contains(name: string)
      reads this
    {
      name in nameIndex
    }

    /** `get(protocol)`, for any number. */
    function GetNumber(no: int): (entry: Entry)
      requires Valid()
      reads this
      ensures entry == Expected(lines, no)
      ensures var i := ByNumber(lines, no);
              if i < |lines| then Describes(entry, lines[i]) else entry == Entry("unknown", ["Unknown", "UNKNOWN"], -1)
      ensures entry.Known() <==> no in Numbers(lines)
    {
      KnownNumbers(lines, no);
      ExpectedDescribes(lines, no);
      if 0 <= no < CAPACITY then db[no] else UNKNOWN_PROTOCOL
    }

    function Size(): nat
      reads this
    {
      total
    }
  }

  lemma EntryNumber(line: Line)
    ensures EntryOf(line).no == line.no
  {
  }

  /** A name found in the lines leads to a line that the number lookup finds as well. */
  lemma FoundByNumber(lines: seq<Line>, name: string)
    requires forall line :: line in lines ==> InRange(line)
    ensures var i := ByName(lines, name);
            i < |lines| ==> ByNumber(lines, lines[i].no) == i && InRange(lines[i])
  {
    var i := ByName(lines, name);
    ByNameExact(lines, name);
    if i < |lines| {
      ByNumberExact(lines, lines[i].no);
      assert lines[i] in lines;
    }
  }

  lemma KnownNumbers(lines: seq<Line>, no: int)
    requires forall line :: line in lines ==> InRange(line)
    ensures Expected(lines, no).Known() <==> no in Numbers(lines)
    ensures Expected(lines, no).Known() <==> ByNumber(lines, no) < |lines|
    ensures Expected(lines, no).Known() ==> Expected(lines, no).no == no
    ensures no in Numbers(lines) ==> 0 <= no < CAPACITY
  {
    var i := ByNumber(lines, no);
    ByNumberExact(lines, no);
    if i < |lines| {
      assert lines[i] in lines;
    }
    if no in Numbers(lines) {
      var line :| line in lines && line.no == no;
      var j :| 0 <= j < |lines| && lines[j] == line;
    }
  }

  /** A line adds to the scan only if its number is new. */
  lemma NewNumber(lines: seq<Line>, line: Line)
    ensures FirstOfNumber(lines + [line], |lines|) <==> ByNumber(lines, line.no) == |lines|
    ensures ByNumber(lines, line.no) == |lines| <==> line.no !in Numbers(lines)
  {
    ByNumberExact(lines, line.no);
    var i := ByNumber(lines, line.no);
    var more := lines + [line];
    assert forall j :: 0 <= j < |lines| ==> more[j] == lines[j];
    if i < |lines| {
      assert lines[i] in lines && more[i].no == line.no;
    }
  }

  lemma NumbersAppend(lines: seq<Line>, line: Line)
    ensures Numbers(lines + [line]) == Numbers(lines) + {line.no}
  {
    forall no ensures no in Numbers(lines + [line]) <==> no in Numbers(lines) || no == line.no {
      if no in Numbers(lines) {
        var l :| l in lines && l.no == no;
        assert l in lines + [line];
      }
      assert line in lines + [line];
    }
  }

  /** A line whose number is known changes nothing. */
  lemma SkipLine(lines: seq<Line>, line: Line)
    requires ByNumber(lines, line.no) < |lines|
    ensures forall no :: Expected(lines + [line], no) == Expected(lines, no)
    ensures forall name :: ByName(lines + [line], name) ==
                           if ByName(lines, name) < |lines| then ByName(lines, name) else |lines| + 1
    ensures Numbers(lines + [line]) == Numbers(lines)
  {
    hide ByName, ByNumber, Carries, FirstOfNumber, EntryOf, Numbers;
    NewNumber(lines, line);
    NumbersAppend(lines, line);
    forall no ensures Expected(lines + [line], no) == Expected(lines, no) {
      ByNumberAppend(lines, line, no);
    }
    forall name ensures ByName(lines + [line], name) ==
                        if ByName(lines, name) < |lines| then ByName(lines, name) else |lines| + 1
    {
      ByNameAppend(lines, line, name);
    }
  }

  /** A line with a new number adds its entry, its names, and one to the size. */
  lemma TakeLine(lines: seq<Line>, line: Line)
    requires ByNumber(lines, line.no) == |lines|
    ensures forall no :: Expected(lines + [line], no) == if no == line.no then EntryOf(line) else Expected(lines, no)
    ensures forall name :: ByName(lines + [line], name) ==
                           if ByName(lines, name) < |lines| then ByName(lines, name)
                           else if Carries(line, name) then |lines| else |lines| + 1
    ensures |Numbers(lines + [line])| == |Numbers(lines)| + 1
  {
    hide ByName, ByNumber, Carries, FirstOfNumber, EntryOf, Numbers;
    NewNumber(lines, line);
    NumbersAppend(lines, line);
    forall no ensures Expected(lines + [line], no) == if no == line.no then EntryOf(line) else Expected(lines, no) {
      ByNumberAppend(lines, line, no);
    }
    forall name ensures ByName(lines + [line], name) ==
                        if ByName(lines, name) < |lines| then ByName(lines, name)
                        else if Carries(line, name) then |lines| else |lines| + 1
    {
      ByNameAppend(lines, line, name);
    }
  }

  /** The index and the table agree: a name found leads to an entry that has it as its name or as an alias, and every
      such name of every known entry is found. */
  lemma NamesFound(database: Database, name: string, no: int)
    requires database.Valid()
    ensures var entry := database.Get(name);
            database.Contains(name) ==> name != "" && (entry.name == name || name in entry.alias)
    ensures var entry := database.GetNumber(no);
            entry.Known() && name != "" && (entry.name == name || name in entry.alias) ==> database.Contains(name)
  {
    hide ByName, ByNumber, EntryOf, Describes, Carries, FirstOfNumber;
    var lines := database.lines;
    ByNameExact(lines, name);
    var i := ByName(lines, name);
    FoundByNumber(lines, name);
    if i < |lines| {
      NamesOfExact(lines[i], name);
      NamesOfEntry(lines[i], name);
      EntryOfExact(lines[i], database.Get(name));
    }
    var j := ByNumber(lines, no);
    KnownNumbers(lines, no);
    if j < |lines| {
      ByNumberExact(lines, no);
      NamesOfExact(lines[j], name);
      NamesOfEntry(lines[j], name);
      EarliestIsFirst(lines, j);
    }
  }

  lemma NamesOfEntry(line: Line, name: string)
    ensures name in NamesOf(line) <==> name != "" && (EntryOf(line).name == name || name in EntryOf(line).alias)
  {
    if line.aliases.Some? {
      NonEmptyMembers(line.aliases.value, name);
    }
  }

  lemma EarliestIsFirst(lines: seq<Line>, j: nat)
    requires j < |lines| && forall k :: 0 <= k < j ==> lines[k].no != lines[j].no
    ensures FirstOfNumber(lines, j)
  {
  }

  // ----- iteration

  /** The first known entry at or behind `i`, or the end of the table. */
  function NextKnown(db: seq<Entry>, i: nat): (j: nat)
    requires i <= |db|
    ensures i <= j <= |db|
    ensures j < |db| ==> db[j].Known()
    ensures forall k :: i <= k < j ==> !db[k].Known()
    decreases |db| - i
  {
    if i < |db| && !db[i].Known() then NextKnown(db, i + 1) else i
  }

  class Iterator {
    const db: seq<Entry>
    var iter: nat

    /** `begin`. */
    constructor (db: seq<Entry>)
      ensures this.db == db && iter == NextKnown(db, 0)
    {
      this.db := db;
      iter := 0;
      new;
      while iter != |db| && !db[iter].Known()
        invariant iter <= |db| && NextKnown(db, iter) == NextKnown(db, 0)
      {
        iter := iter + 1;
      }
    }

    /** Pre-increment. */
    method Next()
      requires iter < |db|
      modifies this
      ensures iter == NextKnown(db, old(iter) + 1)
    {
      iter := iter + 1;
      while iter != |db| && !db[iter].Known()
        invariant iter <= |db| && NextKnown(db, iter) == NextKnown(db, old(iter) + 1)
      {
        iter := iter + 1;
      }
    }

    /** Post-increment moves by one entry, known or not. */
    method PostIncrement() returns (before: nat)
      requires iter < |db|
      modifies this
      ensures before == old(iter) && iter == old(iter) + 1
      ensures iter == NextKnown(db, old(iter) + 1) <==> iter == |db| || db[iter].Known()
    {
      before := iter;
      iter := iter + 1;
    }
  }

  /** The positions that pre-increment visits from `i` on. */
  function Visits(db: seq<Entry>, i: nat): (v: seq<nat>)
    requires i <= |db|
    decreases |db| - i
  {
    if i == |db| then [] else [i] + Visits(db, NextKnown(db, i + 1))
  }

  function KnownSet(db: seq<Entry>, i: nat): set<nat>
    requires i <= |db|
  {
    set k | i <= k < |db| && db[k].Known()
  }

  lemma KnownSetStep(db: seq<Entry>, i: nat)
    requires i < |db| && db[i].Known()
    ensures KnownSet(db, i) == {i} + KnownSet(db, NextKnown(db, i + 1))
    ensures i !in KnownSet(db, NextKnown(db, i + 1))
  {
  }

  ghost predicate Increasing(v: seq<nat>) {
    forall k, l :: 0 <= k < l < |v| ==> v[k] < v[l]
  }

  /** From a known entry on, pre-increment visits the known entries in increasing order, each once, and no other. */
  lemma {:induction false} VisitsExact(db: seq<Entry>, i: nat)
    requires i <= |db| && (i < |db| ==> db[i].Known())
    ensures var v := Visits(db, i);
            && Increasing(v)
            && (forall n :: n in v <==> n in KnownSet(db, i))
            && |v| == |KnownSet(db, i)|
    decreases |db| - i
  {
    hide KnownSet;
    if i < |db| {
      var j := NextKnown(db, i + 1);
      VisitsExact(db, j);
      KnownSetStep(db, i);
      VisitsStep(db, i, Visits(db, j));
    } else {
      EmptyKnownSet(db);
    }
  }

  lemma EmptyKnownSet(db: seq<Entry>)
    ensures KnownSet(db, |db|) == {}
  {
  }

  lemma VisitsStep(db: seq<Entry>, i: nat, w: seq<nat>)
    requires i < |db| && Increasing(w)
    requires forall n :: n in w <==> n in KnownSet(db, NextKnown(db, i + 1))
    ensures Increasing([i] + w)
  {
    forall k | 0 <= k < |w| ensures i < w[k] {
      assert w[k] in w;
    }
  }

  /** A loop from `begin` to the end. */
  method Collect(db: seq<Entry>) returns (seen: seq<Entry>)
    ensures Entries(db, Visits(db, NextKnown(db, 0)), seen)
  {
    hide NextKnown;
    var it := new Iterator(db);
    seen := [];
    ghost var visited := [];
    while it.iter != |db|
      invariant it.iter <= |db| && it.db == db
      invariant visited + Visits(db, it.iter) == Visits(db, NextKnown(db, 0))
      invariant Entries(db, visited, seen)
      decreases |db| - it.iter
    {
      seen := seen + [db[it.iter]];
      visited := visited + [it.iter];
      it.Next();
    }
    assert visited + [] == visited;
  }

  /** Iterating over a loaded database takes exactly `size()` steps and sees every known entry once, in the order of the
      numbers, and no other. */
  method Traverse(database: Database) returns (seen: seq<Entry>)
    requires database.Valid()
    ensures |seen| == database.Size()
    ensures forall k, l :: 0 <= k < l < |seen| ==> seen[k].no < seen[l].no
    ensures forall entry :: entry in seen <==> entry.Known() && entry == database.GetNumber(entry.no)
  {
    hide ByName, ByNumber, Numbers, Expected, KnownSet, Increasing, Visits, NextKnown;
    var db := database.db;
    seen := Collect(db);
    ghost var visited := Visits(db, NextKnown(db, 0));
    VisitsExact(db, NextKnown(db, 0));
    KnownFromStart(database);
    SeenExact(database, visited, seen);
  }

  /** `seen` holds the entries at the positions `visited`. */
  ghost predicate Entries(db: seq<Entry>, visited: seq<nat>, seen: seq<Entry>) {
    |seen| == |visited| && forall k :: 0 <= k < |seen| ==> visited[k] < |db| && seen[k] == db[visited[k]]
  }

  lemma SeenExact(database: Database, visited: seq<nat>, seen: seq<Entry>)
    requires database.Valid() && Entries(database.db, visited, seen) && Increasing(visited)
    requires forall n :: n in visited <==> n in Numbers(database.lines)
    requires forall no :: 0 <= no < CAPACITY && database.db[no].Known() ==> database.db[no].no == no
    ensures forall k, l :: 0 <= k < l < |seen| ==> seen[k].no < seen[l].no
    ensures forall entry :: entry in seen <==> entry.Known() && entry == database.GetNumber(entry.no)
  {
    hide ByName, ByNumber, Numbers, Expected;
    var db, lines := database.db, database.lines;
    forall k | 0 <= k < |seen| ensures seen[k].Known() && seen[k].no == visited[k] {
      assert visited[k] in visited;
      KnownNumbers(lines, visited[k]);
    }
    forall entry ensures entry in seen <==> entry.Known() && entry == database.GetNumber(entry.no) {
      if entry in seen {
        var k :| 0 <= k < |seen| && seen[k] == entry;
        assert entry == db[visited[k]];
      }
      if entry.Known() && entry == database.GetNumber(entry.no) {
        KnownNumbers(lines, entry.no);
        assert entry.no in visited;
        var k :| 0 <= k < |visited| && visited[k] == entry.no;
        assert seen[k] == entry;
      }
    }
  }

  /** The known entries of a loaded table are those of the numbers in the lines. */
  lemma KnownFromStart(database: Database)
    requires database.Valid()
    ensures KnownSet(database.db, NextKnown(database.db, 0)) == Numbers(database.lines)
    ensures forall no :: 0 <= no < CAPACITY && database.db[no].Known() ==> database.db[no].no == no
  {
    hide ByName, ByNumber, Numbers;
    var db, lines := database.db, database.lines;
    forall no ensures no in KnownSet(db, NextKnown(db, 0)) <==> no in Numbers(lines) {
      KnownNumbers(lines, no);
    }
    forall no | 0 <= no < CAPACITY && db[no].Known() ensures db[no].no == no {
      KnownNumbers(lines, no);
    }
  }

  /** Two lines, with the numbers 0 and 2. */
  const GAP: seq<Line> := [Line(Some("ip"), None, 0), Line(Some("igmp"), None, 2)]

  lemma GapEntries()
    ensures ByNumber(GAP, 0) == 0 && ByNumber(GAP, 1) == 2 && ByNumber(GAP, 2) == 1
  {
    assert GAP[..1] == [GAP[0]] && GAP[..1][..0] == [];
    assert ByNumber([], 0) == ByNumber([], 1) == ByNumber([], 2) == 0;
    assert ByNumber(GAP[..1], 0) == 0 && ByNumber(GAP[..1], 1) == 1 && ByNumber(GAP[..1], 2) == 1;
  }

  /** At a real input: in a database loaded from lines numbered 0 and 2, post-increment from the first entry stops at
      the unknown entry 1, and pre-increment at entry 2. */
  method PostIncrementExample() returns (post: Entry, pre: Entry)
    ensures post == UNKNOWN_PROTOCOL
    ensures pre == EntryOf(GAP[1])
  {
    var database := new Database();
    var ok := database.Load(GAP);
    assert ok;
    ghost var db := database.db;
    GapEntries();
    assert db[0] == EntryOf(GAP[0]) && db[1] == UNKNOWN_PROTOCOL && db[2] == EntryOf(GAP[1]);
    assert NextKnown(db, 0) == 0 && NextKnown(db, 1) == NextKnown(db, 2) == 2;
    var it := new Iterator(database.db);
    var jt := new Iterator(database.db);
    var before := it.PostIncrement();
    post := database.db[it.iter];
    jt.Next();
    pre := database.db[jt.iter];
  }
}
