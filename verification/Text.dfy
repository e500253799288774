/** Searching, splitting and joining of character ranges, with the meaning of `std::string_view::contains`
    and `std::views::split`. */
module Text {

  predicate OccursAt(s: string, d: string, i: nat) {
    i + |d| <= |s| && s[i..i + |d|] == d
  }

  /** The first position at or after `i` where `d` occurs, or `|s|` when there is none. */
  function FindFrom(s: string, d: string, i: nat): (r: nat)
    requires d != "" && i <= |s|
    ensures i <= r <= |s|
    ensures r < |s| ==> OccursAt(s, d, r)
    ensures forall j :: i <= j < r ==> !OccursAt(s, d, j)
    ensures r == |s| ==> forall j :: i <= j ==> !OccursAt(s, d, j)
    decreases |s| - i
  {
    if |s| < i + |d| then |s|
    else if s[i..i + |d|] == d then i
    else FindFrom(s, d, i + 1)
  }

  predicate Contains(s: string, d: string)
    requires d != ""
  {
    FindFrom(s, d, 0) < |s|
  }

  lemma ContainsExact(s: string, d: string)
    requires d != ""
    ensures Contains(s, d) <==> exists i: nat :: OccursAt(s, d, i)
  {
    if Contains(s, d) {
      assert OccursAt(s, d, FindFrom(s, d, 0));
    }
  }

  /** Cuts `s` at every leftmost, non-overlapping occurrence of `d`; a trailing delimiter leaves an empty last piece. */
  function Cut(s: string, d: string): (parts: seq<string>)
    requires d != ""
    ensures |parts| > 0
    decreases |s|
  {
    var i := FindFrom(s, d, 0);
    if i == |s| then [s]
    else [s[..i]] + Cut(s[i + |d|..], d)
  }

  /** `s | std::views::split(d)`: splitting the empty range yields no pieces at all. */
  function Split(s: string, d: string): (parts: seq<string>)
    requires d != ""
  {
    if s == "" then [] else Cut(s, d)
  }

  function Join(parts: seq<string>, d: string): string {
    if |parts| == 0 then ""
    else if |parts| == 1 then parts[0]
    else parts[0] + d + Join(parts[1..], d)
  }

  /** Joining undoes cutting, for every text and every delimiter. */
  lemma {:induction false} JoinCut(s: string, d: string)
    requires d != ""
    ensures Join(Cut(s, d), d) == s
    decreases |s|
  {
    var i := FindFrom(s, d, 0);
    if i < |s| {
      var rest := s[i + |d|..];
      JoinCut(rest, d);
      var parts := Cut(s, d);
      assert parts == [s[..i]] + Cut(rest, d);
      assert parts[1..] == Cut(rest, d) && parts[0] == s[..i];
      assert s[i..i + |d|] == d;
      assert s == s[..i] + d + rest;
    }
  }

  /** The cut of `a + d + b` starts with `a` when `d` does not occur before position `|a|`. */
  lemma CutAtFirst(a: string, d: string, b: string)
    requires d != ""
    requires forall j :: 0 <= j < |a| ==> !OccursAt(a + d + b, d, j)
    ensures Cut(a + d + b, d) == [a] + Cut(b, d)
  {
    var s := a + d + b;
    assert s[|a|..|a| + |d|] == d;
    assert OccursAt(s, d, |a|);
    assert FindFrom(s, d, 0) == |a|;
    assert s[..|a|] == a && s[|a| + |d|..] == b;
  }

  lemma CutFree(s: string, d: string)
    requires d != "" && !Contains(s, d)
    ensures Cut(s, d) == [s]
  {
  }

  /** Every piece but the last ends where the delimiter first occurs, and the last one is free of it. */
  predicate Leftmost(parts: seq<string>, d: string)
    requires d != "" && |parts| > 0
  {
    if |parts| == 1 then !Contains(parts[0], d)
    else
      && (forall j :: 0 <= j < |parts[0]| ==> !OccursAt(parts[0] + d, d, j))
      && Leftmost(parts[1..], d)
  }

  /** What follows the delimiter does not matter for where it first occurs. */
  lemma OccursBefore(a: string, d: string, b: string, j: nat)
    requires j <= |a|
    ensures OccursAt(a + d + b, d, j) <==> OccursAt(a + d, d, j)
  {
    var e := j + |d|;
    assert (a + d + b)[j..e] == (a + d)[j..e];
  }

  /** `std::views::split`, exactly: the pieces are those that join to the text and end at the leftmost occurrences. */
  lemma {:induction false} CutExact(s: string, d: string, parts: seq<string>)
    requires d != ""
    ensures parts == Cut(s, d) <==> |parts| > 0 && Join(parts, d) == s && Leftmost(parts, d)
    decreases |parts|
  {
    if parts == Cut(s, d) {
      JoinCut(s, d);
      CutLeftmost(s, d);
    }
    if |parts| > 0 && Join(parts, d) == s && Leftmost(parts, d) {
      JoinLeftmost(parts, d);
    }
  }

  lemma {:induction false} CutLeftmost(s: string, d: string)
    requires d != ""
    ensures Leftmost(Cut(s, d), d)
    decreases |s|
  {
    var i := FindFrom(s, d, 0);
    if i < |s| {
      var a, b := s[..i], s[i + |d|..];
      assert s == a + d + b;
      CutLeftmost(b, d);
      assert Cut(s, d)[1..] == Cut(b, d);
      forall j | 0 <= j < |a| ensures !OccursAt(a + d, d, j) {
        OccursBefore(a, d, b, j);
      }
    }
  }

  lemma {:induction false} JoinLeftmost(parts: seq<string>, d: string)
    requires d != "" && |parts| > 0 && Leftmost(parts, d)
    ensures Cut(Join(parts, d), d) == parts
    decreases |parts|
  {
    hide OccursAt;
    if |parts| > 1 {
      var a, b := parts[0], Join(parts[1..], d);
      JoinLeftmost(parts[1..], d);
      forall j | 0 <= j < |a| ensures !OccursAt(a + d + b, d, j) {
        OccursBefore(a, d, b, j);
      }
      CutAtFirst(a, d, b);
    }
  }

  lemma ContainsChar(s: string, c: char)
    ensures Contains(s, [c]) <==> c in s
  {
    if c in s {
      var i :| 0 <= i < |s| && s[i] == c;
      assert s[i..i + 1] == [c];
      assert OccursAt(s, [c], i);
    }
    if Contains(s, [c]) {
      var i := FindFrom(s, [c], 0);
      assert s[i..i + 1][0] == c;
      assert s[i] == c;
    }
  }

  /** Cutting at a character undoes joining with it, when no piece contains the character. */
  lemma {:induction false} CutJoin(parts: seq<string>, c: char)
    requires |parts| > 0
    requires forall k :: 0 <= k < |parts| ==> c !in parts[k]
    ensures Cut(Join(parts, [c]), [c]) == parts
  {
    if |parts| == 1 {
      ContainsChar(parts[0], c);
    } else {
      var b := Join(parts[1..], [c]);
      CutJoin(parts[1..], c);
      CutAtChar(parts[0], c, b);
    }
  }

  lemma CutAtChar(a: string, c: char, b: string)
    requires c !in a
    ensures Cut(a + [c] + b, [c]) == [a] + Cut(b, [c])
  {
    var s := a + [c] + b;
    forall j | 0 <= j < |a| ensures !OccursAt(s, [c], j) {
      assert s[j..j + 1][0] == s[j] == a[j];
    }
    CutAtFirst(a, [c], b);
  }

  /** A character of a join is a separator character or belongs to a piece. */
  lemma {:induction false} JoinChars(parts: seq<string>, d: string, c: char)
    requires c in Join(parts, d)
    ensures c in d || exists k :: 0 <= k < |parts| && c in parts[k]
  {
    if |parts| > 1 && c !in parts[0] && c !in d {
      JoinChars(parts[1..], d, c);
      var k :| 0 <= k < |parts[1..]| && c in parts[1..][k];
      assert c in parts[k + 1];
    }
  }

  /** Appending pieces to a non-empty list of pieces appends their texts, each behind a separator. */
  lemma {:induction false} JoinAppend(a: seq<string>, b: seq<string>, d: string)
    requires |a| > 0 && |b| > 0
    ensures Join(a + b, d) == Join(a, d) + d + Join(b, d)
  {
    if |a| == 1 {
      assert (a + b)[1..] == b;
    } else {
      assert (a + b)[1..] == a[1..] + b;
      JoinAppend(a[1..], b, d);
    }
  }
}
