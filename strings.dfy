/** The Python string operations the catalogue relies on: `str.strip()`,
    `str.lower()`, `str.endswith`, the `<` ordering of strings and
    `os.path.splitext` on a bare file name. */
module Strings {

  /** The characters for which Python's `str.isspace()` holds. */
  const Whitespace: set<char> := {
    '\U{0009}', '\U{000A}', '\U{000B}', '\U{000C}', '\U{000D}', '\U{001C}', '\U{001D}', '\U{001E}',
    '\U{001F}', '\U{0020}', '\U{0085}', '\U{00A0}', '\U{1680}', '\U{2000}', '\U{2001}', '\U{2002}',
    '\U{2003}', '\U{2004}', '\U{2005}', '\U{2006}', '\U{2007}', '\U{2008}', '\U{2009}', '\U{200A}',
    '\U{2028}', '\U{2029}', '\U{202F}', '\U{205F}', '\U{3000}'
  }

  predicate IsSpace(c: char) {
    c in Whitespace
  }

  predicate AllSpace(s: string) {
    forall i :: 0 <= i < |s| ==> IsSpace(s[i])
  }

  /** Neither the first nor the last character is whitespace. */
  predicate NoEdgeSpace(s: string) {
    |s| == 0 || (!IsSpace(s[0]) && !IsSpace(s[|s| - 1]))
  }

  /** How many whitespace characters `s` starts with. */
  function LeadingSpaces(s: string): (n: nat)
    ensures n <= |s|
    decreases |s|
  {
    if |s| > 0 && IsSpace(s[0]) then 1 + LeadingSpaces(s[1..]) else 0
  }

  /** How many whitespace characters `s` ends with. */
  function TrailingSpaces(s: string): (n: nat)
    ensures n <= |s|
    decreases |s|
  {
    if |s| > 0 && IsSpace(s[|s| - 1]) then 1 + TrailingSpaces(s[..|s| - 1]) else 0
  }

  lemma AllSpaceCons(c: char, s: string)
    ensures AllSpace([c] + s) <==> IsSpace(c) && AllSpace(s)
  {
    assert ([c] + s)[0] == c;
    assert forall i :: 0 <= i < |s| ==> ([c] + s)[i + 1] == s[i];
  }

  lemma AllSpaceAppend(a: string, b: string)
    ensures AllSpace(a + b) <==> AllSpace(a) && AllSpace(b)
  {
    assert forall i :: 0 <= i < |a| ==> (a + b)[i] == a[i];
    assert forall i :: 0 <= i < |b| ==> (a + b)[|a| + i] == b[i];
  }

  lemma {:induction false} LeadingSpacesSpec(s: string)
    ensures var n := LeadingSpaces(s);
      AllSpace(s[..n]) && (n < |s| ==> !IsSpace(s[n]))
    decreases |s|
  {
    if |s| > 0 && IsSpace(s[0]) {
      var tail := s[1..];
      LeadingSpacesSpec(tail);
      var m := LeadingSpaces(tail);
      assert LeadingSpaces(s) == m + 1;
      assert s[..m + 1] == [s[0]] + tail[..m];
      AllSpaceCons(s[0], tail[..m]);
      if m + 1 < |s| {
        assert s[m + 1] == tail[m];
      }
    }
  }

  lemma {:induction false} TrailingSpacesSpec(s: string)
    ensures var n := TrailingSpaces(s);
      AllSpace(s[|s| - n..]) && (n < |s| ==> !IsSpace(s[|s| - n - 1]))
    decreases |s|
  {
    if |s| > 0 && IsSpace(s[|s| - 1]) {
      var init := s[..|s| - 1];
      TrailingSpacesSpec(init);
      var m := TrailingSpaces(init);
      assert TrailingSpaces(s) == m + 1;
      assert s[|s| - (m + 1)..] == init[|init| - m..] + [s[|s| - 1]];
      AllSpaceAppend(init[|init| - m..], [s[|s| - 1]]);
      if m + 1 < |s| {
        assert s[|s| - (m + 1) - 1] == init[|init| - m - 1];
      }
    }
  }

  /** Python's `s.strip()`: `s` without the whitespace at either end. */
  function Strip(s: string): (r: string)
    ensures NoEdgeSpace(r)
  {
    var lead := LeadingSpaces(s);
    var rest := s[lead..];
    var r := rest[..|rest| - TrailingSpaces(rest)];
    StripEdges(s, lead, rest, r);
    r
  }

  lemma StripEdges(s: string, lead: nat, rest: string, r: string)
    requires lead == LeadingSpaces(s) && rest == s[lead..]
    requires r == rest[..|rest| - TrailingSpaces(rest)]
    ensures NoEdgeSpace(r)
  {
    LeadingSpacesSpec(s);
    TrailingSpacesSpec(rest);
    if |r| > 0 {
      assert r[0] == s[lead];
      assert r[|r| - 1] == rest[|rest| - TrailingSpaces(rest) - 1];
    }
  }

  /** The stripped text is the infix of `s` that starts after its leading
      whitespace and is followed by nothing but whitespace. */
  lemma StripInfix(s: string)
    ensures var lead := LeadingSpaces(s);
      && lead + |Strip(s)| <= |s| && Strip(s) == s[lead..lead + |Strip(s)|]
      && AllSpace(s[lead + |Strip(s)|..])
  {
    var lead := LeadingSpaces(s);
    var rest := s[lead..];
    var t := TrailingSpaces(rest);
    var r := rest[..|rest| - t];
    assert Strip(s) == r;
    assert r == s[lead..lead + |r|];
    var after := s[lead + |r|..];
    assert after == rest[|rest| - t..];
    TrailingSpacesSpec(rest);
  }

  /** Stripping leaves nothing exactly when `s` is all whitespace. */
  lemma StripEmpty(s: string)
    ensures Strip(s) == [] <==> AllSpace(s)
  {
    var lead := LeadingSpaces(s);
    var rest := s[lead..];
    var t := TrailingSpaces(rest);
    LeadingSpacesSpec(s);
    TrailingSpacesSpec(rest);
    assert Strip(s) == rest[..|rest| - t];
    if Strip(s) == [] {
      assert rest[|rest| - t..] == rest;
      assert s == s[..lead] + rest;
      AllSpaceAppend(s[..lead], rest);
    } else {
      assert Strip(s)[0] == s[lead];
    }
  }

  /** Stripping a string that has no whitespace at its ends changes nothing;
      in particular `Strip` is idempotent. */
  lemma StripFixed(s: string)
    requires NoEdgeSpace(s)
    ensures Strip(s) == s
  {
  }

  lemma StripIdempotent(s: string)
    ensures Strip(Strip(s)) == Strip(s)
  {
    StripFixed(Strip(s));
  }

  /** Python's `str.lower()` on one character, for the ASCII letters. */
  function LowerChar(c: char): char {
    if 'A' <= c <= 'Z' then (c as int + 32) as char else c
  }

  /** Python's `str.lower()`, character by character. */
  function Lower(s: string): string {
    seq(|s|, i requires 0 <= i < |s| => LowerChar(s[i]))
  }

  /** `name.lower().endswith(".json")`. */
  predicate IsJsonName(name: string) {
    |name| >= 5 && Lower(name)[|name| - 5..] == ".json"
  }

  /** Python's `a <= b` on strings: lexicographic order of code points. */
  predicate LexLe(a: string, b: string)
    decreases |a|
  {
    |a| == 0 || (|b| > 0 && (a[0] < b[0] || (a[0] == b[0] && LexLe(a[1..], b[1..]))))
  }

  lemma {:induction false} LexLeTotal(a: string, b: string)
    ensures LexLe(a, b) || LexLe(b, a)
    decreases |a|
  {
    if |a| > 0 && |b| > 0 && a[0] == b[0] {
      LexLeTotal(a[1..], b[1..]);
    }
  }

  lemma {:induction false} LexLeReflexive(a: string)
    ensures LexLe(a, a)
    decreases |a|
  {
    if |a| > 0 {
      LexLeReflexive(a[1..]);
    }
  }

  lemma {:induction false} LexLeTransitive(a: string, b: string, c: string)
    requires LexLe(a, b) && LexLe(b, c)
    ensures LexLe(a, c)
    decreases |a|
  {
    if |a| > 0 && a[0] == b[0] && b[0] == c[0] {
      LexLeTransitive(a[1..], b[1..], c[1..]);
    }
  }

  predicate AllDots(s: string) {
    forall i :: 0 <= i < |s| ==> s[i] == '.'
  }

  /** Index of the last occurrence of `c` in `s`, or -1. */
  function LastIndexOf(s: string, c: char): (k: int)
    ensures -1 <= k < |s|
    ensures k >= 0 ==> s[k] == c
    ensures forall i :: k < i < |s| ==> s[i] != c
    decreases |s|
  {
    if |s| == 0 then -1
    else if s[|s| - 1] == c then |s| - 1
    else LastIndexOf(s[..|s| - 1], c)
  }

  /** `os.path.splitext(name)[0]` for a bare file name: the text before the
      last '.', unless only dots come before it (a name such as ".json" has
      no extension). */
  function StemOf(name: string): string {
    var d := LastIndexOf(name, '.');
    if d > 0 && !AllDots(name[..d]) then name[..d] else name
  }

  /** For a name ending in ".json" in any letter case, the stem drops exactly
      those five characters, except when only dots precede them. */
  lemma StemOfJsonName(name: string)
    requires IsJsonName(name)
    ensures var base := name[..|name| - 5];
      StemOf(name) == if AllDots(base) then name else base
  {
    var n := |name|;
    var low := Lower(name);
    assert low[n - 5..][0] == '.';
    assert LowerChar(name[n - 5]) == '.';
    assert name[n - 5] == '.';
    forall i | n - 5 < i < n
      ensures name[i] != '.'
    {
      assert low[n - 5..][i - (n - 5)] == low[i] == LowerChar(name[i]);
      assert low[i] in "json";
    }
    var d := LastIndexOf(name, '.');
    assert d == n - 5;
  }
}
