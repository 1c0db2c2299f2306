/** Which names of a folder the catalogue lists, and in what order:
    `sorted([f for f in os.listdir(dir) if f.lower().endswith(".json")], key=str.lower)`. */
module Listing {
  import opened Strings

  /** Keeps the names ending in ".json" in any letter case, in their order. */
  function JsonNames(names: seq<string>): (r: seq<string>)
    ensures forall f :: multiset(r)[f] == if IsJsonName(f) then multiset(names)[f] else 0
    decreases |names|
  {
    if names == [] then []
    else
      var rest := JsonNames(names[1..]);
      assert names == [names[0]] + names[1..];
      if IsJsonName(names[0]) then [names[0]] + rest else rest
  }

  /** The sort key order: `a.lower() <= b.lower()`. */
  predicate KeyLe(a: string, b: string) {
    LexLe(Lower(a), Lower(b))
  }

  /** Ordered by lower-cased name. */
  ghost predicate SortedByKey(s: seq<string>) {
    forall i, j :: 0 <= i < j < |s| ==> KeyLe(s[i], s[j])
  }

  /** Inserts `x` before the first name whose key is not below its own. */
  function InsertByKey(x: string, s: seq<string>): (r: seq<string>)
    requires SortedByKey(s)
    ensures SortedByKey(r)
    ensures multiset(r) == multiset(s) + multiset{x}
    decreases |s|
  {
    if s == [] then [x]
    else if KeyLe(x, s[0]) then
      InsertFrontSorted(x, s);
      [x] + s
    else
      var rest := InsertByKey(x, s[1..]);
      InsertAfterHead(x, s, rest);
      [s[0]] + rest
  }

  lemma InsertFrontSorted(x: string, s: seq<string>)
    requires SortedByKey(s) && |s| > 0 && KeyLe(x, s[0])
    ensures SortedByKey([x] + s)
  {
    var r := [x] + s;
    forall i, j | 0 <= i < j < |r| ensures KeyLe(r[i], r[j]) {
      if i == 0 && j > 1 {
        LexLeTransitive(Lower(x), Lower(s[0]), Lower(s[j - 1]));
      }
    }
  }

  lemma InsertAfterHead(x: string, s: seq<string>, rest: seq<string>)
    requires SortedByKey(s) && |s| > 0 && !KeyLe(x, s[0])
    requires SortedByKey(rest) && multiset(rest) == multiset(s[1..]) + multiset{x}
    ensures SortedByKey([s[0]] + rest)
    ensures multiset([s[0]] + rest) == multiset(s) + multiset{x}
  {
    LexLeTotal(Lower(x), Lower(s[0]));
    var r := [s[0]] + rest;
    forall j | 0 <= j < |rest| ensures KeyLe(s[0], rest[j]) {
      assert rest[j] in multiset(rest);
      if rest[j] != x {
        assert rest[j] in multiset(s[1..]);
        var k :| 0 <= k < |s[1..]| && s[1..][k] == rest[j];
        assert s[k + 1] == rest[j];
      }
    }
    forall i, j | 0 <= i < j < |r| ensures KeyLe(r[i], r[j]) {
      if i > 0 {
        assert r[i] == rest[i - 1] && r[j] == rest[j - 1];
      } else {
        assert r[j] == rest[j - 1];
      }
    }
    assert s == [s[0]] + s[1..];
  }

  /** Insertion sort by lower-cased name (Python's `sorted(..., key=str.lower)`). */
  function SortByKey(s: seq<string>): (r: seq<string>)
    ensures SortedByKey(r)
    ensures multiset(r) == multiset(s)
    decreases |s|
  {
    if s == [] then []
    else
      assert s == [s[0]] + s[1..];
      InsertByKey(s[0], SortByKey(s[1..]))
  }

  /** `[x]` when the lower-cased form of `x` is `key`, else nothing. */
  function Keyed(x: string, key: string): seq<string> {
    if Lower(x) == key then [x] else []
  }

  /** The names whose lower-cased form is `key`, in their order. */
  function WithKey(s: seq<string>, key: string): (r: seq<string>)
    decreases |s|
  {
    if s == [] then []
    else Keyed(s[0], key) + WithKey(s[1..], key)
  }

  lemma WithKeyCons(h: string, t: seq<string>, key: string)
    ensures WithKey([h] + t, key) == Keyed(h, key) + WithKey(t, key)
  {
    assert ([h] + t)[0] == h;
    assert ([h] + t)[1..] == t;
  }

  lemma {:induction false} InsertByKeyWithKey(x: string, s: seq<string>, key: string)
    requires SortedByKey(s)
    ensures WithKey(InsertByKey(x, s), key) == Keyed(x, key) + WithKey(s, key)
    decreases |s|
  {
    if s == [] {
      assert InsertByKey(x, s) == [x] + s;
      WithKeyCons(x, s, key);
    } else if KeyLe(x, s[0]) {
      assert InsertByKey(x, s) == [x] + s;
      WithKeyCons(x, s, key);
    } else {
      var tail := s[1..];
      InsertByKeyWithKey(x, tail, key);
      var rest := InsertByKey(x, tail);
      assert InsertByKey(x, s) == [s[0]] + rest;
      assert s == [s[0]] + tail;
      if Lower(x) == key && Lower(s[0]) == key {
        LexLeReflexive(Lower(x));
      }
      InsertAfterWithKey(x, s[0], tail, rest, key);
      assert WithKey(InsertByKey(x, s), key) == WithKey([s[0]] + rest, key);
      assert WithKey(s, key) == WithKey([s[0]] + tail, key);
    }
  }

  /** The step of `InsertByKeyWithKey` where `x` goes after the head `h`. */
  lemma InsertAfterWithKey(x: string, h: string, tail: seq<string>, rest: seq<string>, key: string)
    requires !(Lower(x) == key && Lower(h) == key)
    requires WithKey(rest, key) == Keyed(x, key) + WithKey(tail, key)
    ensures WithKey([h] + rest, key) == Keyed(x, key) + WithKey([h] + tail, key)
  {
    WithKeyCons(h, rest, key);
    WithKeyCons(h, tail, key);
    KeyedSwap(h, x, key, WithKey(tail, key));
  }

  /** At most one of two names has the key, so their contributions commute. */
  lemma KeyedSwap(h: string, x: string, key: string, w: seq<string>)
    requires !(Lower(x) == key && Lower(h) == key)
    ensures Keyed(h, key) + (Keyed(x, key) + w) == Keyed(x, key) + (Keyed(h, key) + w)
  {
    if Lower(x) == key {
      assert Keyed(h, key) == [];
    } else {
      assert Keyed(x, key) == [];
    }
  }

  /** Python's `sorted` is stable, and so is this sort: names that differ
      only in letter case keep the order the folder listing gave them. */
  lemma {:induction false} SortByKeyStable(s: seq<string>, key: string)
    ensures WithKey(SortByKey(s), key) == WithKey(s, key)
    decreases |s|
  {
    if s != [] {
      SortByKeyStable(s[1..], key);
      InsertByKeyWithKey(s[0], SortByKey(s[1..]), key);
    }
  }

  /** The names `refresh_list` walks through, given the folder listing. */
  function ListedNames(names: seq<string>): seq<string> {
    SortByKey(JsonNames(names))
  }

  /** A lower-cased name that `IsJsonName` accepts. */
  predicate IsJsonKey(key: string) {
    |key| >= 5 && key[|key| - 5..] == ".json"
  }

  /** A name whose lower-cased form is a ".json" key is a ".json" name. */
  lemma KeyedJsonName(x: string, key: string)
    requires Lower(x) == key
    ensures IsJsonName(x) <==> IsJsonKey(key)
  {
    assert |Lower(x)| == |x|;
  }

  /** The filter keeps the names of each key in their folder order: the
      names with a ".json" key are exactly the folder's, in the same order,
      and no name with another key is left. */
  lemma {:induction false} JsonNamesWithKey(s: seq<string>, key: string)
    ensures WithKey(JsonNames(s), key) == if IsJsonKey(key) then WithKey(s, key) else []
    decreases |s|
  {
    if s != [] {
      var rest := JsonNames(s[1..]);
      JsonNamesWithKey(s[1..], key);
      assert s == [s[0]] + s[1..];
      WithKeyCons(s[0], s[1..], key);
      if Lower(s[0]) == key {
        KeyedJsonName(s[0], key);
      }
      if IsJsonName(s[0]) {
        assert JsonNames(s) == [s[0]] + rest;
        WithKeyCons(s[0], rest, key);
      } else {
        assert JsonNames(s) == rest;
      }
    }
  }

  /** Names differing only in letter case are listed in the order the
      folder listing gives them. */
  lemma ListedNamesStable(names: seq<string>, key: string)
    ensures WithKey(ListedNames(names), key) == if IsJsonKey(key) then WithKey(names, key) else []
  {
    SortByKeyStable(JsonNames(names), key);
    JsonNamesWithKey(names, key);
  }

  /** The listing holds every ".json" name of the folder (in any letter
      case) as often as the folder listing does, no other name, ordered by
      lower-cased name. */
  lemma ListedNamesSpec(names: seq<string>)
    ensures SortedByKey(ListedNames(names))
    ensures forall f :: multiset(ListedNames(names))[f] == if IsJsonName(f) then multiset(names)[f] else 0
    ensures forall f :: f in ListedNames(names) <==> f in names && IsJsonName(f)
  {
    var r := ListedNames(names);
    forall f ensures f in r <==> f in names && IsJsonName(f) {
      assert f in r <==> multiset(r)[f] > 0;
      assert f in names <==> multiset(names)[f] > 0;
    }
  }

  /** A folder with no ".json" name lists nothing. */
  lemma NoJsonNamesListsNothing(names: seq<string>)
    requires forall f :: f in names ==> !IsJsonName(f)
    ensures ListedNames(names) == []
  {
    ListedNamesSpec(names);
  }
}
