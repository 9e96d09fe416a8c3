/**
 The canonical string of a label set (internal/identity/allocator.go, canonicalLabels):
 the pairs `key=value`, sorted by key and joined by commas.
 */
module Labels {
  import opened Text

  type LabelMap = map<string, string>

  // ------------------------------------------------------------------ the canonical form

  predicate IsLeast(k: string, s: set<string>)
  {
    k in s && forall x :: x in s ==> Le(k, x)
  }

  lemma {:induction false} LeastExists(s: set<string>)
    requires s != {}
    ensures exists k :: IsLeast(k, s)
    decreases |s|
  {
    var x :| x in s;
    LeTotal(x, x);
    if s == {x} {
      assert IsLeast(x, s);
    } else {
      LeastExists(s - {x});
      var k :| IsLeast(k, s - {x});
      LeTotal(x, k);
      if Le(k, x) {
        assert IsLeast(k, s);
      } else {
        forall y | y in s
          ensures Le(x, y)
        {
          if y != x {
            LeTransitive(x, k, y);
          }
        }
        assert IsLeast(x, s);
      }
    }
  }

  function Least(s: set<string>): (k: string)
    requires s != {}
    ensures IsLeast(k, s)
  {
    LeastExists(s);
    assert forall a, b :: IsLeast(a, s) && IsLeast(b, s) ==> a == b by {
      forall a, b | IsLeast(a, s) && IsLeast(b, s)
        ensures a == b
      {
        LeAntisymmetric(a, b);
      }
    }
    var k :| k in s && IsLeast(k, s);
    k
  }

  /** The keys in ascending order. */
  function SortedKeys(s: set<string>): (r: seq<string>)
    ensures multiset(r) == multiset(s)
    decreases |s|
  {
    if s == {} then []
    else
      var k := Least(s);
      assert multiset(s) == multiset{k} + multiset(s - {k});
      [k] + SortedKeys(s - {k})
  }

  lemma {:induction false} SortedKeysSorted(s: set<string>)
    ensures Sorted(SortedKeys(s))
    decreases |s|
  {
    if s != {} {
      var k := Least(s);
      SortedKeysSorted(s - {k});
      var rest := SortedKeys(s - {k});
      forall i | 0 <= i < |rest|
        ensures Le(k, rest[i])
      {
        assert rest[i] in multiset(rest);
      }
    }
  }

  function Pair(m: LabelMap, k: string): string
    requires k in m
  {
    k + "=" + m[k]
  }

  function Pairs(m: LabelMap, keys: seq<string>): (r: seq<string>)
    requires forall k :: k in keys ==> k in m
    ensures |r| == |keys| && forall i :: 0 <= i < |r| ==> r[i] == Pair(m, keys[i])
  {
    if keys == [] then [] else [Pair(m, keys[0])] + Pairs(m, keys[1..])
  }

  /** `strings.Join(parts, ",")`. */
  function Join(parts: seq<string>): string
  {
    if parts == [] then ""
    else if |parts| == 1 then parts[0]
    else parts[0] + [','] + Join(parts[1..])
  }

  function Canonical(m: LabelMap): string
  {
    var keys := SortedKeys(m.Keys);
    assert forall k :: k in keys ==> k in multiset(keys);
    Join(Pairs(m, keys))
  }

  /** Any ascending listing of the keys gives the canonical string. */
  lemma CanonicalIs(m: LabelMap, keys: seq<string>)
    requires Sorted(keys) && multiset(keys) == multiset(m.Keys)
    ensures forall k :: k in keys ==> k in m
    ensures Canonical(m) == Join(Pairs(m, keys))
  {
    SortedKeysSorted(m.Keys);
    SortedUnique(keys, SortedKeys(m.Keys));
    assert forall k :: k in keys ==> k in multiset(keys);
  }

  lemma JoinSnoc(parts: seq<string>, p: string)
    ensures Join(parts + [p]) == if parts == [] then p else Join(parts) + [','] + p
  {
    if |parts| > 1 {
      JoinSnoc(parts[1..], p);
      assert (parts + [p])[1..] == parts[1..] + [p];
      assert Join(parts + [p]) == parts[0] + [','] + Join(parts[1..] + [p]);
      assert parts[0] + [','] + (Join(parts[1..]) + [','] + p) == (parts[0] + [','] + Join(parts[1..])) + [','] + p;
    }
  }

  method JoinParts(parts: seq<string>) returns (c: string)
    ensures c == Join(parts)
  {
    hide Join;
    c := "";
    assert Join(parts[..0]) == "" by { JoinNone(parts); }
    for i := 0 to |parts|
      invariant c == Join(parts[..i])
    {
      JoinSnoc(parts[..i], parts[i]);
      assert parts[..i + 1] == parts[..i] + [parts[i]];
      c := if i == 0 then parts[i] else c + [','] + parts[i];
    }
    assert parts[..|parts|] == parts;
  }

  lemma JoinNone(parts: seq<string>)
    ensures Join(parts[..0]) == ""
  {}

  method CollectPairs(m: LabelMap, keys: seq<string>) returns (parts: seq<string>)
    requires forall k :: k in keys ==> k in m
    ensures parts == Pairs(m, keys)
  {
    hide Pairs, Pair;
    parts := [];
    for i := 0 to |keys|
      invariant |parts| == i
      invariant forall j :: 0 <= j < i ==> parts[j] == Pair(m, keys[j])
    {
      assert keys[i] in keys;
      parts := parts + [Pair(m, keys[i])];
    }
  }

  /** `canonicalLabels`.  `order` is the order in which the map happened to be iterated; the
      result does not depend on it. */
  method CanonicalLabels(m: LabelMap, order: seq<string>) returns (c: string)
    requires multiset(order) == multiset(m.Keys)
    ensures c == Canonical(m)
  {
    hide Canonical, Sort, Join, Sorted, Pairs;
    var keys := Sort(order);
    SortSorted(order);
    CanonicalIs(m, keys);
    var parts := CollectPairs(m, keys);
    c := JoinParts(parts);
  }

  // ------------------------------------------------------------------ the inverse

  /** The number of characters before the first `sep`, or the whole length. */
  function CutAt(s: string, sep: char): (r: nat)
    ensures r <= |s|
    ensures sep !in s[..r]
    ensures r < |s| ==> s[r] == sep
    ensures sep !in s ==> r == |s|
  {
    if s == "" || s[0] == sep then 0
    else
      var r := CutAt(s[1..], sep);
      assert s[..r + 1] == [s[0]] + s[1..][..r];
      assert sep !in s ==> sep !in s[1..];
      1 + r
  }

  function Split(s: string): (r: seq<string>)
    ensures r != [] && forall p :: p in r ==> ',' !in p
    decreases |s|
  {
    var n := CutAt(s, ',');
    if n == |s| then
      assert s[..n] == s;
      [s]
    else [s[..n]] + Split(s[n + 1..])
  }

  function ParsePairs(parts: seq<string>): LabelMap
  {
    if parts == [] then map[]
    else
      var n := CutAt(parts[0], '=');
      ParsePairs(parts[1..])[parts[0][..n] := if n < |parts[0]| then parts[0][n + 1..] else ""]
  }

  /** Reads a canonical string back. */
  function Parse(c: string): LabelMap
  {
    if c == "" then map[] else ParsePairs(Split(c))
  }

  /** No separator in a key and no comma in a value. */
  ghost predicate Unambiguous(m: LabelMap)
  {
    forall k :: k in m ==> '=' !in k && ',' !in k && ',' !in m[k]
  }

  lemma CutAtUnique(a: string, b: string, sep: char)
    requires sep !in a
    ensures CutAt(a + [sep] + b, sep) == |a|
  {
    var s := a + [sep] + b;
    var n := CutAt(s, sep);
    assert s[|a|] == sep;
    assert forall i :: 0 <= i < n ==> s[i] == s[..n][i];
    assert forall i :: 0 <= i < |a| ==> s[i] == a[i];
  }

  lemma {:induction false} SplitJoin(parts: seq<string>)
    requires parts != [] && forall p :: p in parts ==> ',' !in p
    ensures Split(Join(parts)) == parts
  {
    if |parts| > 1 {
      var rest := Join(parts[1..]);
      CutAtUnique(parts[0], rest, ',');
      var s := parts[0] + [','] + rest;
      assert s[..|parts[0]|] == parts[0] && s[|parts[0]| + 1..] == rest;
      SplitJoin(parts[1..]);
    }
  }

  lemma {:induction false} ParsePairsOf(m: LabelMap, keys: seq<string>)
    requires Unambiguous(m) && forall k :: k in keys ==> k in m
    ensures ParsePairs(Pairs(m, keys)) == map k | k in keys :: m[k]
  {
    if keys != [] {
      var p := Pair(m, keys[0]);
      assert p == keys[0] + ['='] + m[keys[0]];
      CutAtUnique(keys[0], m[keys[0]], '=');
      assert p[..|keys[0]|] == keys[0] && p[|keys[0]| + 1..] == m[keys[0]];
      ParsePairsOf(m, keys[1..]);
      assert Pairs(m, keys)[1..] == Pairs(m, keys[1..]);
    }
  }

  lemma {:induction false} ParsePairsUnambiguous(parts: seq<string>)
    requires forall p :: p in parts ==> ',' !in p
    ensures Unambiguous(ParsePairs(parts))
  {
    if parts != [] {
      ParsePairsUnambiguous(parts[1..]);
      assert parts[0] in parts;
    }
  }

  lemma PairsHaveNoComma(m: LabelMap, keys: seq<string>)
    requires Unambiguous(m) && forall k :: k in keys ==> k in m
    ensures forall p :: p in Pairs(m, keys) ==> ',' !in p
  {
    forall p | p in Pairs(m, keys)
      ensures ',' !in p
    {
      var i :| 0 <= i < |keys| && p == Pair(m, keys[i]);
      assert keys[i] in keys;
    }
  }

  /** The parser, which cuts at every comma and at the first `=` between commas, undoes
      `canonicalLabels` exactly on unambiguous label sets. */
  lemma RoundTrip(m: LabelMap)
    ensures Parse(Canonical(m)) == m <==> Unambiguous(m)
  {
    hide Split, SortedKeys;
    var c := Canonical(m);
    if Unambiguous(m) {
      var keys := SortedKeys(m.Keys);
      assert forall k :: k in keys <==> k in multiset(keys);
      assert forall k :: k in multiset(keys) <==> k in m;
      PairsHaveNoComma(m, keys);
      var parts := Pairs(m, keys);
      if keys == [] {
        assert m.Keys == {};
      } else {
        assert '=' in parts[0];
        assert c != "" by { JoinNonEmpty(parts); }
        SplitJoin(parts);
        ParsePairsOf(m, keys);
      }
    } else if c != "" {
      ParsePairsUnambiguous(Split(c));
    }
  }

  lemma JoinNonEmpty(parts: seq<string>)
    requires parts != [] && parts[0] != ""
    ensures Join(parts) != ""
  {}

  /** Unambiguous label sets with one canonical string are one label set. */
  lemma CanonicalInjective(m: LabelMap, m': LabelMap)
    requires Unambiguous(m) && Unambiguous(m') && Canonical(m) == Canonical(m')
    ensures m == m'
  {
    RoundTrip(m);
    RoundTrip(m');
  }

  lemma OneEntry(k: string, v: string)
    ensures Canonical(map[k := v]) == k + "=" + v
  {
    hide Canonical;
    var m := map[k := v];
    assert m.Keys == {k} && multiset([k]) == multiset({k});
    CanonicalIs(m, [k]);
    assert Pairs(m, [k]) == [Pair(m, k)];
  }

  lemma TwoEntries(k: string, v: string, k': string, v': string)
    requires Le(k, k') && k != k'
    ensures Canonical(map[k := v, k' := v']) == k + "=" + v + "," + (k' + "=" + v')
  {
    hide Canonical, Join, Pairs, Le;
    var m := map[k := v, k' := v'];
    TwoKeys(k, k');
    assert m.Keys == {k, k'};
    CanonicalIs(m, [k, k']);
    assert Pairs(m, [k, k']) == [Pair(m, k), Pair(m, k')];
    JoinTwo(Pair(m, k), Pair(m, k'));
  }

  lemma TwoKeys(k: string, k': string)
    requires Le(k, k') && k != k'
    ensures Sorted([k, k']) && multiset([k, k']) == multiset({k, k'})
  {
    hide Le;
    assert {k, k'} == {k} + {k'};
    assert multiset([k, k']) == multiset{k, k'};
  }

  lemma JoinTwo(p: string, q: string)
    ensures Join([p, q]) == p + "," + q
  {
    assert [p, q][1..] == [q];
  }

  /** A comma in a value is enough for two label sets to share a canonical string. */
  lemma CommaCollides()
    ensures Canonical(map["a" := "1,b=2"]) == Canonical(map["a" := "1", "b" := "2"])
  {
    hide Canonical;
    OneEntry("a", "1,b=2");
    TwoEntries("a", "1", "b", "2");
  }
}
