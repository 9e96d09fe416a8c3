/**
 When a canonical label string identifies its label set (internal/identity/allocator.go,
 canonicalLabels).  Nothing is escaped, so it depends on which separators may occur in keys
 and values.
 */
module Separators {
  import opened Text
  import opened Labels

  ghost predicate Over(s: string, chars: set<char>)
  {
    forall i :: 0 <= i < |s| ==> s[i] in chars
  }

  /** Keys are written in `keyChars` and values in `valueChars`. */
  ghost predicate LabelsOver(m: LabelMap, keyChars: set<char>, valueChars: set<char>)
  {
    forall k :: k in m ==> Over(k, keyChars) && Over(m[k], valueChars)
  }

  /** Two label sets written in these characters have the same string only if they are equal. */
  ghost predicate Identifies(keyChars: set<char>, valueChars: set<char>)
  {
    forall m, m' ::
      LabelsOver(m, keyChars, valueChars) && LabelsOver(m', keyChars, valueChars) && Canonical(m) == Canonical(m') ==>
        m == m'
  }

  /** No separator is in both alphabets, keys do not have both separators, and values do not
      either unless they share no character with keys. */
  predicate Separable(keyChars: set<char>, valueChars: set<char>)
  {
    && !('=' in keyChars && '=' in valueChars)
    && !(',' in keyChars && ',' in valueChars)
    && !('=' in keyChars && ',' in keyChars)
    && !('=' in valueChars && ',' in valueChars && keyChars * valueChars != {})
  }

  // ------------------------------------------------------------------ entries

  datatype Entry = Entry(key: string, value: string)

  function Entries(m: LabelMap, keys: seq<string>): (r: seq<Entry>)
    requires forall k :: k in keys ==> k in m
    ensures |r| == |keys| && forall i :: 0 <= i < |r| ==> r[i] == Entry(keys[i], m[keys[i]])
  {
    seq(|keys|, i requires 0 <= i < |keys| => Entry(keys[i], m[keys[i]]))
  }

  function Written(es: seq<Entry>): string
    decreases |es|, 1
  {
    if es == [] then "" else es[0].key + ['='] + (es[0].value + Tail(es))
  }

  /** What follows the first value. */
  function Tail(es: seq<Entry>): string
    requires es != []
    decreases |es|, 0
  {
    if |es| == 1 then "" else [','] + Written(es[1..])
  }

  lemma {:induction false} JoinIsWritten(m: LabelMap, keys: seq<string>)
    requires forall k :: k in keys ==> k in m
    ensures Join(Pairs(m, keys)) == Written(Entries(m, keys))
  {
    if keys != [] {
      var es := Entries(m, keys);
      assert es[1..] == Entries(m, keys[1..]) && Pairs(m, keys)[1..] == Pairs(m, keys[1..]);
      JoinIsWritten(m, keys[1..]);
      assert es[0].key + ['='] + (es[0].value + Tail(es)) == Pair(m, keys[0]) + Tail(es);
    }
  }

  ghost predicate EntriesOver(es: seq<Entry>, keyChars: set<char>, valueChars: set<char>)
  {
    forall i :: 0 <= i < |es| ==> Over(es[i].key, keyChars) && Over(es[i].value, valueChars)
  }

  /** Only the first key may be empty. */
  ghost predicate LaterKeysNonEmpty(es: seq<Entry>)
  {
    forall i :: 0 < i < |es| ==> es[i].key != ""
  }

  lemma NotIn(s: string, chars: set<char>, c: char)
    requires Over(s, chars) && c !in chars
    ensures c !in s
  {}

  // ------------------------------------------------------------------ reading forwards

  /** A value ends where a comma starts the next entry: when values have no comma, or when
      the key after the comma shows that it is not part of the value. */
  lemma ValueEnds(v: string, t: string, v': string, t': string, keyChars: set<char>, valueChars: set<char>)
    requires v + t == v' + t' && Over(v, valueChars) && Over(v', valueChars)
    requires t != "" ==> t[0] == ',' && |t| > 1 && (t[1] in keyChars || ',' !in valueChars)
    requires t' != "" ==> t'[0] == ','
    requires ',' !in valueChars || (',' !in keyChars && keyChars * valueChars == {})
    ensures |v| >= |v'|
  {
    var s := v + t;
    assert forall c :: c in keyChars && c in valueChars ==> c in keyChars * valueChars;
    assert forall i :: 0 <= i < |t| ==> s[|v| + i] == t[i];
    assert forall i :: 0 <= i < |v'| ==> s[i] == v'[i];
    assert forall i :: 0 <= i < |t'| ==> s[|v'| + i] == t'[i];
  }

  lemma SameParts(v: string, t: string, v': string, t': string)
    requires v + t == v' + t' && |v| == |v'|
    ensures v == v' && t == t'
  {
    assert v == (v + t)[..|v|] && v' == (v' + t')[..|v'|];
    assert t == (v + t)[|v|..] && t' == (v' + t')[|v'|..];
  }

  lemma TailStarts(es: seq<Entry>, keyChars: set<char>, valueChars: set<char>)
    requires es != [] && EntriesOver(es, keyChars, valueChars) && LaterKeysNonEmpty(es)
    ensures Tail(es) != "" ==> Tail(es)[0] == ',' && |Tail(es)| > 1 && Tail(es)[1] in keyChars
    ensures Tail(es) == "" <==> |es| == 1
  {
    if |es| > 1 {
      var rest := es[1..];
      assert rest[0] == es[1] && es[1].key != "";
      var w := Written(rest);
      assert w == es[1].key + ['='] + (es[1].value + Tail(rest));
      assert w[0] == es[1].key[0];
      assert Tail(es) == [','] + w;
    }
  }

  lemma {:induction false} ReadForwards(es: seq<Entry>, fs: seq<Entry>, keyChars: set<char>, valueChars: set<char>)
    requires EntriesOver(es, keyChars, valueChars) && LaterKeysNonEmpty(es)
    requires EntriesOver(fs, keyChars, valueChars) && LaterKeysNonEmpty(fs)
    requires '=' !in keyChars && (',' !in valueChars || (',' !in keyChars && keyChars * valueChars == {}))
    requires Written(es) == Written(fs)
    ensures es == fs
  {
    hide Over;
    if es == [] || fs == [] {
      assert es != [] ==> Written(es) != "";
      assert fs != [] ==> Written(fs) != "";
    } else {
      var k, v, t := es[0].key, es[0].value, Tail(es);
      var k', v', t' := fs[0].key, fs[0].value, Tail(fs);
      NotIn(k, keyChars, '=');
      NotIn(k', keyChars, '=');
      CutFirst(k, v + t, k', v' + t', '=');
      TailStarts(es, keyChars, valueChars);
      TailStarts(fs, keyChars, valueChars);
      ValueEnds(v, t, v', t', keyChars, valueChars);
      ValueEnds(v', t', v, t, keyChars, valueChars);
      SameParts(v, t, v', t');
      if |es| > 1 {
        assert Written(es[1..]) == t[1..] && Written(fs[1..]) == t'[1..];
        ReadForwards(es[1..], fs[1..], keyChars, valueChars);
      }
      assert es == [es[0]] + es[1..] && fs == [fs[0]] + fs[1..];
    }
  }

  // ------------------------------------------------------------------ reading backwards

  /** What precedes the last key. */
  function Lead(es: seq<Entry>): string
  {
    if es == [] then "" else Written(es) + [',']
  }

  lemma LeadCons(es: seq<Entry>)
    requires es != []
    ensures Lead(es) == es[0].key + ['='] + (es[0].value + ([','] + Lead(es[1..])))
  {
    var k, v := es[0].key, es[0].value;
    if |es| == 1 {
      assert es[1..] == [] && Tail(es) == "";
      assert Lead(es[1..]) == "";
      assert k + ['='] + (v + "") + [','] == k + ['='] + (v + ([','] + ""));
    } else {
      var w := Written(es[1..]);
      assert Lead(es[1..]) == w + [','] && Written(es) == k + ['='] + (v + ([','] + w));
      assert k + ['='] + (v + ([','] + w)) + [','] == k + ['='] + (v + ([','] + (w + [','])));
    }
  }

  lemma Regroup(k: string, v: string, l: string, k': string, v': string)
    ensures k + ['='] + (v + ([','] + (l + k' + ['='] + v'))) == k + ['='] + (v + ([','] + l)) + k' + ['='] + v'
  {}

  lemma {:induction false} WrittenSnoc(es: seq<Entry>, e: Entry)
    ensures Written(es + [e]) == Lead(es) + e.key + ['='] + e.value
  {
    if es == [] {
      assert es + [e] == [e];
      assert e.key + ['='] + (e.value + "") == "" + e.key + ['='] + e.value;
    } else {
      hide Lead;
      WrittenSnoc(es[1..], e);
      assert (es + [e])[1..] == es[1..] + [e];
      assert Tail(es + [e]) == [','] + Written(es[1..] + [e]);
      LeadCons(es);
      Regroup(es[0].key, es[0].value, Lead(es[1..]), e.key, e.value);
    }
  }

  lemma LeadEnds(es: seq<Entry>)
    ensures Lead(es) == "" <==> es == []
    ensures es != [] ==> Lead(es)[|Lead(es)| - 1] == ',' && Lead(es)[..|Lead(es)| - 1] == Written(es)
  {}

  lemma KeyStarts(l: string, k: string, l': string, k': string)
    requires l + k == l' + k' && ',' !in k && ',' !in k'
    requires l != "" ==> l[|l| - 1] == ','
    ensures |l| <= |l'|
  {
    var s := l + k;
    assert forall i :: 0 <= i < |l| ==> s[i] == l[i];
    assert forall i :: |l'| <= i < |s| ==> s[i] == k'[i - |l'|];
  }

  lemma {:induction false} ReadBackwards(es: seq<Entry>, fs: seq<Entry>, keyChars: set<char>, valueChars: set<char>)
    requires EntriesOver(es, keyChars, valueChars) && EntriesOver(fs, keyChars, valueChars)
    requires ',' !in keyChars && '=' !in valueChars
    requires Written(es) == Written(fs)
    ensures es == fs
  {
    hide Over, Lead;
    if es == [] || fs == [] {
      assert es != [] ==> Written(es) != "";
      assert fs != [] ==> Written(fs) != "";
    } else {
      hide Written;
      var init, e := es[..|es| - 1], es[|es| - 1];
      var init', e' := fs[..|fs| - 1], fs[|fs| - 1];
      assert es == init + [e] && fs == init' + [e'];
      WrittenSnoc(init, e);
      WrittenSnoc(init', e');
      NotIn(e.value, valueChars, '=');
      NotIn(e'.value, valueChars, '=');
      CutLast(Lead(init) + e.key, e.value, Lead(init') + e'.key, e'.value, '=');
      NotIn(e.key, keyChars, ',');
      NotIn(e'.key, keyChars, ',');
      LeadEnds(init);
      LeadEnds(init');
      KeyStarts(Lead(init), e.key, Lead(init'), e'.key);
      KeyStarts(Lead(init'), e'.key, Lead(init), e.key);
      SameParts(Lead(init), e.key, Lead(init'), e'.key);
      if init != [] {
        ReadBackwards(init, init', keyChars, valueChars);
      }
    }
  }

  // ------------------------------------------------------------------ both directions

  lemma FirstKeyOnly(s: set<string>, keys: seq<string>, i: nat)
    requires Sorted(keys) && multiset(keys) == multiset(s) && 0 < i < |keys|
    ensures keys[i] != ""
  {
    assert Le(keys[0], keys[i]);
    assert keys == keys[..i] + keys[i..];
    assert multiset(keys) == multiset(keys[..i]) + multiset(keys[i..]);
    assert keys[..i][0] in multiset(keys[..i]) && keys[i..][0] in multiset(keys[i..]);
    assert multiset(keys)[keys[0]] <= 1;
  }

  /** The entries of a label set, as they are written. */
  ghost function EntriesOf(m: LabelMap): seq<Entry>
  {
    var keys := SortedKeys(m.Keys);
    assert forall k :: k in keys ==> k in multiset(keys);
    Entries(m, keys)
  }

  lemma CanonicalIsWritten(m: LabelMap)
    ensures Canonical(m) == Written(EntriesOf(m))
  {
    hide SortedKeys, Join, Written;
    var keys := SortedKeys(m.Keys);
    assert forall k :: k in keys ==> k in multiset(keys);
    JoinIsWritten(m, keys);
  }

  lemma EntriesOfOver(m: LabelMap, keyChars: set<char>, valueChars: set<char>)
    requires LabelsOver(m, keyChars, valueChars)
    ensures EntriesOver(EntriesOf(m), keyChars, valueChars) && LaterKeysNonEmpty(EntriesOf(m))
  {
    hide Over, SortedKeys;
    var keys := SortedKeys(m.Keys);
    SortedKeysSorted(m.Keys);
    assert forall k :: k in keys ==> k in multiset(keys);
    forall i | 0 <= i < |keys|
      ensures keys[i] in m && (i > 0 ==> keys[i] != "")
    {
      assert keys[i] in keys;
      if i > 0 {
        FirstKeyOnly(m.Keys, keys, i);
      }
    }
  }

  lemma EntriesDetermine(m: LabelMap, m': LabelMap)
    requires EntriesOf(m) == EntriesOf(m')
    ensures m == m'
  {
    hide SortedKeys;
    var keys, keys' := SortedKeys(m.Keys), SortedKeys(m'.Keys);
    var es, es' := EntriesOf(m), EntriesOf(m');
    assert forall i :: 0 <= i < |keys| ==> keys[i] == es[i].key;
    assert forall i :: 0 <= i < |keys'| ==> keys'[i] == es'[i].key;
    assert keys == keys';
    assert forall k :: k in m <==> k in multiset(keys);
    assert forall k :: k in m' <==> k in multiset(keys);
    forall k | k in m
      ensures m[k] == m'[k]
    {
      var i :| 0 <= i < |keys| && keys[i] == k;
      assert es[i] == Entry(k, m[k]) && es'[i] == Entry(k, m'[k]);
    }
  }

  lemma SeparableIdentifies(keyChars: set<char>, valueChars: set<char>, m: LabelMap, m': LabelMap)
    requires Separable(keyChars, valueChars)
    requires LabelsOver(m, keyChars, valueChars) && LabelsOver(m', keyChars, valueChars) &&
              Canonical(m) == Canonical(m')
    ensures m == m'
  {
    hide Canonical, LabelsOver, Written, LaterKeysNonEmpty, EntriesOver, EntriesOf;
    CanonicalIsWritten(m);
    CanonicalIsWritten(m');
    EntriesOfOver(m, keyChars, valueChars);
    EntriesOfOver(m', keyChars, valueChars);
    if ',' !in keyChars && '=' !in valueChars {
      ReadBackwards(EntriesOf(m), EntriesOf(m'), keyChars, valueChars);
    } else {
      ReadForwards(EntriesOf(m), EntriesOf(m'), keyChars, valueChars);
    }
    EntriesDetermine(m, m');
  }

  /** Two label sets with one string, for every pair of alphabets that is not separable. */
  lemma Collision(keyChars: set<char>, valueChars: set<char>) returns (m: LabelMap, m': LabelMap)
    requires !Separable(keyChars, valueChars)
    ensures LabelsOver(m, keyChars, valueChars) && LabelsOver(m', keyChars, valueChars)
    ensures m != m' && Canonical(m) == Canonical(m')
  {
    hide Canonical;
    if '=' in keyChars && '=' in valueChars {
      m, m' := map["" := "="], map["=" := ""];
      OneEntry("", "=");
      OneEntry("=", "");
      assert "" in m && "" !in m';
    } else if ',' in keyChars && ',' in valueChars {
      m, m' := map["" := "", ",," := ""], map["" := ",", "," := ""];
      TwoEntries("", "", ",,", "");
      TwoEntries("", ",", ",", "");
      assert m[""] != m'[""];
    } else if '=' in keyChars && ',' in keyChars {
      m, m' := map["=,," := ""], map["" := "", "," := ""];
      OneEntry("=,,", "");
      TwoEntries("", "", ",", "");
      assert "" !in m && "" in m';
    } else {
      var c :| c in keyChars * valueChars;
      m, m' := map["" := [',', c, '=']], map["" := "", [c] := ""];
      OneEntry("", [',', c, '=']);
      TwoEntries("", "", [c], "");
      assert m[""] != m'[""];
      assert "" + "=" + [',', c, '='] == "" + "=" + "" + "," + ([c] + "=" + "");
    }
  }

  /** Canonical strings identify the label sets written in given characters if and only if
      the characters are separable. */
  lemma CanonicalInjectiveIff(keyChars: set<char>, valueChars: set<char>)
    ensures Identifies(keyChars, valueChars) <==> Separable(keyChars, valueChars)
  {
    hide LabelsOver, Canonical;
    if Separable(keyChars, valueChars) {
      forall m, m' | LabelsOver(m, keyChars, valueChars) && LabelsOver(m', keyChars, valueChars) &&
        Canonical(m) == Canonical(m')
        ensures m == m'
      {
        SeparableIdentifies(keyChars, valueChars, m, m');
      }
    } else {
      var m, m' := Collision(keyChars, valueChars);
      assert LabelsOver(m, keyChars, valueChars) && LabelsOver(m', keyChars, valueChars);
    }
  }
}
