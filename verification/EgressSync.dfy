/**
 Pushing the CIDR rules of the compiled policies to the egress manager and the dataplane
 (internal/agent/server.go, SyncEgressRules): every rule is upserted, keys pushed last
 time and absent now are deleted, and manager rules whose key is absent now are removed.
 */
module EgressSync {
  import opened Prelude
  import opened Text
  import opened EgressManager

  datatype PolicyRule = PolicyRule(namespace: string, src: nat, cidr: string, protocol: nat, port: nat, action: nat)

  datatype MapKey = MapKey(src: nat, cidr: string, prefixLen: nat)

  datatype Value = Value(protocol: nat, port: nat, action: nat, snat: string)

  /** The dataplane's own key: identities are cut to 32 bits on the wire. */
  function Wire(k: MapKey): MapKey
  {
    k.(src := k.src % 0x1_0000_0000)
  }

  ghost function Wires(keys: set<MapKey>): set<MapKey>
  {
    set k | k in keys :: Wire(k)
  }

  /** The policy action on the wire: anything but allow is deny. */
  function WireAction(action: nat): nat
  {
    if action == ACTION_ALLOW then ACTION_ALLOW else ACTION_DENY
  }

  function KeyOf(src: nat, net: Net): MapKey
  {
    MapKey(src, net.text, net.prefixLen)
  }

  /** The rule is a CIDR rule whose CIDR parses. */
  predicate Pushed(parse: Parser, r: PolicyRule)
  {
    r.cidr != "" && parse(r.cidr).Some?
  }

  function RuleMapKey(parse: Parser, r: PolicyRule): MapKey
    requires Pushed(parse, r)
  {
    KeyOf(r.src, parse(r.cidr).value)
  }

  function RuleValue(r: PolicyRule, snat: string): Value
  {
    Value(r.protocol, r.port, WireAction(r.action), snat)
  }

  // ------------------------------------------------------------------ reference definitions

  /** The keys of a rule list. */
  ghost function Keys(parse: Parser, rules: seq<PolicyRule>): set<MapKey>
  {
    if rules == [] then {}
    else
      var init, r := Keys(parse, rules[..|rules| - 1]), rules[|rules| - 1];
      if Pushed(parse, r) then init + {RuleMapKey(parse, r)} else init
  }

  /** The table after upserting a list in order, where `ok[i]` is the outcome of rule `i`. */
  ghost function Upserted(parse: Parser, table: map<MapKey, Value>, rules: seq<PolicyRule>, ok: seq<bool>,
                          snat: string): map<MapKey, Value>
    requires |ok| == |rules|
  {
    if rules == [] then table
    else
      var last := |rules| - 1;
      var t, r := Upserted(parse, table, rules[..last], ok[..last], snat), rules[last];
      if Pushed(parse, r) && ok[last] then t[Wire(RuleMapKey(parse, r)) := RuleValue(r, snat)] else t
  }

  /** The table a rule list asks for, starting from nothing. */
  ghost function Wanted(parse: Parser, rules: seq<PolicyRule>, snat: string): map<MapKey, Value>
  {
    if rules == [] then map[]
    else
      var t, r := Wanted(parse, rules[..|rules| - 1], snat), rules[|rules| - 1];
      if Pushed(parse, r) then t[Wire(RuleMapKey(parse, r)) := RuleValue(r, snat)] else t
  }

  /** Rule `i` is the last one with dataplane key `k`. */
  ghost predicate Decides(parse: Parser, rules: seq<PolicyRule>, i: int, k: MapKey)
  {
    && 0 <= i < |rules| && Pushed(parse, rules[i]) && Wire(RuleMapKey(parse, rules[i])) == k
    && forall j :: i < j < |rules| && Pushed(parse, rules[j]) ==> Wire(RuleMapKey(parse, rules[j])) != k
  }

  /** The table after one sync. */
  ghost function Synced(parse: Parser, table: map<MapKey, Value>, prev: set<MapKey>, rules: seq<PolicyRule>,
                        ok: seq<bool>, failedDeletes: set<MapKey>, snat: string): map<MapKey, Value>
    requires |ok| == |rules|
  {
    Upserted(parse, table, rules, ok, snat) - Wires(prev - Keys(parse, rules) - failedDeletes)
  }

  // ------------------------------------------------------------------ what a sync achieves

  lemma WiresAdd(keys: set<MapKey>, k: MapKey)
    ensures Wires(keys + {k}) == Wires(keys) + {Wire(k)}
  {}

  lemma WireIs(k: MapKey, w: MapKey)
    ensures Wire(k) == w <==> w.src == k.src % 0x1_0000_0000 && w.cidr == k.cidr && w.prefixLen == k.prefixLen
  {}

  lemma WiresNone(keys: set<MapKey>)
    requires keys == {}
    ensures Wires(keys) == {}
  {}

  lemma StaleAdd(prev: set<MapKey>, todo: set<MapKey>, kept: set<MapKey>, k: MapKey)
    requires k in todo && todo <= prev
    ensures Wires(prev - (todo - {k}) - kept)
         == Wires(prev - todo - kept) + if k in kept then {} else {Wire(k)}
  {
    hide Wires;
    if k in kept {
      assert prev - (todo - {k}) - kept == prev - todo - kept;
    } else {
      assert prev - (todo - {k}) - kept == (prev - todo - kept) + {k};
      WiresAdd(prev - todo - kept, k);
    }
  }

  /** Upserts only add keys of the list, and with no failure exactly those. */
  lemma {:induction false} UpsertedKeys(parse: Parser, table: map<MapKey, Value>, rules: seq<PolicyRule>, ok: seq<bool>,
                                        snat: string)
    requires |ok| == |rules|
    ensures table.Keys <= Upserted(parse, table, rules, ok, snat).Keys <= table.Keys + Wires(Keys(parse, rules))
  {
    if rules != [] {
      var last := |rules| - 1;
      UpsertedKeys(parse, table, rules[..last], ok[..last], snat);
      if Pushed(parse, rules[last]) {
        WiresAdd(Keys(parse, rules[..last]), RuleMapKey(parse, rules[last]));
      }
    }
  }

  lemma {:induction false} UpsertedAll(parse: Parser, table: map<MapKey, Value>, rules: seq<PolicyRule>, ok: seq<bool>,
                                       snat: string)
    requires |ok| == |rules| && forall i :: 0 <= i < |ok| ==> ok[i]
    ensures Upserted(parse, table, rules, ok, snat) == table + Wanted(parse, rules, snat)
    ensures Wanted(parse, rules, snat).Keys == Wires(Keys(parse, rules))
  {
    if rules != [] {
      var last := |rules| - 1;
      UpsertedAll(parse, table, rules[..last], ok[..last], snat);
      if Pushed(parse, rules[last]) {
        WiresAdd(Keys(parse, rules[..last]), RuleMapKey(parse, rules[last]));
      }
    }
  }

  lemma DecidesNothing(parse: Parser, rules: seq<PolicyRule>, k: MapKey)
    requires rules == []
    ensures forall i :: !Decides(parse, rules, i, k)
  {}

  lemma OnlyLastDecides(parse: Parser, rules: seq<PolicyRule>, k: MapKey)
    requires rules != [] && Pushed(parse, rules[|rules| - 1]) && Wire(RuleMapKey(parse, rules[|rules| - 1])) == k
    ensures forall i :: Decides(parse, rules, i, k) <==> i == |rules| - 1
  {
    hide Pushed, Wire, RuleMapKey;
  }

  lemma DecidesBefore(parse: Parser, rules: seq<PolicyRule>, i: int, k: MapKey)
    requires rules != []
    requires Pushed(parse, rules[|rules| - 1]) ==> Wire(RuleMapKey(parse, rules[|rules| - 1])) != k
    ensures Decides(parse, rules, i, k) <==> Decides(parse, rules[..|rules| - 1], i, k)
    ensures Decides(parse, rules, i, k) ==> 0 <= i < |rules| - 1 && rules[..|rules| - 1][i] == rules[i]
  {
    hide Pushed, Wire, RuleMapKey;
    var init := rules[..|rules| - 1];
    assert forall j :: 0 <= j < |init| ==> init[j] == rules[j];
  }

  /** In the wanted table the last rule with a key decides its value. */
  lemma {:induction false} LastRuleDecides(parse: Parser, rules: seq<PolicyRule>, snat: string, k: MapKey)
    ensures k in Wanted(parse, rules, snat) <==> exists i :: Decides(parse, rules, i, k)
    ensures forall i :: Decides(parse, rules, i, k) ==>
              k in Wanted(parse, rules, snat) && Wanted(parse, rules, snat)[k] == RuleValue(rules[i], snat)
  {
    hide Decides, RuleValue, Wire, Pushed;
    if rules == [] {
      DecidesNothing(parse, rules, k);
    } else {
      var last := |rules| - 1;
      var init := rules[..last];
      LastRuleDecides(parse, init, snat, k);
      if Pushed(parse, rules[last]) && Wire(RuleMapKey(parse, rules[last])) == k {
        OnlyLastDecides(parse, rules, k);
        assert Decides(parse, rules, last, k);
      } else {
        forall i
          ensures Decides(parse, rules, i, k) <==> Decides(parse, init, i, k)
          ensures Decides(parse, rules, i, k) ==> 0 <= i < last && init[i] == rules[i]
        {
          DecidesBefore(parse, rules, i, k);
        }
      }
    }
  }

  /** Rule `r` is a CIDR rule for the dataplane key `k`. */
  ghost predicate IsFor(parse: Parser, r: PolicyRule, k: MapKey)
  {
    && r.cidr != "" && parse(r.cidr).Some? && k.src == r.src % 0x1_0000_0000
    && k.cidr == parse(r.cidr).value.text && k.prefixLen == parse(r.cidr).value.prefixLen
  }

  /** `v` carries out rule `r`: its protocol and port, and 1 for allow and 0 for anything else. */
  ghost predicate CarriesOut(v: Value, r: PolicyRule, snat: string)
  {
    v.protocol == r.protocol && v.port == r.port && v.snat == snat && v.action == if r.action == 1 then 1 else 0
  }

  ghost predicate LastFor(parse: Parser, rules: seq<PolicyRule>, i: int, k: MapKey)
  {
    0 <= i < |rules| && IsFor(parse, rules[i], k) && forall j :: i < j < |rules| ==> !IsFor(parse, rules[j], k)
  }

  lemma IsForIff(parse: Parser, r: PolicyRule, k: MapKey)
    ensures IsFor(parse, r, k) <==> Pushed(parse, r) && Wire(RuleMapKey(parse, r)) == k
  {}

  lemma LastForDecides(parse: Parser, rules: seq<PolicyRule>, i: int, k: MapKey)
    ensures LastFor(parse, rules, i, k) <==> Decides(parse, rules, i, k)
  {
    hide IsFor, Pushed, Wire, RuleMapKey;
    forall j | 0 <= j < |rules|
      ensures IsFor(parse, rules[j], k) <==> Pushed(parse, rules[j]) && Wire(RuleMapKey(parse, rules[j])) == k
    {
      IsForIff(parse, rules[j], k);
    }
  }

  lemma ValueCarriesOut(r: PolicyRule, snat: string)
    ensures CarriesOut(RuleValue(r, snat), r, snat)
  {}

  /** The wanted table in the words of the rules: it has exactly the keys that some rule is for,
      and each entry carries out the last rule for its key. */
  lemma WantedInWords(parse: Parser, rules: seq<PolicyRule>, snat: string, k: MapKey)
    ensures k in Wanted(parse, rules, snat) <==> exists i :: 0 <= i < |rules| && IsFor(parse, rules[i], k)
    ensures forall i :: LastFor(parse, rules, i, k) ==>
              k in Wanted(parse, rules, snat) && CarriesOut(Wanted(parse, rules, snat)[k], rules[i], snat)
  {
    hide Wanted, Decides, IsFor, RuleValue, CarriesOut;
    LastRuleDecides(parse, rules, snat, k);
    forall i
      ensures LastFor(parse, rules, i, k) <==> Decides(parse, rules, i, k)
      ensures 0 <= i < |rules| ==> CarriesOut(RuleValue(rules[i], snat), rules[i], snat)
    {
      LastForDecides(parse, rules, i, k);
      if 0 <= i < |rules| {
        ValueCarriesOut(rules[i], snat);
      }
    }
    if exists i :: 0 <= i < |rules| && IsFor(parse, rules[i], k) {
      assert LastFor(parse, rules, FindLast(parse, rules, k, |rules|), k);
    }
  }

  ghost function FindLast(parse: Parser, rules: seq<PolicyRule>, k: MapKey, n: nat): (i: nat)
    requires n <= |rules| && exists j :: 0 <= j < n && IsFor(parse, rules[j], k)
    ensures i < n && IsFor(parse, rules[i], k) && forall j :: i < j < n ==> !IsFor(parse, rules[j], k)
  {
    if IsFor(parse, rules[n - 1], k) then n - 1 else FindLast(parse, rules, k, n - 1)
  }

  /** A stale key and a wanted key that are one key on the wire. */
  ghost predicate Aliased(parse: Parser, prev: set<MapKey>, rules: seq<PolicyRule>)
  {
    exists k, k' :: k in prev - Keys(parse, rules) && k' in Keys(parse, rules) && Wire(k) == Wire(k')
  }

  /** With every upsert succeeding, a sync of any table leaves exactly the wanted one if and
      only if no key whose delete succeeds aliases a wanted one, and the table has no entry
      beyond those of such keys and the wanted ones. */
  lemma SyncExactIff(parse: Parser, table: map<MapKey, Value>, prev: set<MapKey>, rules: seq<PolicyRule>,
                     ok: seq<bool>, failedDeletes: set<MapKey>, snat: string)
    requires |ok| == |rules| && (forall i :: 0 <= i < |ok| ==> ok[i])
    ensures Synced(parse, table, prev, rules, ok, failedDeletes, snat) == Wanted(parse, rules, snat) <==>
            && !Aliased(parse, prev - failedDeletes, rules)
            && table.Keys <= Wires(prev - failedDeletes) + Wires(Keys(parse, rules))
  {
    hide Upserted, Wanted, Keys, Wire;
    var keys, wanted := Keys(parse, rules), Wanted(parse, rules, snat);
    var gone := prev - keys - failedDeletes;
    UpsertedAll(parse, table, rules, ok, snat);
    var t := Synced(parse, table, prev, rules, ok, failedDeletes, snat);
    assert t == (table + wanted) - Wires(gone);
    assert prev - failedDeletes - keys == gone;
    AliasedIff(keys, gone);
    WiresSplit(prev - failedDeletes, keys);
    assert wanted.Keys == Wires(keys);
    assert t.Keys == (table.Keys + Wires(keys)) - Wires(gone);
    if t.Keys == Wires(keys) {
      assert t == wanted;
      assert forall w :: w in table.Keys ==> w in Wires(gone) + Wires(keys);
      assert Wires(gone) !! Wires(keys);
    }
  }

  lemma AliasedIff(keys: set<MapKey>, gone: set<MapKey>)
    ensures (exists k, k' :: k in gone && k' in keys && Wire(k) == Wire(k')) <==> !(Wires(gone) !! Wires(keys))
  {
    hide Wire;
    if k, k' :| k in gone && k' in keys && Wire(k) == Wire(k') {
      assert Wire(k) in Wires(gone) && Wire(k) in Wires(keys);
    }
  }

  lemma WiresSplit(prev: set<MapKey>, keys: set<MapKey>)
    ensures Wires(prev) + Wires(keys) == Wires(prev - keys) + Wires(keys)
  {
    hide Wire;
    assert forall k :: k in prev ==> k in prev - keys || k in keys;
  }

  /** Identities that stay distinct in 32 bits never alias. */
  lemma DistinctIdentitiesUnaliased(parse: Parser, prev: set<MapKey>, rules: seq<PolicyRule>)
    requires forall k, k' :: k in prev + Keys(parse, rules) && k' in prev + Keys(parse, rules) ==>
               (k.src % 0x1_0000_0000 == k'.src % 0x1_0000_0000 ==> k.src == k'.src)
    ensures !Aliased(parse, prev, rules)
  {
    forall k, k' | k in prev && k' in Keys(parse, rules) && Wire(k) == Wire(k')
      ensures k == k'
    {
      assert k in prev + Keys(parse, rules) && k' in prev + Keys(parse, rules);
      assert Wire(k).src == Wire(k').src && k.cidr == k'.cidr && k.prefixLen == k'.prefixLen;
    }
  }

  /** Failed upserts leave gaps but nothing untracked. */
  lemma FailedUpsertsStayTracked(parse: Parser, table: map<MapKey, Value>, prev: set<MapKey>, rules: seq<PolicyRule>,
                                 ok: seq<bool>, snat: string)
    requires |ok| == |rules| && table.Keys <= Wires(prev)
    ensures Synced(parse, table, prev, rules, ok, {}, snat).Keys <= Wires(Keys(parse, rules))
  {
    UpsertedKeys(parse, table, rules, ok, snat);
    var keys := Keys(parse, rules);
    forall w | w in Synced(parse, table, prev, rules, ok, {}, snat).Keys
      ensures w in Wires(keys)
    {
      if w in table.Keys {
        var k :| k in prev && Wire(k) == w;
        assert k !in prev - keys - {};
      }
    }
  }

  // ------------------------------------------------------------------ runs of syncs

  /** The table and the tracked keys after syncing each list in turn, every call succeeding. */
  ghost function Run(parse: Parser, lists: seq<seq<PolicyRule>>, snat: string): (map<MapKey, Value>, set<MapKey>)
  {
    if lists == [] then (map[], {})
    else
      var (table, prev), rules := Run(parse, lists[..|lists| - 1], snat), lists[|lists| - 1];
      (Synced(parse, table, prev, rules, seq(|rules|, _ => true), {}, snat), Keys(parse, rules))
  }

  lemma {:induction false} RunTracked(parse: Parser, lists: seq<seq<PolicyRule>>, snat: string)
    ensures var (table, prev) := Run(parse, lists, snat);
            && table.Keys <= Wires(prev)
            && prev == if lists == [] then {} else Keys(parse, lists[|lists| - 1])
  {
    hide Synced, Keys, Wires;
    if lists == [] {
      WiresNone({});
    } else {
      var rules := lists[|lists| - 1];
      RunTracked(parse, lists[..|lists| - 1], snat);
      var (table, prev) := Run(parse, lists[..|lists| - 1], snat);
      FailedUpsertsStayTracked(parse, table, prev, rules, seq(|rules|, _ => true), snat);
    }
  }

  /** From an empty start the table is the one the last list wants if and only if the last
      two lists do not alias: earlier lists leave nothing behind, and what an aliased sync
      loses the next one restores. */
  lemma HistoryIndependent(parse: Parser, lists: seq<seq<PolicyRule>>, snat: string)
    requires lists != []
    ensures var n, table := |lists| - 1, Run(parse, lists, snat).0;
            && (table == Wanted(parse, lists[n], snat) <==>
                  n == 0 || !Aliased(parse, Keys(parse, lists[n - 1]), lists[n]))
            && (table == Wanted(parse, lists[n], snat) ==> table.Keys == Wires(Keys(parse, lists[n])))
  {
    hide Synced, Keys, Wires, Aliased, Wanted;
    var n := |lists| - 1;
    var init, rules := lists[..n], lists[n];
    RunTracked(parse, init, snat);
    var (table, prev) := Run(parse, init, snat);
    var ok := seq(|rules|, _ => true);
    SyncExactIff(parse, table, prev, rules, ok, {}, snat);
    assert prev - {} == prev;
    UpsertedAll(parse, table, rules, ok, snat);
    NothingAliased(parse, rules);
  }

  lemma NothingAliased(parse: Parser, rules: seq<PolicyRule>)
    ensures !Aliased(parse, {}, rules)
  {}

  /** The same rule for an identity that is equal in 32 bits. */
  function Alias(r: PolicyRule): PolicyRule
  {
    r.(src := r.src + 0x1_0000_0000)
  }

  lemma OneKey(parse: Parser, r: PolicyRule)
    requires Pushed(parse, r)
    ensures Keys(parse, [r]) == {RuleMapKey(parse, r)}
  {
    assert [r][..0] == [];
  }

  lemma AliasAliases(parse: Parser, r: PolicyRule)
    requires Pushed(parse, r)
    ensures Aliased(parse, Keys(parse, [r]), [Alias(r)]) && !Aliased(parse, Keys(parse, [Alias(r)]), [Alias(r)])
  {
    OneKey(parse, r);
    OneKey(parse, Alias(r));
    var k, k' := RuleMapKey(parse, r), RuleMapKey(parse, Alias(r));
    assert k in {k} - {k'} && Wire(k) == Wire(k');
  }

  /** Replacing any rule by its alias loses the rule; syncing the same list once more
      restores it. */
  lemma AliasedRun(parse: Parser, r: PolicyRule, snat: string)
    requires Pushed(parse, r)
    ensures Run(parse, [[r], [Alias(r)]], snat).0 != Wanted(parse, [Alias(r)], snat)
    ensures Run(parse, [[r], [Alias(r)], [Alias(r)]], snat).0 == Wanted(parse, [Alias(r)], snat)
  {
    hide Run, Wanted, Aliased, Keys;
    AliasAliases(parse, r);
    HistoryIndependent(parse, [[r], [Alias(r)]], snat);
    HistoryIndependent(parse, [[r], [Alias(r)], [Alias(r)]], snat);
  }

  // ------------------------------------------------------------------ failed deletes

  /** One sync with the outcome of its calls. */
  datatype Call = Call(rules: seq<PolicyRule>, ok: seq<bool>, failedDeletes: set<MapKey>)

  datatype State = State(table: map<MapKey, Value>, prev: set<MapKey>)

  ghost predicate WellFormed(calls: seq<Call>)
  {
    forall i :: 0 <= i < |calls| ==> |calls[i].ok| == |calls[i].rules|
  }

  ghost function Step(parse: Parser, s: State, call: Call, snat: string): State
    requires |call.ok| == |call.rules|
  {
    State(Synced(parse, s.table, s.prev, call.rules, call.ok, call.failedDeletes, snat), Keys(parse, call.rules))
  }

  /** From an empty start, whatever calls fail. */
  ghost function After(parse: Parser, calls: seq<Call>, snat: string): State
    requires WellFormed(calls)
  {
    if calls == [] then State(map[], {})
    else Step(parse, After(parse, calls[..|calls| - 1], snat), calls[|calls| - 1], snat)
  }

  ghost predicate Lists(parse: Parser, call: Call, w: MapKey)
  {
    w in Wires(Keys(parse, call.rules))
  }

  /** An entry of the table that the server has forgotten. */
  ghost predicate Untracked(s: State, w: MapKey)
  {
    w in s.table && w !in Wires(s.prev)
  }

  lemma {:induction false} UpsertedOther(parse: Parser, table: map<MapKey, Value>, rules: seq<PolicyRule>,
                                         ok: seq<bool>, snat: string, w: MapKey)
    requires |ok| == |rules| && w !in Wires(Keys(parse, rules))
    ensures w in Upserted(parse, table, rules, ok, snat) <==> w in table
    ensures w in table ==> Upserted(parse, table, rules, ok, snat)[w] == table[w]
  {
    hide Wires;
    if rules != [] {
      var last := |rules| - 1;
      if Pushed(parse, rules[last]) {
        WiresAdd(Keys(parse, rules[..last]), RuleMapKey(parse, rules[last]));
      }
      UpsertedOther(parse, table, rules[..last], ok[..last], snat, w);
    }
  }

  /** A sync that does not list an entry keeps it, unchanged, if and only if every delete for
      it fails; what is kept is forgotten. */
  lemma UnlistedEntryIff(parse: Parser, s: State, call: Call, snat: string, w: MapKey)
    requires |call.ok| == |call.rules| && !Lists(parse, call, w)
    ensures var s' := Step(parse, s, call, snat);
            && (w in s'.table <==> w in s.table && forall k :: k in s.prev && Wire(k) == w ==> k in call.failedDeletes)
            && (w in s'.table ==> s'.table[w] == s.table[w] && Untracked(s', w))
  {
    hide Upserted, Keys, Wire;
    UpsertedOther(parse, s.table, call.rules, call.ok, snat, w);
    var keys := Keys(parse, call.rules);
    assert forall k :: k in keys ==> Wire(k) in Wires(keys);
  }

  /** A forgotten entry is never retried: over every run it stays in the table, unchanged, for
      as long as no list has it again. */
  lemma {:induction false} UntrackedStays(parse: Parser, calls: seq<Call>, snat: string, i: nat, j: nat, w: MapKey)
    requires WellFormed(calls) && i <= j <= |calls| && Untracked(After(parse, calls[..i], snat), w)
    requires forall n :: i <= n < j ==> !Lists(parse, calls[n], w)
    ensures var s, s' := After(parse, calls[..i], snat), After(parse, calls[..j], snat);
            Untracked(s', w) && s'.table[w] == s.table[w]
  {
    hide Step, Lists, Wires, Wire;
    if i < j {
      UntrackedStays(parse, calls, snat, i, j - 1, w);
      AfterNext(parse, calls, snat, j - 1);
      var s := After(parse, calls[..j - 1], snat);
      assert forall k :: k in s.prev && Wire(k) == w ==> k in calls[j - 1].failedDeletes by {
        WiresHave(s.prev, w);
      }
      UnlistedEntryIff(parse, s, calls[j - 1], snat, w);
    }
  }

  lemma WiresHave(keys: set<MapKey>, w: MapKey)
    ensures w in Wires(keys) <==> exists k :: k in keys && Wire(k) == w
  {}

  lemma AfterNext(parse: Parser, calls: seq<Call>, snat: string, j: nat)
    requires WellFormed(calls) && j < |calls|
    ensures After(parse, calls[..j + 1], snat) == Step(parse, After(parse, calls[..j], snat), calls[j], snat)
  {
    assert calls[..j + 1][..j] == calls[..j];
  }

  /** Two syncs from the start forget an entry: any rule is pushed, then a list without it
      fails to delete it. */
  lemma ForgottenRun(parse: Parser, r: PolicyRule, snat: string)
    requires Pushed(parse, r)
    ensures var k, calls := RuleMapKey(parse, r), [Call([r], [true], {}), Call([], [], {RuleMapKey(parse, r)})];
            WellFormed(calls) && Untracked(After(parse, calls, snat), Wire(k))
  {
    hide Wire, Synced;
    var k := RuleMapKey(parse, r);
    var calls := [Call([r], [true], {}), Call([], [], {k})];
    OneKey(parse, r);
    assert calls[..1] == [calls[0]] && calls[..0] == [] && calls[..2] == calls;
    AfterNext(parse, calls, snat, 0);
    AfterNext(parse, calls, snat, 1);
    var s := After(parse, calls[..1], snat);
    FirstPush(parse, r, snat);
    WiresNone(Keys(parse, []));
    UnlistedEntryIff(parse, s, calls[1], snat, Wire(k));
  }

  lemma FirstPush(parse: Parser, r: PolicyRule, snat: string)
    requires Pushed(parse, r)
    ensures Wire(RuleMapKey(parse, r)) in Step(parse, State(map[], {}), Call([r], [true], {}), snat).table
  {
    hide Wire;
    assert [r][..0] == [] && [true][..0] == [];
    WiresNone({} - Keys(parse, [r]) - {});
  }

  /** Once a list has the entry again, a later sync without it drops it if its deletes succeed. */
  lemma DroppedOnceListedAgain(parse: Parser, calls: seq<Call>, snat: string, j: nat, w: MapKey)
    requires WellFormed(calls) && 0 < j < |calls|
    requires Lists(parse, calls[j - 1], w) && !Lists(parse, calls[j], w)
    requires calls[j].failedDeletes !! Keys(parse, calls[j - 1].rules)
    ensures w !in After(parse, calls[..j + 1], snat).table
  {
    hide Synced, Keys, Wire;
    AfterNext(parse, calls, snat, j - 1);
    AfterNext(parse, calls, snat, j);
    var s := After(parse, calls[..j], snat);
    WiresHave(s.prev, w);
    UnlistedEntryIff(parse, s, calls[j], snat, w);
  }

  // ------------------------------------------------------------------ the manager's side

  /** The manager name of rule `i`. */
  function SyncName(i: nat): string
  {
    "np-cidr-" + Itoa(i)
  }

  function AsRule(i: nat, r: PolicyRule): Rule
  {
    Rule(SyncName(i), r.src, r.cidr, r.protocol, r.port, WireAction(r.action))
  }

  lemma SyncKeysDistinct(ns: string, i: nat, ns': string, j: nat)
    requires RuleKey(ns, SyncName(i)) == RuleKey(ns', SyncName(j))
    ensures ns == ns' && i == j
  {
    CutLast(ns, SyncName(i), ns', SyncName(j), '/');
    assert SyncName(i)[8..] == Itoa(i) && SyncName(j)[8..] == Itoa(j);
    ItoaInjective(i, j);
  }

  /** Rule `i` of the list is stored under its own name with its own key. */
  ghost predicate Stored(parse: Parser, rules: map<string, Compiled>, list: seq<PolicyRule>, i: nat)
    requires i < |list| && Pushed(parse, list[i])
  {
    var k := RuleKey(list[i].namespace, SyncName(i));
    k in rules && rules[k] == Compile(list[i].namespace, AsRule(i, list[i]), parse(list[i].cidr).value)
  }

  ghost predicate StoredUpTo(parse: Parser, rules: map<string, Compiled>, list: seq<PolicyRule>, n: nat)
    requires n <= |list|
  {
    forall i :: 0 <= i < n && Pushed(parse, list[i]) ==> Stored(parse, rules, list, i)
  }

  /** The keys of the rules the manager holds. */
  ghost predicate ManagerKeysAre(rules: map<string, Compiled>, keys: set<MapKey>)
  {
    && (forall k :: k in rules ==> KeyOf(rules[k].src, rules[k].dst) in keys)
    && (forall key :: key in keys ==> exists k :: k in rules && KeyOf(rules[k].src, rules[k].dst) == key)
  }

  lemma StoreKeepsStored(parse: Parser, rules: map<string, Compiled>, list: seq<PolicyRule>, n: nat)
    requires n < |list| && Pushed(parse, list[n]) && StoredUpTo(parse, rules, list, n)
    ensures StoredUpTo(parse, rules[RuleKey(list[n].namespace, SyncName(n)) :=
                              Compile(list[n].namespace, AsRule(n, list[n]), parse(list[n].cidr).value)], list, n + 1)
  {
    forall i | 0 <= i < n
      ensures RuleKey(list[i].namespace, SyncName(i)) != RuleKey(list[n].namespace, SyncName(n))
    {
      if RuleKey(list[i].namespace, SyncName(i)) == RuleKey(list[n].namespace, SyncName(n)) {
        SyncKeysDistinct(list[i].namespace, i, list[n].namespace, n);
      }
    }
  }

  lemma {:induction false} KeyHasRule(parse: Parser, list: seq<PolicyRule>, key: MapKey)
    requires key in Keys(parse, list)
    ensures exists i :: 0 <= i < |list| && Pushed(parse, list[i]) && RuleMapKey(parse, list[i]) == key
  {
    var last := |list| - 1;
    if key in Keys(parse, list[..last]) {
      KeyHasRule(parse, list[..last], key);
    }
  }

  // ------------------------------------------------------------------ the manager's rules

  /** The manager's rules after the upsert loop. */
  ghost function Added(parse: Parser, rules: map<string, Compiled>, list: seq<PolicyRule>): map<string, Compiled>
  {
    if list == [] then rules
    else
      var last := |list| - 1;
      var before, r := Added(parse, rules, list[..last]), list[last];
      if Pushed(parse, r) then
        before[RuleKey(r.namespace, SyncName(last)) := Compile(r.namespace, AsRule(last, r), parse(r.cidr).value)]
      else before
  }

  /** The manager's rules whose key is in `keys`, whoever added them. */
  ghost function Pruned(rules: map<string, Compiled>, keys: set<MapKey>): map<string, Compiled>
  {
    map k | k in rules && KeyOf(rules[k].src, rules[k].dst) in keys :: rules[k]
  }

  lemma {:induction false} AddedStored(parse: Parser, rules: map<string, Compiled>, list: seq<PolicyRule>, n: nat)
    requires n <= |list|
    ensures StoredUpTo(parse, Added(parse, rules, list[..n]), list, n)
  {
    hide Stored;
    if n > 0 {
      AddedStored(parse, rules, list, n - 1);
      assert list[..n][..n - 1] == list[..n - 1];
      if Pushed(parse, list[n - 1]) {
        StoreKeepsStored(parse, Added(parse, rules, list[..n - 1]), list, n - 1);
      }
    }
  }

  /** After a sync the manager's rules have exactly the keys of the list. */
  lemma SyncedManagerKeys(parse: Parser, rules: map<string, Compiled>, list: seq<PolicyRule>)
    ensures ManagerKeysAre(Pruned(Added(parse, rules, list), Keys(parse, list)), Keys(parse, list))
  {
    hide Added, Keys;
    var added, keys := Added(parse, rules, list), Keys(parse, list);
    AddedStored(parse, rules, list, |list|);
    assert list[..|list|] == list;
    forall key | key in keys
      ensures exists k ::
                k in Pruned(added, keys) && KeyOf(Pruned(added, keys)[k].src, Pruned(added, keys)[k].dst) == key
    {
      KeyHasRule(parse, list, key);
      var i :| 0 <= i < |list| && Pushed(parse, list[i]) && RuleMapKey(parse, list[i]) == key;
      assert Stored(parse, added, list, i);
      assert RuleKey(list[i].namespace, SyncName(i)) in Pruned(added, keys);
    }
  }

  /** Every CIDR rule of the list is in the manager after a sync, under its namespace and
      position and with its own fields. */
  lemma SyncedManagerInWords(parse: Parser, rules: map<string, Compiled>, list: seq<PolicyRule>, i: nat)
    requires i < |list| && list[i].cidr != "" && parse(list[i].cidr).Some?
    ensures var synced, r, key := Pruned(Added(parse, rules, list), Keys(parse, list)), list[i],
              list[i].namespace + "/np-cidr-" + Itoa(i);
            && key in synced && synced[key].namespace == r.namespace && synced[key].src == r.src
            && synced[key].dst == parse(r.cidr).value && synced[key].protocol == r.protocol
            && synced[key].port == r.port && synced[key].action == if r.action == 1 then 1 else 0
  {
    hide Added, Keys;
    AddedStored(parse, rules, list, |list|);
    assert list[..|list|] == list;
    assert Stored(parse, Added(parse, rules, list), list, i);
    KeyIsListed(parse, list, i);
    assert list[i].namespace + "/np-cidr-" + Itoa(i) == RuleKey(list[i].namespace, SyncName(i));
  }

  lemma {:induction false} KeyIsListed(parse: Parser, list: seq<PolicyRule>, i: nat)
    requires i < |list| && Pushed(parse, list[i])
    ensures RuleMapKey(parse, list[i]) in Keys(parse, list)
  {
    if i < |list| - 1 {
      KeyIsListed(parse, list[..|list| - 1], i);
    }
  }

  /** The state of the upsert loop before its first rule. */
  lemma NoneYet(parse: Parser, table: map<MapKey, Value>, rules: map<string, Compiled>, list: seq<PolicyRule>,
                ok: seq<bool>, snat: string)
    requires |ok| == |list|
    ensures Keys(parse, list[..0]) == {}
    ensures Upserted(parse, table, list[..0], ok[..0], snat) == table
    ensures Added(parse, rules, list[..0]) == rules
  {}

  /** What rule `i` adds to it. */
  lemma OneMore(parse: Parser, table: map<MapKey, Value>, rules: map<string, Compiled>, list: seq<PolicyRule>,
                ok: seq<bool>, snat: string, i: nat)
    requires i < |list| == |ok|
    ensures var r, before := list[i], Upserted(parse, table, list[..i], ok[..i], snat);
            Upserted(parse, table, list[..i + 1], ok[..i + 1], snat) ==
            if Pushed(parse, r) && ok[i] then before[Wire(RuleMapKey(parse, r)) := RuleValue(r, snat)] else before
    ensures var r := list[i];
            Keys(parse, list[..i + 1]) ==
            Keys(parse, list[..i]) + if Pushed(parse, r) then {RuleMapKey(parse, r)} else {}
    ensures var r, before := list[i], Added(parse, rules, list[..i]);
            Added(parse, rules, list[..i + 1]) ==
            if Pushed(parse, r) then
              before[RuleKey(r.namespace, SyncName(i)) := Compile(r.namespace, AsRule(i, r), parse(r.cidr).value)]
            else before
  {
    assert list[..i + 1][..i] == list[..i] && ok[..i + 1][..i] == ok[..i];
  }

  class Syncer {
    const mgr: Manager
    const nodeIP: string
    var prev: set<MapKey>
    var table: map<MapKey, Value>  // the dataplane's EGRESS_POLICIES map

    ghost predicate Valid()
      reads this, mgr
    {
      mgr.Valid()
    }

    constructor (mgr: Manager, nodeIP: string)
      requires mgr.Valid()
      ensures Valid() && this.mgr == mgr && prev == {} && table == map[]
    {
      this.mgr := mgr;
      this.nodeIP := nodeIP;
      prev, table := {}, map[];
    }

    /** The upsert loop. */
    method PushRules(rules: seq<PolicyRule>, ok: seq<bool>) returns (newKeys: set<MapKey>)
      requires Valid() && |ok| == |rules|
      modifies this`table, mgr`rules
      ensures Valid()
      ensures newKeys == Keys(mgr.parse, rules)
      ensures table == Upserted(mgr.parse, old(table), rules, ok, if mgr.masquerade then nodeIP else "")
      ensures mgr.rules == Added(mgr.parse, old(mgr.rules), rules)
    {
      hide Keys, Upserted, Added;
      newKeys := {};
      var snat := if mgr.masquerade then nodeIP else "";
      NoneYet(mgr.parse, table, mgr.rules, rules, ok, snat);
      for i := 0 to |rules|
        invariant Valid() && mgr.masquerade == old(mgr.masquerade)
        invariant newKeys == Keys(mgr.parse, rules[..i])
        invariant table == Upserted(mgr.parse, old(table), rules[..i], ok[..i], snat)
        invariant mgr.rules == Added(mgr.parse, old(mgr.rules), rules[..i])
      {
        var r := rules[i];
        OneMore(mgr.parse, old(table), old(mgr.rules), rules, ok, snat, i);
        if r.cidr == "" {
          continue;
        }
        var net := mgr.parse(r.cidr);
        if net.None? {
          continue;
        }
        var action := ACTION_DENY;
        if r.action == ACTION_ALLOW {
          action := ACTION_ALLOW;
        }
        var key := MapKey(r.src, net.value.text, net.value.prefixLen);
        newKeys := newKeys + {key};
        var name := "np-cidr-" + Itoa(i);
        var added := mgr.AddEgressRule(r.namespace, Rule(name, r.src, r.cidr, r.protocol, r.port, action));
        if ok[i] {
          var wire := MapKey(r.src % 0x1_0000_0000, net.value.text, net.value.prefixLen);
          table := table[wire := Value(r.protocol, r.port, action, snat)];
        }
      }
      assert rules[..|rules|] == rules && ok[..|ok|] == ok;
    }

    /** The loop over previously pushed keys. */
    method DropStale(newKeys: set<MapKey>, failedDeletes: set<MapKey>)
      modifies this`table
      ensures table == old(table) - Wires(prev - newKeys - failedDeletes)
    {
      hide Wires, Wire;
      var todo := prev;
      WiresNone(prev - todo - (newKeys + failedDeletes));
      while todo != {}
        invariant todo <= prev
        invariant table == old(table) - Wires(prev - todo - (newKeys + failedDeletes))
        decreases |todo|
      {
        var k :| k in todo;
        StaleAdd(prev, todo, newKeys + failedDeletes, k);
        if k !in newKeys && k !in failedDeletes {
          var wire := MapKey(k.src % 0x1_0000_0000, k.cidr, k.prefixLen);
          WireIs(k, wire);
          table := table - {wire};
        }
        todo := todo - {k};
      }
      assert prev - {} - (newKeys + failedDeletes) == prev - newKeys - failedDeletes;
    }

    /** The loop over the manager's rules. */
    method PruneManager(newKeys: set<MapKey>)
      requires Valid()
      modifies mgr`rules
      ensures Valid()
      ensures mgr.rules == Pruned(old(mgr.rules), newKeys)
    {
      var existing := mgr.GetRules();
      ghost var before := mgr.rules;
      for i := 0 to |existing|
        invariant Valid()
        invariant forall k :: k in mgr.rules ==> k in before && mgr.rules[k] == before[k]
        invariant forall k :: k in before && KeyOf(before[k].src, before[k].dst) in newKeys ==> k in mgr.rules
        invariant forall k :: k in mgr.rules && mgr.rules[k] in existing[..i] ==>
                  KeyOf(before[k].src, before[k].dst) in newKeys
      {
        var c := existing[i];
        assert c in existing;
        ghost var at :| at in before && before[at] == c;
        assert at == RuleKey(c.namespace, c.name);
        if MapKey(c.src, c.dst.text, c.dst.prefixLen) !in newKeys {
          mgr.RemoveEgressRule(c.namespace, c.name);
        }
        assert existing[..i + 1] == existing[..i] + [c];
        assert forall k :: k in mgr.rules && mgr.rules[k] == c ==> k == RuleKey(c.namespace, c.name);
      }
      assert existing[..|existing|] == existing;
    }

    /** `SyncEgressRules` with the outcome of every call: afterwards the tracked keys are those
        of the list, and the table and the manager's rules are as specified. */
    method SyncEgressRules(rules: seq<PolicyRule>, ok: seq<bool>, failedDeletes: set<MapKey>)
      requires Valid() && |ok| == |rules|
      modifies this, mgr`rules
      ensures Valid()
      ensures prev == Keys(mgr.parse, rules)
      ensures var snat := if mgr.masquerade then nodeIP else "";
              table == Synced(mgr.parse, old(table), old(prev), rules, ok, failedDeletes, snat)
      ensures mgr.rules == Pruned(Added(mgr.parse, old(mgr.rules), rules), Keys(mgr.parse, rules))
    {
      hide Keys, Added, Pruned, Upserted, Wires;
      var newKeys := PushRules(rules, ok);
      DropStale(newKeys, failedDeletes);
      prev := newKeys;
      PruneManager(newKeys);
    }
  }
}
