/**
 The egress gateway reconciler (internal/egressgateway/reconciler.go): each policy owns the
 manager rules of its namespace whose name starts with `egp-<policy>-`, and a reconcile
 replaces them with one rule per destination and matching identity.
 */
module EgressGateway {
  import opened Prelude
  import opened Text
  import opened EgressManager
  import S = EgressSync

  datatype Policy = Policy(namespace: string, name: string, dests: seq<string>, excluded: seq<string>, egressIP: string)

  datatype Tracked = Tracked(policy: Policy, dests: seq<string>, nodes: seq<string>, active: string)

  datatype Error = NoGatewayNodes | InvalidDestination | InvalidExclusion | InvalidSelector | AddFailed

  datatype Outcome = Done | Failed(error: Error)

  const ALL_IPV4 := "0.0.0.0/0"

  // ------------------------------------------------------------------ names

  function Prefix(name: string): string
  {
    "egp-" + name + "-"
  }

  function RuleName(name: string, gateway: string, i: nat, j: nat): string
  {
    Prefix(name) + gateway + "-" + Itoa(i) + "-" + Itoa(j)
  }

  function WildName(name: string, gateway: string, i: nat): string
  {
    Prefix(name) + gateway + "-" + Itoa(i)
  }

  predicate HasPrefix(s: string, prefix: string)
  {
    |s| >= |prefix| && s[..|prefix|] == prefix
  }

  lemma PrefixOfName(name: string, gateway: string, i: nat, j: nat)
    ensures HasPrefix(RuleName(name, gateway, i, j), Prefix(name))
    ensures HasPrefix(WildName(name, gateway, i), Prefix(name))
  {
    var rest := gateway + "-" + Itoa(i) + "-" + Itoa(j);
    assert RuleName(name, gateway, i, j) == Prefix(name) + rest;
    assert WildName(name, gateway, i) == Prefix(name) + (gateway + "-" + Itoa(i));
  }

  /** The names of one reconcile are pairwise distinct. */
  lemma NamesDistinct(name: string, gateway: string, i: nat, j: nat, i': nat, j': nat)
    ensures RuleName(name, gateway, i, j) == RuleName(name, gateway, i', j') ==> i == i' && j == j'
    ensures WildName(name, gateway, i) == WildName(name, gateway, i') ==> i == i'
  {
    var head := Prefix(name) + gateway + "-";
    if RuleName(name, gateway, i, j) == RuleName(name, gateway, i', j') {
      assert RuleName(name, gateway, i, j) == (head + Itoa(i)) + ['-'] + Itoa(j);
      assert RuleName(name, gateway, i', j') == (head + Itoa(i')) + ['-'] + Itoa(j');
      CutLast(head + Itoa(i), Itoa(j), head + Itoa(i'), Itoa(j'), '-');
      ItoaInjective(j, j');
      SameTail(head, Itoa(i), Itoa(i'));
      ItoaInjective(i, i');
    }
    if WildName(name, gateway, i) == WildName(name, gateway, i') {
      SameTail(head, Itoa(i), Itoa(i'));
      ItoaInjective(i, i');
    }
  }

  lemma SameTail(head: string, a: string, b: string)
    requires head + a == head + b
    ensures a == b
  {
    assert (head + a)[|head|..] == a && (head + b)[|head|..] == b;
  }

  /** Two policy names whose rule names cannot be told apart by prefix. */
  predicate Confusable(p: string, q: string)
  {
    p == q || p + ['-'] <= q || q + ['-'] <= p
  }

  /** A rule name with both prefixes exists only for confusable policies. */
  lemma BothPrefixes(s: string, p: string, q: string)
    requires HasPrefix(s, Prefix(p)) && HasPrefix(s, Prefix(q))
    ensures Confusable(p, q)
  {
    if |p| <= |q| {
      PrefixNests(s, p, q);
    } else {
      PrefixNests(s, q, p);
    }
  }

  lemma PrefixNests(s: string, p: string, q: string)
    requires |p| <= |q| && HasPrefix(s, Prefix(p)) && HasPrefix(s, Prefix(q))
    ensures p == q || p + ['-'] <= q
  {
    assert s[4..4 + |p|] == p by { assert s[..|Prefix(p)|][4..4 + |p|] == p; }
    assert s[4..4 + |q|] == q by { assert s[..|Prefix(q)|][4..4 + |q|] == q; }
    assert s[4 + |p|] == '-' by { assert s[..|Prefix(p)|][4 + |p|] == '-'; }
    if |p| < |q| {
      assert q[..|p|] == p && q[|p|] == '-';
      assert q[..|p| + 1] == p + ['-'];
    } else {
      assert p == q;
    }
  }

  /** Deleting policy `p` can reach a rule of policy `q`, for some non-empty gateway name and
      indices, exactly when the names are confusable. */
  lemma ReachesIffConfusable(p: string, q: string)
    ensures Confusable(p, q) <==>
            exists gateway, i, j :: gateway != "" && HasPrefix(RuleName(q, gateway, i, j), Prefix(p))
  {
    if Confusable(p, q) {
      var _ := ReachingGateway(p, q);
    } else {
      forall gateway, i, j | HasPrefix(RuleName(q, gateway, i, j), Prefix(p))
        ensures false
      {
        PrefixOfName(q, gateway, i, j);
        BothPrefixes(RuleName(q, gateway, i, j), p, q);
      }
    }
  }

  lemma ReachingGateway(p: string, q: string) returns (gateway: string)
    requires Confusable(p, q)
    ensures gateway != "" && HasPrefix(RuleName(q, gateway, 0, 0), Prefix(p))
  {
    if p == q || p + ['-'] <= q {
      gateway := "n";
      PrefixOfName(q, gateway, 0, 0);
      var s := RuleName(q, gateway, 0, 0);
      assert s[..|Prefix(p)|] == s[..|Prefix(q)|][..|Prefix(p)|];
      assert Prefix(q)[..|Prefix(p)|] == Prefix(p);
    } else {
      var rest := p[|q| + 1..];
      assert p == q + ['-'] + rest;
      if rest == "" {
        gateway := "-";
        assert RuleName(q, gateway, 0, 0) == Prefix(p) + ("-" + Itoa(0) + "-" + Itoa(0));
      } else {
        gateway := rest;
        assert RuleName(q, gateway, 0, 0) == Prefix(p) + (Itoa(0) + "-" + Itoa(0));
      }
    }
  }

  // ------------------------------------------------------------------ ownership

  predicate Owns(namespace: string, name: string, c: Compiled)
  {
    c.namespace == namespace && HasPrefix(c.name, Prefix(name))
  }

  /** The rules a policy owns. */
  ghost function Owned(rules: map<string, Compiled>, namespace: string, name: string): map<string, Compiled>
  {
    map k | k in rules && Owns(namespace, name, rules[k]) :: rules[k]
  }

  /** What `removeRulesForPolicy` leaves. */
  ghost function Without(rules: map<string, Compiled>, namespace: string, name: string): map<string, Compiled>
  {
    map k | k in rules && !Owns(namespace, name, rules[k]) :: rules[k]
  }

  /** The input of one reconcile once it is validated. */
  datatype Job = Job(namespace: string, name: string, gateway: string, dests: seq<string>, ids: seq<nat>)

  function Cell(parse: Parser, job: Job, i: nat, j: nat): Compiled
    requires i < |job.dests| && j < |job.ids| && parse(job.dests[i]).Some?
  {
    var dst := parse(job.dests[i]).value;
    Compiled(job.namespace, RuleName(job.name, job.gateway, i, j), job.ids[j], dst, 0, 0, ACTION_SNAT)
  }

  function WildCell(parse: Parser, job: Job, i: nat): Compiled
    requires i < |job.dests| && parse(job.dests[i]).Some?
  {
    Compiled(job.namespace, WildName(job.name, job.gateway, i), 0, parse(job.dests[i]).value, 0, 0, ACTION_SNAT)
  }

  ghost predicate Parseable(parse: Parser, cidrs: seq<string>)
  {
    forall i :: 0 <= i < |cidrs| ==> parse(cidrs[i]).Some?
  }

  /** `c` is one of the rules the job asks for, from the first `rows` destinations and, of
      the next, the first `cols` identities. */
  ghost predicate Asked(parse: Parser, job: Job, rows: nat, cols: nat, c: Compiled)
    requires Parseable(parse, job.dests) && rows <= |job.dests| && cols <= |job.ids|
  {
    exists i: nat, j: nat ::
      i < |job.dests| && j < |job.ids| && (i < rows || (i == rows && j < cols)) && c == Cell(parse, job, i, j)
  }

  ghost predicate AskedWild(parse: Parser, job: Job, rows: nat, c: Compiled)
    requires Parseable(parse, job.dests) && rows <= |job.dests|
  {
    exists i: nat :: i < rows && c == WildCell(parse, job, i)
  }

  /** `c` is among the rules the policy owns. */
  ghost predicate Has(rules: map<string, Compiled>, namespace: string, name: string, c: Compiled)
  {
    Owns(namespace, name, c) && exists k :: k in rules && rules[k] == c
  }

  /** Namespaces are Kubernetes names, which have no slash. */
  ghost predicate SlashFree(rules: map<string, Compiled>)
  {
    forall k :: k in rules ==> '/' !in rules[k].namespace
  }

  /** Filing one more rule of a policy, under a name it does not use yet. */
  lemma AddOwned(rules: map<string, Compiled>, namespace: string, name: string, c: Compiled)
    requires Filed(rules) && SlashFree(rules) && '/' !in namespace && Owns(namespace, name, c)
    requires forall k :: k in rules && Owns(namespace, name, rules[k]) ==> rules[k].name != c.name
    ensures var rules' := rules[RuleKey(namespace, c.name) := c];
            && SlashFree(rules') && OthersFrom(rules', rules, namespace, name)
            && forall d :: Has(rules', namespace, name, d) <==> Has(rules, namespace, name, d) || d == c
  {
    var key := RuleKey(namespace, c.name);
    var rules' := rules[key := c];
    if key in rules {
      RuleKeyInjective(namespace, c.name, rules[key].namespace, rules[key].name);
    }
    assert key !in rules;
    forall d
      ensures Has(rules', namespace, name, d) <==> Has(rules, namespace, name, d) || d == c
    {
      assert rules'[key] == c;
      assert forall k :: k in rules ==> rules'[k] == rules[k];
    }
    assert Without(rules', namespace, name) == Without(rules, namespace, name);
  }

  lemma HasIt(rules: map<string, Compiled>, namespace: string, name: string, k: string)
    requires k in rules && Owns(namespace, name, rules[k])
    ensures Has(rules, namespace, name, rules[k])
  {}

  lemma AskedNext(parse: Parser, job: Job, i: nat, j: nat, c: Compiled)
    requires Parseable(parse, job.dests) && i < |job.dests| && j < |job.ids|
    ensures Asked(parse, job, i, j + 1, c) <==> Asked(parse, job, i, j, c) || c == Cell(parse, job, i, j)
  {}

  lemma AskedRow(parse: Parser, job: Job, i: nat, c: Compiled)
    requires Parseable(parse, job.dests) && i < |job.dests|
    ensures Asked(parse, job, i + 1, 0, c) <==> Asked(parse, job, i, |job.ids|, c)
  {}

  lemma CellIsNew(parse: Parser, job: Job, i: nat, j: nat, c: Compiled)
    requires Parseable(parse, job.dests) && i < |job.dests| && j < |job.ids|
    requires Asked(parse, job, i, j, c)
    ensures c.name != Cell(parse, job, i, j).name
  {
    var i': nat, j': nat :|
        i' < |job.dests| && j' < |job.ids| && (i' < i || (i' == i && j' < j)) && c == Cell(parse, job, i', j');
    NamesDistinct(job.name, job.gateway, i', j', i, j);
  }

  lemma WildIsNew(parse: Parser, job: Job, i: nat, c: Compiled)
    requires Parseable(parse, job.dests) && i < |job.dests|
    requires AskedWild(parse, job, i, c)
    ensures c.name != WildCell(parse, job, i).name
  {
    var i': nat :| i' < i && c == WildCell(parse, job, i');
    NamesDistinct(job.name, job.gateway, i', 0, i, 0);
  }

  /** The policy owns exactly the rules its job asks for: the product of destinations and
      identities, or one wildcard rule per destination when no identity matches. */
  ghost predicate OwnsExactly(parse: Parser, rules: map<string, Compiled>, job: Job)
    requires Parseable(parse, job.dests)
  {
    forall c :: Has(rules, job.namespace, job.name, c) <==>
      if job.ids == [] then AskedWild(parse, job, |job.dests|, c) else Asked(parse, job, |job.dests|, 0, c)
  }

  /** Everything not owned by the policy is as in `base`. */
  ghost predicate OthersFrom(rules: map<string, Compiled>, base: map<string, Compiled>, namespace: string, name: string)
  {
    Without(rules, namespace, name) == Without(base, namespace, name)
  }

  class Reconciler {
    const mgr: Manager
    var policies: map<string, Tracked>

    ghost predicate Valid()
      reads this, mgr
    {
      mgr.Valid() && SlashFree(mgr.rules) && mgr.parse(ALL_IPV4).Some?
    }

    constructor (mgr: Manager)
      requires mgr.Valid() && SlashFree(mgr.rules) && mgr.parse(ALL_IPV4).Some?
      ensures Valid() && this.mgr == mgr && policies == map[]
    {
      this.mgr := mgr;
      policies := map[];
    }

    method RemoveRulesForPolicy(namespace: string, name: string)
      requires Valid()
      modifies mgr`rules
      ensures Valid()
      ensures mgr.rules == Without(old(mgr.rules), namespace, name)
    {
      var prefix := "egp-" + name + "-";
      var rules := mgr.GetRules();
      ghost var before := mgr.rules;
      for i := 0 to |rules|
        invariant Valid()
        invariant forall k :: k in mgr.rules ==> k in before && mgr.rules[k] == before[k]
        invariant forall k :: k in before && !Owns(namespace, name, before[k]) ==> k in mgr.rules
        invariant forall k :: k in mgr.rules && mgr.rules[k] in rules[..i] ==> !Owns(namespace, name, before[k])
      {
        var c := rules[i];
        assert c in rules;
        ghost var at :| at in before && before[at] == c;
        assert at == RuleKey(c.namespace, c.name);
        if c.namespace == namespace && |c.name| >= |prefix| && c.name[..|prefix|] == prefix {
          mgr.RemoveEgressRule(namespace, c.name);
        }
        assert rules[..i + 1] == rules[..i] + [c];
        assert forall k :: k in mgr.rules && mgr.rules[k] == c ==> k == RuleKey(c.namespace, c.name);
      }
      assert rules[..|rules|] == rules;
    }

    /** Removes the policy's rules and forgets it; nothing else changes. */
    method Delete(namespace: string, name: string)
      requires Valid()
      modifies this`policies, mgr`rules
      ensures Valid()
      ensures mgr.rules == Without(old(mgr.rules), namespace, name)
      ensures policies == old(policies) - {RuleKey(namespace, name)}
      ensures Next(mgr.parse, old(mgr.rules), Deleting(namespace, name), mgr.rules)
    {
      RemoveRulesForPolicy(namespace, name);
      policies := policies - {namespace + "/" + name};
    }

    method Validate(cidrs: seq<string>) returns (ok: bool)
      ensures ok <==> Parseable(mgr.parse, cidrs)
    {
      for i := 0 to |cidrs|
        invariant Parseable(mgr.parse, cidrs[..i])
      {
        if mgr.parse(cidrs[i]).None? {
          return false;
        }
      }
      assert cidrs[..|cidrs|] == cidrs;
      return true;
    }

    /** One rule per destination and identity. */
    method AddProduct(job: Job)
      requires Valid() && '/' !in job.namespace && Parseable(mgr.parse, job.dests)
      requires forall c :: !Has(mgr.rules, job.namespace, job.name, c)
      modifies mgr`rules
      ensures Valid() && OthersFrom(mgr.rules, old(mgr.rules), job.namespace, job.name)
      ensures forall c :: Has(mgr.rules, job.namespace, job.name, c) <==> Asked(mgr.parse, job, |job.dests|, 0, c)
    {
      hide Asked, Has, Owns, Without;
      forall c
        ensures !Asked(mgr.parse, job, 0, 0, c)
      {
        NothingAsked(mgr.parse, job, c);
      }
      for i := 0 to |job.dests|
        invariant Valid() && OthersFrom(mgr.rules, old(mgr.rules), job.namespace, job.name)
        invariant forall c :: Has(mgr.rules, job.namespace, job.name, c) <==> Asked(mgr.parse, job, i, 0, c)
      {
        for j := 0 to |job.ids|
          invariant Valid() && OthersFrom(mgr.rules, old(mgr.rules), job.namespace, job.name)
          invariant forall c :: Has(mgr.rules, job.namespace, job.name, c) <==> Asked(mgr.parse, job, i, j, c)
        {
          CellStep(mgr.parse, mgr.rules, job, i, j);
          var name := "egp-" + job.name + "-" + job.gateway + "-" + Itoa(i) + "-" + Itoa(j);
          var rule := Rule(name, job.ids[j], job.dests[i], 0, 0, ACTION_SNAT);
          var ok := mgr.AddEgressRule(job.namespace, rule);
          assert ok;
        }
        forall c
          ensures Asked(mgr.parse, job, i + 1, 0, c) <==> Asked(mgr.parse, job, i, |job.ids|, c)
        {
          AskedRow(mgr.parse, job, i, c);
        }
      }
    }

    /** One wildcard rule per destination, for when no identity matches yet. */
    method AddWildcards(job: Job)
      requires Valid() && '/' !in job.namespace && Parseable(mgr.parse, job.dests)
      requires forall c :: !Has(mgr.rules, job.namespace, job.name, c)
      modifies mgr`rules
      ensures Valid() && OthersFrom(mgr.rules, old(mgr.rules), job.namespace, job.name)
      ensures forall c :: Has(mgr.rules, job.namespace, job.name, c) <==> AskedWild(mgr.parse, job, |job.dests|, c)
    {
      hide AskedWild, Has, Owns, Without;
      forall c
        ensures !AskedWild(mgr.parse, job, 0, c)
      {
        NothingAsked(mgr.parse, job, c);
      }
      for i := 0 to |job.dests|
        invariant Valid() && OthersFrom(mgr.rules, old(mgr.rules), job.namespace, job.name)
        invariant forall c :: Has(mgr.rules, job.namespace, job.name, c) <==> AskedWild(mgr.parse, job, i, c)
      {
        WildStep(mgr.parse, mgr.rules, job, i);
        var name := "egp-" + job.name + "-" + job.gateway + "-" + Itoa(i);
        var rule := Rule(name, 0, job.dests[i], 0, 0, ACTION_SNAT);
        var ok := mgr.AddEgressRule(job.namespace, rule);
        assert ok;
      }
    }

    /** All or nothing: on an error no rule and no tracked policy changes; otherwise the
        policy owns exactly what the job asks for and other rules are untouched.  `ids` are
        the matching identities in the arbitrary order of a map; `selectorOk` is whether the
        pod selector parses. */
    method Reconcile(policy: Policy, nodes: seq<string>, ids: seq<nat>, selectorOk: bool) returns (r: Outcome)
      requires Valid() && '/' !in policy.namespace
      modifies this`policies, mgr`rules
      ensures Valid()
      ensures r.Done? <==> Accepted(mgr.parse, policy, nodes, selectorOk)
      ensures Next(mgr.parse, old(mgr.rules), Reconciling(policy, nodes, ids, selectorOk), mgr.rules)
      ensures r.Failed? ==> mgr.rules == old(mgr.rules) && policies == old(policies)
      ensures r.Failed? ==> r.error == (if nodes == [] then NoGatewayNodes
                                        else if !Parseable(mgr.parse, policy.dests) then InvalidDestination
                                        else if !Parseable(mgr.parse, policy.excluded) then InvalidExclusion
                                        else InvalidSelector)
      ensures r.Done? ==>
                && Parseable(mgr.parse, JobOf(policy, nodes, ids).dests)
                && OwnsExactly(mgr.parse, mgr.rules, JobOf(policy, nodes, ids))
                && OthersFrom(mgr.rules, old(mgr.rules), policy.namespace, policy.name)
                && policies == old(policies)[RuleKey(policy.namespace, policy.name) :=
                     Tracked(policy, JobOf(policy, nodes, ids).dests, Sort(nodes), Sort(nodes)[0])]
      ensures r.Done? ==>
                && OwnsWhatItSays(mgr.parse, mgr.rules, policy, ids)
                && forall d :: d in policies[policy.namespace + "/" + policy.name].dests <==> IsDestination(policy, d)
    {
      hide Asked, AskedWild, Has, Owns;
      if nodes == [] {
        return Failed(NoGatewayNodes);
      }
      var ok := Validate(policy.dests);
      if !ok {
        return Failed(InvalidDestination);
      }
      ok := Validate(policy.excluded);
      if !ok {
        return Failed(InvalidExclusion);
      }
      var sorted := Sort(nodes);
      var active := sorted[0];
      if !selectorOk {
        return Failed(InvalidSelector);
      }
      RemoveRulesForPolicy(policy.namespace, policy.name);
      Cleared(old(mgr.rules), policy.namespace, policy.name);
      var dests := policy.dests;
      if |dests| == 0 {
        dests := ["0.0.0.0/0"];
      }
      var job := Job(policy.namespace, policy.name, active, dests, ids);
      assert Parseable(mgr.parse, job.dests);
      if ids != [] {
        AddProduct(job);
      } else {
        AddWildcards(job);
      }
      policies := policies[policy.namespace + "/" + policy.name := Tracked(policy, dests, sorted, active)];
      OwnedInWords(mgr.parse, mgr.rules, policy, nodes, ids);
      return Done;
    }
  }

  ghost predicate Accepted(parse: Parser, policy: Policy, nodes: seq<string>, selectorOk: bool)
  {
    nodes != [] && Parseable(parse, policy.dests) && Parseable(parse, policy.excluded) && selectorOk
  }

  /** What an accepted reconcile works on: the first node in sorted order, and all of IPv4
      when no destination is given. */
  function JobOf(policy: Policy, nodes: seq<string>, ids: seq<nat>): Job
    requires nodes != []
  {
    Job(policy.namespace, policy.name, Sort(nodes)[0], if policy.dests == [] then [ALL_IPV4] else policy.dests, ids)
  }

  /** A destination of the policy, or all of IPv4 when it names none. */
  ghost predicate IsDestination(policy: Policy, d: string)
  {
    d in policy.dests || (policy.dests == [] && d == "0.0.0.0/0")
  }

  /** A matching identity, or the wildcard when there is none. */
  ghost predicate IsSource(ids: seq<nat>, id: nat)
  {
    id in ids || (ids == [] && id == 0)
  }

  /** The rule translates addresses from `id` to destination `d`, whatever protocol and port. */
  ghost predicate Translates(parse: Parser, c: Compiled, id: nat, d: string)
  {
    c.src == id && parse(d) == Some(c.dst) && c.protocol == 0 && c.port == 0 && c.action == 2
  }

  /** In the policy's own words: each rule it owns translates from one of its sources to one of
      its destinations, and every such pair has a rule. */
  ghost predicate OwnsWhatItSays(parse: Parser, rules: map<string, Compiled>, policy: Policy, ids: seq<nat>)
  {
    && (forall c :: Has(rules, policy.namespace, policy.name, c) ==>
          exists d :: IsDestination(policy, d) && IsSource(ids, c.src) && Translates(parse, c, c.src, d))
    && (forall d, id :: IsDestination(policy, d) && IsSource(ids, id) ==>
          exists c :: Has(rules, policy.namespace, policy.name, c) && Translates(parse, c, id, d))
  }

  lemma OwnedInWords(parse: Parser, rules: map<string, Compiled>, policy: Policy, nodes: seq<string>, ids: seq<nat>)
    requires nodes != [] && Parseable(parse, JobOf(policy, nodes, ids).dests)
    requires OwnsExactly(parse, rules, JobOf(policy, nodes, ids))
    ensures OwnsWhatItSays(parse, rules, policy, ids)
  {
    hide Has, Sort, RuleName, WildName;
    var job := JobOf(policy, nodes, ids);
    forall c | Has(rules, policy.namespace, policy.name, c)
      ensures exists d :: IsDestination(policy, d) && IsSource(ids, c.src) && Translates(parse, c, c.src, d)
    {
      if ids == [] {
        var i: nat :| i < |job.dests| && c == WildCell(parse, job, i);
        assert IsDestination(policy, job.dests[i]) && Translates(parse, c, c.src, job.dests[i]);
      } else {
        var i: nat, j: nat :| i < |job.dests| && j < |job.ids| && c == Cell(parse, job, i, j);
        assert IsDestination(policy, job.dests[i]) && Translates(parse, c, c.src, job.dests[i]);
      }
    }
    forall d, id | IsDestination(policy, d) && IsSource(ids, id)
      ensures exists c :: Has(rules, policy.namespace, policy.name, c) && Translates(parse, c, id, d)
    {
      assert d in job.dests;
      var i: nat :| i < |job.dests| && job.dests[i] == d;
      if ids == [] {
        var c := WildCell(parse, job, i);
        assert AskedWild(parse, job, |job.dests|, c);
        assert Has(rules, policy.namespace, policy.name, c) && Translates(parse, c, id, d);
      } else {
        var j: nat :| j < |ids| && ids[j] == id;
        var c := Cell(parse, job, i, j);
        assert Asked(parse, job, |job.dests|, 0, c);
        assert Has(rules, policy.namespace, policy.name, c) && Translates(parse, c, id, d);
      }
    }
  }

  lemma Cleared(rules: map<string, Compiled>, namespace: string, name: string)
    ensures forall c :: !Has(Without(rules, namespace, name), namespace, name, c)
    ensures Without(Without(rules, namespace, name), namespace, name) == Without(rules, namespace, name)
  {}

  lemma NothingAsked(parse: Parser, job: Job, c: Compiled)
    requires Parseable(parse, job.dests)
    ensures !Asked(parse, job, 0, 0, c) && !AskedWild(parse, job, 0, c)
  {}

  lemma CellStep(parse: Parser, rules: map<string, Compiled>, job: Job, i: nat, j: nat)
    requires Filed(rules) && SlashFree(rules) && '/' !in job.namespace && Parseable(parse, job.dests)
    requires i < |job.dests| && j < |job.ids|
    requires forall c :: Has(rules, job.namespace, job.name, c) <==> Asked(parse, job, i, j, c)
    ensures var c := Cell(parse, job, i, j);
            var rules' := rules[RuleKey(job.namespace, c.name) := c];
            && SlashFree(rules') && OthersFrom(rules', rules, job.namespace, job.name)
            && forall d :: Has(rules', job.namespace, job.name, d) <==> Asked(parse, job, i, j + 1, d)
  {
    hide Asked, RuleName, Without, OthersFrom, Has;
    var c := Cell(parse, job, i, j);
    PrefixOfName(job.name, job.gateway, i, j);
    forall k | k in rules && Owns(job.namespace, job.name, rules[k])
      ensures rules[k].name != c.name
    {
      HasIt(rules, job.namespace, job.name, k);
      CellIsNew(parse, job, i, j, rules[k]);
    }
    AddOwned(rules, job.namespace, job.name, c);
    var rules' := rules[RuleKey(job.namespace, c.name) := c];
    forall d
      ensures Has(rules', job.namespace, job.name, d) <==> Asked(parse, job, i, j + 1, d)
    {
      AskedNext(parse, job, i, j, d);
    }
  }

  lemma WildStep(parse: Parser, rules: map<string, Compiled>, job: Job, i: nat)
    requires Filed(rules) && SlashFree(rules) && '/' !in job.namespace && Parseable(parse, job.dests)
    requires i < |job.dests|
    requires forall c :: Has(rules, job.namespace, job.name, c) <==> AskedWild(parse, job, i, c)
    ensures var c := WildCell(parse, job, i);
            var rules' := rules[RuleKey(job.namespace, c.name) := c];
            && SlashFree(rules') && OthersFrom(rules', rules, job.namespace, job.name)
            && forall d :: Has(rules', job.namespace, job.name, d) <==> AskedWild(parse, job, i + 1, d)
  {
    hide AskedWild, WildName, Without, OthersFrom, Has;
    var c := WildCell(parse, job, i);
    PrefixOfName(job.name, job.gateway, i, 0);
    forall k | k in rules && Owns(job.namespace, job.name, rules[k])
      ensures rules[k].name != c.name
    {
      HasIt(rules, job.namespace, job.name, k);
      WildIsNew(parse, job, i, rules[k]);
    }
    AddOwned(rules, job.namespace, job.name, c);
    var rules' := rules[RuleKey(job.namespace, c.name) := c];
    forall d
      ensures Has(rules', job.namespace, job.name, d) <==> AskedWild(parse, job, i + 1, d)
    {
      WildNext(parse, job, i, d);
    }
  }

  lemma WildNext(parse: Parser, job: Job, i: nat, c: Compiled)
    requires Parseable(parse, job.dests) && i < |job.dests|
    ensures AskedWild(parse, job, i + 1, c) <==> AskedWild(parse, job, i, c) || c == WildCell(parse, job, i)
  {}

  // ------------------------------------------------------------------ the gateway

  /** The active gateway is the least node name, whatever the order of the nodes. */
  lemma GatewayIsLeast(policy: Policy, nodes: seq<string>, nodes': seq<string>, ids: seq<nat>)
    requires nodes != [] && multiset(nodes) == multiset(nodes')
    ensures var g := JobOf(policy, nodes, ids).gateway;
            && g in nodes && forall n :: n in nodes ==> Le(g, n)
    ensures nodes' != [] && JobOf(policy, nodes', ids) == JobOf(policy, nodes, ids)
  {
    hide Sort;
    SortSorted(nodes);
    SortSorted(nodes');
    SortedUnique(Sort(nodes), Sort(nodes'));
    var sorted := Sort(nodes);
    assert sorted[0] in multiset(sorted);
    LeTotal(sorted[0], sorted[0]);
    forall n | n in nodes
      ensures Le(sorted[0], n)
    {
      assert n in multiset(sorted);
      var i :| 0 <= i < |sorted| && sorted[i] == n;
    }
    assert |multiset(nodes')| == |nodes|;
  }

  // ------------------------------------------------------------------ runs

  datatype Op =
    | Reconciling(policy: Policy, nodes: seq<string>, ids: seq<nat>, selectorOk: bool)
    | Deleting(namespace: string, name: string)
  {
    function Namespace(): string { if Reconciling? then policy.namespace else namespace }
    function Name(): string { if Reconciling? then policy.name else name }
  }

  /** What one operation does to the manager's rules. */
  ghost predicate Next(parse: Parser, rules: map<string, Compiled>, op: Op, rules': map<string, Compiled>)
  {
    match op
    case Reconciling(policy, nodes, ids, selectorOk) =>
      if Accepted(parse, policy, nodes, selectorOk) && parse(ALL_IPV4).Some? then
        && Parseable(parse, JobOf(policy, nodes, ids).dests)
        && OwnsExactly(parse, rules', JobOf(policy, nodes, ids))
        && OthersFrom(rules', rules, policy.namespace, policy.name)
      else rules' == rules
    case Deleting(namespace, name) => rules' == Without(rules, namespace, name)
  }

  /** Operations on different namespaces, or on names that are not confusable. */
  predicate Separate(op: Op, namespace: string, name: string)
  {
    op.Namespace() != namespace || !Confusable(op.Name(), name)
  }

  /** An operation leaves the rules of separate policies alone. */
  lemma Isolation(parse: Parser, rules: map<string, Compiled>, op: Op, rules': map<string, Compiled>, namespace: string,
                  name: string)
    requires Next(parse, rules, op, rules') && Separate(op, namespace, name)
    ensures Owned(rules', namespace, name) == Owned(rules, namespace, name)
  {
    hide OwnsExactly, Prefix, HasPrefix;
    var ns, n := op.Namespace(), op.Name();
    forall c: Compiled | Owns(namespace, name, c)
      ensures !Owns(ns, n, c)
    {
      if Owns(ns, n, c) {
        BothPrefixes(c.name, n, name);
      }
    }
    Cleared(rules, ns, n);
    assert Without(rules', ns, n) == Without(rules, ns, n);
    forall k
      ensures k in Owned(rules', namespace, name) <==> k in Owned(rules, namespace, name)
      ensures k in Owned(rules, namespace, name) ==> rules'[k] == rules[k]
    {
      assert k in Owned(rules, namespace, name) ==> k in Without(rules, ns, n);
      assert k in Owned(rules', namespace, name) ==> k in Without(rules', ns, n);
    }
  }

  ghost predicate IsRun(parse: Parser, states: seq<map<string, Compiled>>, ops: seq<Op>)
  {
    |states| == |ops| + 1 && forall k :: 0 <= k < |ops| ==> Next(parse, states[k], ops[k], states[k + 1])
  }

  /** Over any run, a policy's rules stay as its last accepted reconcile left them until the
      next operation on the policy itself, provided the operations in between are on
      separate policies. */
  lemma {:induction false} RulesStay(parse: Parser, states: seq<map<string, Compiled>>, ops: seq<Op>, i: nat, j: nat)
    requires IsRun(parse, states, ops) && i < j <= |ops| && parse(ALL_IPV4).Some?
    requires ops[i].Reconciling? && Accepted(parse, ops[i].policy, ops[i].nodes, ops[i].selectorOk)
    requires forall k :: i < k < j ==> Separate(ops[k], ops[i].policy.namespace, ops[i].policy.name)
    ensures Owned(states[j], ops[i].policy.namespace, ops[i].policy.name) ==
            Owned(states[i + 1], ops[i].policy.namespace, ops[i].policy.name)
    ensures var job := JobOf(ops[i].policy, ops[i].nodes, ops[i].ids);
            Parseable(parse, job.dests) && OwnsExactly(parse, states[j], job)
    decreases j
  {
    hide Asked, AskedWild, Prefix, HasPrefix, Sort, Separate;
    var p := ops[i].policy;
    assert Next(parse, states[i], ops[i], states[i + 1]);
    if i + 1 < j {
      RulesStay(parse, states, ops, i, j - 1);
      Isolation(parse, states[j - 1], ops[j - 1], states[j], p.namespace, p.name);
      SameOwned(parse, states[j - 1], states[j], JobOf(p, ops[i].nodes, ops[i].ids));
    }
  }

  lemma SameOwned(parse: Parser, rules: map<string, Compiled>, rules': map<string, Compiled>, job: Job)
    requires Parseable(parse, job.dests) && OwnsExactly(parse, rules, job)
    requires Owned(rules', job.namespace, job.name) == Owned(rules, job.namespace, job.name)
    ensures OwnsExactly(parse, rules', job)
  {
    hide Asked, AskedWild, Prefix, HasPrefix;
    forall c
      ensures Has(rules', job.namespace, job.name, c) <==> Has(rules, job.namespace, job.name, c)
    {
      assert forall k :: k in rules && Owns(job.namespace, job.name, rules[k]) ==>
             k in Owned(rules, job.namespace, job.name);
      assert forall k :: k in rules' && Owns(job.namespace, job.name, rules'[k]) ==>
             k in Owned(rules', job.namespace, job.name);
    }
  }

  // ------------------------------------------------------------------ next to a policy sync

  /** A policy sync files its own rules beside those of every gateway policy. */
  lemma {:induction false} SyncAddsBeside(parse: Parser, rules: map<string, Compiled>, list: seq<S.PolicyRule>,
                                          namespace: string, name: string)
    requires Filed(rules) && SlashFree(rules)
    requires forall i :: 0 <= i < |list| ==> '/' !in list[i].namespace
    ensures var added := S.Added(parse, rules, list);
            Filed(added) && SlashFree(added) && Owned(added, namespace, name) == Owned(rules, namespace, name)
  {
    hide Owned;
    if list == [] {
      assert S.Added(parse, rules, list) == rules;
    } else {
      var last := |list| - 1;
      SyncAddsBeside(parse, rules, list[..last], namespace, name);
      if S.Pushed(parse, list[last]) {
        var r := list[last];
        var c := Compile(r.namespace, S.AsRule(last, r), parse(r.cidr).value);
        FileBeside(S.Added(parse, rules, list[..last]), c, last, namespace, name);
      }
    }
  }

  lemma FileBeside(rules: map<string, Compiled>, c: Compiled, i: nat, namespace: string, name: string)
    requires Filed(rules) && SlashFree(rules) && '/' !in c.namespace && c.name == S.SyncName(i)
    ensures var rules' := rules[RuleKey(c.namespace, c.name) := c];
            Filed(rules') && SlashFree(rules') && Owned(rules', namespace, name) == Owned(rules, namespace, name)
  {
    var key := RuleKey(c.namespace, c.name);
    SyncNameIsNobodys(i, name);
    if key in rules {
      RuleKeyInjective(c.namespace, c.name, rules[key].namespace, rules[key].name);
    }
  }

  lemma SyncNameIsNobodys(i: nat, name: string)
    ensures !HasPrefix(S.SyncName(i), Prefix(name))
  {
    var s, p := S.SyncName(i), Prefix(name);
    assert s[0] == 'n' && p[0] == 'e';
    assert |s| >= |p| ==> s[..|p|][0] == 'n';
  }

  /** A rule the job asks for. */
  ghost predicate AskedFor(parse: Parser, job: Job, c: Compiled)
    requires Parseable(parse, job.dests)
  {
    if job.ids == [] then AskedWild(parse, job, |job.dests|, c) else Asked(parse, job, |job.dests|, 0, c)
  }

  /** A policy sync removes manager rules by their identity and destination, whoever filed
      them: it leaves a reconciled gateway policy intact if and only if every identity and
      destination of the policy is also a CIDR rule of the synced list. */
  lemma SyncKeepsPolicyIff(parse: Parser, rules: map<string, Compiled>, list: seq<S.PolicyRule>, job: Job)
    requires Filed(rules) && SlashFree(rules) && Parseable(parse, job.dests) && OwnsExactly(parse, rules, job)
    requires forall i :: 0 <= i < |list| ==> '/' !in list[i].namespace
    ensures var keys := S.Keys(parse, list);
            OwnsExactly(parse, S.Pruned(S.Added(parse, rules, list), keys), job) <==>
            forall c :: AskedFor(parse, job, c) ==> S.KeyOf(c.src, c.dst) in keys
  {
    hide Asked, AskedWild, S.Keys, S.Added;
    var added, keys := S.Added(parse, rules, list), S.Keys(parse, list);
    SyncAddsBeside(parse, rules, list, job.namespace, job.name);
    forall c
      ensures Has(S.Pruned(added, keys), job.namespace, job.name, c) <==>
                AskedFor(parse, job, c) && S.KeyOf(c.src, c.dst) in keys
    {
      SameHas(added, rules, job.namespace, job.name, c);
      PrunedHas(added, keys, job.namespace, job.name, c);
    }
  }

  lemma SameHas(rules: map<string, Compiled>, rules': map<string, Compiled>, namespace: string, name: string,
                c: Compiled)
    requires Owned(rules, namespace, name) == Owned(rules', namespace, name)
    ensures Has(rules, namespace, name, c) <==> Has(rules', namespace, name, c)
  {
    assert forall k :: k in rules && rules[k] == c && Owns(namespace, name, c) ==> k in Owned(rules, namespace, name);
    assert forall k :: k in rules' && rules'[k] == c && Owns(namespace, name, c) ==>
           k in Owned(rules', namespace, name);
  }

  lemma PrunedHas(rules: map<string, Compiled>, keys: set<S.MapKey>, namespace: string, name: string, c: Compiled)
    ensures Has(S.Pruned(rules, keys), namespace, name, c) <==>
              Has(rules, namespace, name, c) && S.KeyOf(c.src, c.dst) in keys
  {
    if Has(rules, namespace, name, c) && S.KeyOf(c.src, c.dst) in keys {
      var k :| k in rules && rules[k] == c;
      assert k in S.Pruned(rules, keys);
    }
  }

  /** Deleting policy `p` leaves a reconciled policy of its namespace intact if and only if no
      rule of that policy has the prefix of `p`. */
  lemma DeleteKeepsPolicyIff(parse: Parser, rules: map<string, Compiled>, p: string, job: Job)
    requires Parseable(parse, job.dests) && OwnsExactly(parse, rules, job)
    ensures OwnsExactly(parse, Without(rules, job.namespace, p), job) <==>
            forall c :: AskedFor(parse, job, c) ==> !HasPrefix(c.name, Prefix(p))
  {
    hide Asked, AskedWild, HasPrefix, Prefix;
    forall c
      ensures Has(Without(rules, job.namespace, p), job.namespace, job.name, c) <==>
                AskedFor(parse, job, c) && !HasPrefix(c.name, Prefix(p))
    {
      WithoutHas(rules, job.namespace, p, job.name, c);
    }
  }

  lemma WithoutHas(rules: map<string, Compiled>, namespace: string, p: string, name: string, c: Compiled)
    ensures Has(Without(rules, namespace, p), namespace, name, c) <==>
              Has(rules, namespace, name, c) && !HasPrefix(c.name, Prefix(p))
  {
    hide HasPrefix, Prefix;
    if Has(rules, namespace, name, c) && !HasPrefix(c.name, Prefix(p)) {
      var k :| k in rules && rules[k] == c;
      assert k in Without(rules, namespace, p);
    }
  }
}
