/**
 The egress rule store (internal/egress/manager.go).  `net.ParseCIDR` is a parameter: a
 function from text to a network, or to nothing.
 */
module EgressManager {
  import opened Prelude
  import opened Text

  /** A parsed network: its canonical text and prefix length. */
  datatype Net = Net(text: string, prefixLen: nat)

  type Parser = string -> Option<Net>

  const ACTION_DENY: nat := 0
  const ACTION_ALLOW: nat := 1
  const ACTION_SNAT: nat := 2

  datatype Rule = Rule(name: string, src: nat, dst: string, protocol: nat, port: nat, action: nat)

  datatype Compiled = Compiled(
    namespace: string, name: string, src: nat, dst: Net, protocol: nat, port: nat, action: nat)

  function RuleKey(namespace: string, name: string): string
  {
    namespace + ['/'] + name
  }

  /** Keys are unambiguous for namespaces without a slash. */
  lemma RuleKeyInjective(ns: string, name: string, ns': string, name': string)
    requires RuleKey(ns, name) == RuleKey(ns', name') && '/' !in ns && '/' !in ns'
    ensures ns == ns' && name == name'
  {
    CutFirst(ns, name, ns', name', '/');
  }

  /** Every entry is filed under the key of its own namespace and name. */
  ghost predicate Filed(rules: map<string, Compiled>)
  {
    forall k :: k in rules ==> k == RuleKey(rules[k].namespace, rules[k].name)
  }

  function Compile(namespace: string, rule: Rule, net: Net): Compiled
  {
    Compiled(namespace, rule.name, rule.src, net, rule.protocol, rule.port, rule.action)
  }

  /** A stored rule says what the given one says, about the parsed destination. */
  ghost predicate Keeps(c: Compiled, namespace: string, rule: Rule, parse: Parser)
  {
    && c.namespace == namespace && c.name == rule.name && c.src == rule.src && parse(rule.dst) == Some(c.dst)
    && c.protocol == rule.protocol && c.port == rule.port && c.action == rule.action
  }

  class Manager {
    const parse: Parser
    var masquerade: bool
    var rules: map<string, Compiled>

    ghost predicate Valid()
      reads this
    {
      Filed(rules)
    }

    constructor (parse: Parser)
      ensures Valid() && rules == map[] && masquerade && this.parse == parse
    {
      this.parse := parse;
      rules := map[];
      masquerade := true;
    }

    /** Adds or replaces one rule; an unparseable destination changes nothing. */
    method AddEgressRule(namespace: string, rule: Rule) returns (ok: bool)
      requires Valid()
      modifies this`rules
      ensures Valid()
      ensures ok <==> parse(rule.dst).Some?
      ensures ok ==>
                rules == old(rules)[RuleKey(namespace, rule.name) := Compile(namespace, rule, parse(rule.dst).value)]
      ensures !ok ==> rules == old(rules)
      ensures ok ==>
                var key := namespace + "/" + rule.name;
                key in rules && Keeps(rules[key], namespace, rule, parse)
    {
      var net := parse(rule.dst);
      if net.None? {
        return false;
      }
      var compiled :=
        Compiled(namespace, rule.name, rule.src, net.value, rule.protocol, rule.port, rule.action);
      rules := rules[namespace + "/" + rule.name := compiled];
      return true;
    }

    method RemoveEgressRule(namespace: string, name: string)
      requires Valid()
      modifies this`rules
      ensures Valid()
      ensures rules == old(rules) - {RuleKey(namespace, name)}
    {
      var key := namespace + "/" + name;
      if key in rules {
        rules := rules - {key};
      }
      assert rules == old(rules) - {key};
    }

    /** A snapshot of all rules, in the arbitrary order of the map. */
    method GetRules() returns (result: seq<Compiled>)
      requires Valid()
      ensures forall c :: c in result <==> exists k :: k in rules && rules[k] == c
      ensures |result| == |rules|
    {
      result := [];
      var todo := rules.Keys;
      while todo != {}
        invariant todo <= rules.Keys
        invariant forall c :: c in result <==> exists k :: k in rules && k !in todo && rules[k] == c
        invariant |result| + |todo| == |rules|
        decreases |todo|
      {
        var k :| k in todo;
        result := result + [rules[k]];
        todo := todo - {k};
      }
    }
  }
}
