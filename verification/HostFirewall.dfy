/**
 The host firewall (internal/hostfirewall/manager.go): compiling HostEndpointPolicy rules
 into flat rules, one per CIDR and port range, and the store that holds them.
 `net.ParseCIDR` is a parameter.
 */
module HostFirewall {
  import opened Prelude
  import opened Text

  datatype Family = V4 | V6

  datatype Addr = Addr(family: Family, value: nat)

  /** A network: the addresses of its family in a block of `size` that starts at `base`. */
  datatype Cidr = Cidr(family: Family, base: nat, size: nat) {
    predicate Contains(a: Addr)
    {
      a.family == family && base <= a.value < base + size
    }
  }

  type Parser = string -> Option<Cidr>

  const IPV4_SIZE: nat := 0x1_0000_0000
  const ALL_IPV4 := Cidr(V4, 0, IPV4_SIZE)

  datatype Direction = Ingress | Egress

  const MAX_PORT: int := 65535

  datatype HostPort = HostPort(port: int, endPort: Option<int>)

  datatype HostRule = HostRule(action: string, protocol: Option<string>, cidrs: seq<string>, ports: seq<HostPort>)

  datatype Policy = Policy(name: string, ingress: seq<HostRule>, egress: seq<HostRule>)

  datatype Compiled = Compiled(
    ruleID: string, direction: Direction, protocol: nat, cidr: Cidr, port: nat, endPort: nat, action: nat,
    policy: string)

  datatype PortRange = PortRange(port: nat, endPort: nat)

  datatype Packet = Packet(direction: Direction, protocol: nat, addr: Addr, port: nat)

  // ------------------------------------------------------------------ converters

  predicate KnownAction(action: string)
  {
    action == "Allow" || action == "Deny"
  }

  function ActionCode(action: string): nat
    requires KnownAction(action)
  {
    if action == "Allow" then 1 else 0
  }

  function ProtocolCode(p: Option<string>): nat
  {
    if p == Some("TCP") then 6
    else if p == Some("UDP") then 17
    else if p == Some("SCTP") then 132
    else 0
  }

  predicate PortInRange(port: int)
  {
    0 <= port <= MAX_PORT
  }

  function ConvertPort(p: HostPort): PortRange
    requires PortInRange(p.port)
  {
    PortRange(p.port, if p.endPort.Some? && PortInRange(p.endPort.value) then p.endPort.value else 0)
  }

  /** `expandPorts`: entries whose port is out of range are dropped. */
  function ExpandPorts(ports: seq<HostPort>): (r: seq<PortRange>)
    ensures |r| <= |ports|
  {
    if ports == [] then []
    else
      var init, p := ExpandPorts(ports[..|ports| - 1]), ports[|ports| - 1];
      if PortInRange(p.port) then init + [ConvertPort(p)] else init
  }

  predicate CidrsParse(parse: Parser, cidrs: seq<string>)
  {
    forall i :: 0 <= i < |cidrs| ==> parse(cidrs[i]).Some?
  }

  function ParseCidrs(parse: Parser, cidrs: seq<string>): (r: seq<Cidr>)
    requires CidrsParse(parse, cidrs)
    ensures |r| == |cidrs| && forall i :: 0 <= i < |r| ==> r[i] == parse(cidrs[i]).value
  {
    seq(|cidrs|, i requires 0 <= i < |cidrs| => parse(cidrs[i]).value)
  }

  // ------------------------------------------------------------------ the flat list

  function DirectionText(d: Direction): string
  {
    if d.Egress? then "egress" else "ingress"
  }

  function RuleID(policy: string, d: Direction, idx: nat): string
  {
    policy + "/" + DirectionText(d) + "/" + Itoa(idx)
  }

  /** Rule ids tell policy, direction and index apart, whatever the policy's name. */
  lemma RuleIDInjective(policy: string, d: Direction, idx: nat, policy': string, d': Direction, idx': nat)
    requires RuleID(policy, d, idx) == RuleID(policy', d', idx')
    ensures policy == policy' && d == d' && idx == idx'
  {
    var a, a' := policy + "/" + DirectionText(d), policy' + "/" + DirectionText(d');
    assert RuleID(policy, d, idx) == a + ['/'] + Itoa(idx);
    assert RuleID(policy', d', idx') == a' + ['/'] + Itoa(idx');
    CutLast(a, Itoa(idx), a', Itoa(idx'), '/');
    ItoaInjective(idx, idx');
    assert a == policy + ['/'] + DirectionText(d) && a' == policy' + ['/'] + DirectionText(d');
    CutLast(policy, DirectionText(d), policy', DirectionText(d'), '/');
    assert |"egress"| != |"ingress"|;
  }

  predicate RuleOk(parse: Parser, r: HostRule)
  {
    KnownAction(r.action) && CidrsParse(parse, r.cidrs)
  }

  function EffectiveCidrs(parse: Parser, r: HostRule): (s: seq<Cidr>)
    requires RuleOk(parse, r)
    ensures |s| == Max1(|r.cidrs|)
  {
    if r.cidrs == [] then [ALL_IPV4] else ParseCidrs(parse, r.cidrs)
  }

  function EffectivePorts(r: HostRule): (s: seq<PortRange>)
    ensures |s| >= 1
  {
    var ports := ExpandPorts(r.ports);
    if ports == [] then [PortRange(0, 0)] else ports
  }

  function Max1(n: nat): nat
  {
    if n == 0 then 1 else n
  }

  function Cell(policy: string, d: Direction, r: HostRule, cidr: Cidr, p: PortRange, idx: nat): Compiled
    requires KnownAction(r.action)
  {
    Compiled(RuleID(policy, d, idx), d, ProtocolCode(r.protocol), cidr, p.port, p.endPort, ActionCode(r.action), policy)
  }

  /** The cells of one CIDR, numbered from `start`. */
  function Row(policy: string, d: Direction, r: HostRule, cidr: Cidr, ports: seq<PortRange>,
               start: nat): (s: seq<Compiled>)
    requires KnownAction(r.action)
    ensures |s| == |ports|
    ensures forall i :: 0 <= i < |s| ==> s[i] == Cell(policy, d, r, cidr, ports[i], start + i)
  {
    seq(|ports|, i requires 0 <= i < |ports| => Cell(policy, d, r, cidr, ports[i], start + i))
  }

  /** The cells of one source rule. */
  function Block(policy: string, d: Direction, r: HostRule, cidrs: seq<Cidr>, ports: seq<PortRange>,
                 start: nat): (s: seq<Compiled>)
    requires KnownAction(r.action)
    ensures |s| == |cidrs| * |ports|
  {
    if cidrs == [] then []
    else
      var init := Block(policy, d, r, cidrs[..|cidrs| - 1], ports, start);
      assert |cidrs| * |ports| == (|cidrs| - 1) * |ports| + |ports|;
      init + Row(policy, d, r, cidrs[|cidrs| - 1], ports, start + |init|)
  }

  /** The flat rules of one direction. */
  function Flat(parse: Parser, policy: string, d: Direction, rules: seq<HostRule>): seq<Compiled>
    requires forall i :: 0 <= i < |rules| ==> RuleOk(parse, rules[i])
  {
    if rules == [] then []
    else
      var init, r := Flat(parse, policy, d, rules[..|rules| - 1]), rules[|rules| - 1];
      init + Block(policy, d, r, EffectiveCidrs(parse, r), EffectivePorts(r), |init|)
  }

  // ------------------------------------------------------------------ meaning

  /** A rule without a protocol, or with one that is not known, says any. */
  ghost predicate SaysProtocol(name: Option<string>, protocol: nat)
  {
    && (name == Some("TCP") ==> protocol == 6)
    && (name == Some("UDP") ==> protocol == 17)
    && (name == Some("SCTP") ==> protocol == 132)
  }

  /** Action 1 is to allow and action 0 to deny. */
  ghost predicate SaysAction(r: HostRule, action: nat)
  {
    (r.action == "Allow" && action == 1) || (r.action == "Deny" && action == 0)
  }

  lemma CodesSay(r: HostRule, action: nat, protocol: nat)
    requires KnownAction(r.action)
    ensures ActionCode(r.action) == action <==> SaysAction(r, action)
    ensures ProtocolCode(r.protocol) == 0 || ProtocolCode(r.protocol) == protocol <==>
              SaysProtocol(r.protocol, protocol)
  {
    assert "Allow"[0] != "Deny"[0];
    assert |"TCP"| != |"SCTP"| && "TCP"[0] != "UDP"[0] && |"UDP"| != |"SCTP"|;
  }

  /** What a source rule says about a packet. */
  ghost predicate SourceMatches(parse: Parser, r: HostRule, p: Packet)
  {
    && SaysProtocol(r.protocol, p.protocol)
    && (r.cidrs == [] ||
        exists i :: 0 <= i < |r.cidrs| && parse(r.cidrs[i]).Some? && parse(r.cidrs[i]).value.Contains(p.addr))
    && (r.ports == [] || exists i :: 0 <= i < |r.ports| && PortCovers(r.ports[i], p.port))
  }

  ghost predicate PortCovers(h: HostPort, port: nat)
  {
    if h.endPort.None? then port == h.port else h.port <= port <= h.endPort.value
  }

  /** What the dataplane makes of a compiled rule: protocol 0 and port 0 mean any, end port 0
      means a single port. */
  predicate Matches(c: Compiled, p: Packet)
  {
    && c.direction == p.direction
    && (c.protocol == 0 || c.protocol == p.protocol)
    && c.cidr.Contains(p.addr)
    && PortMatches(PortRange(c.port, c.endPort), p.port)
  }

  predicate PortMatches(r: PortRange, port: nat)
  {
    r.port == 0 || (if r.endPort == 0 then port == r.port else r.port <= port <= r.endPort)
  }

  /** The limits of the custom resource: ports and end ports between 1 and 65535. */
  ghost predicate WithinLimits(r: HostRule)
  {
    forall i :: 0 <= i < |r.ports| ==>
      && 1 <= r.ports[i].port <= 65535
      && (r.ports[i].endPort.Some? ==> 1 <= r.ports[i].endPort.value <= 65535)
  }

  ghost predicate RealAddress(a: Addr)
  {
    a.family.V4? ==> a.value < 0x1_0000_0000
  }

  // ------------------------------------------------------------------ meaning is preserved

  /** Some rule of the list matches with the given action. */
  ghost predicate Decides(list: seq<Compiled>, action: nat, p: Packet)
  {
    exists k :: 0 <= k < |list| && list[k].action == action && Matches(list[k], p)
  }

  lemma DecidesConcat(a: seq<Compiled>, b: seq<Compiled>, action: nat, p: Packet)
    ensures Decides(a + b, action, p) <==> Decides(a, action, p) || Decides(b, action, p)
  {
    if Decides(a, action, p) {
      var k :| 0 <= k < |a| && a[k].action == action && Matches(a[k], p);
      assert (a + b)[k] == a[k];
    }
    if Decides(b, action, p) {
      var k :| 0 <= k < |b| && b[k].action == action && Matches(b[k], p);
      assert (a + b)[|a| + k] == b[k];
    }
  }

  ghost predicate SomePort(ports: seq<PortRange>, port: nat)
  {
    exists k :: 0 <= k < |ports| && PortMatches(ports[k], port)
  }

  ghost predicate SomeCidr(cidrs: seq<Cidr>, a: Addr)
  {
    exists k :: 0 <= k < |cidrs| && cidrs[k].Contains(a)
  }

  /** The part of a rule's meaning that does not depend on CIDRs and ports. */
  ghost predicate Applies(r: HostRule, d: Direction, action: nat, p: Packet)
  {
    && SaysAction(r, action) && d == p.direction
    && (ProtocolCode(r.protocol) == 0 || ProtocolCode(r.protocol) == p.protocol)
  }

  lemma RowMeaning(policy: string, d: Direction, r: HostRule, cidr: Cidr, ports: seq<PortRange>, start: nat,
                   action: nat, p: Packet)
    requires KnownAction(r.action)
    ensures Decides(Row(policy, d, r, cidr, ports, start), action, p) <==>
            Applies(r, d, action, p) && cidr.Contains(p.addr) && SomePort(ports, p.port)
  {
    var row := Row(policy, d, r, cidr, ports, start);
    if Applies(r, d, action, p) && cidr.Contains(p.addr) && SomePort(ports, p.port) {
      var k :| 0 <= k < |ports| && PortMatches(ports[k], p.port);
      assert Matches(row[k], p);
    }
  }

  lemma {:induction false} BlockMeaning(policy: string, d: Direction, r: HostRule, cidrs: seq<Cidr>,
                                        ports: seq<PortRange>, start: nat, action: nat, p: Packet)
    requires KnownAction(r.action)
    ensures Decides(Block(policy, d, r, cidrs, ports, start), action, p) <==>
            Applies(r, d, action, p) && SomeCidr(cidrs, p.addr) && SomePort(ports, p.port)
  {
    hide Applies, SomePort, Decides, Cidr.Contains, Row;
    if cidrs == [] {
      NothingDecides(action, p);
    } else {
      var n := |cidrs| - 1;
      var init := Block(policy, d, r, cidrs[..n], ports, start);
      var row := Row(policy, d, r, cidrs[n], ports, start + |init|);
      BlockMeaning(policy, d, r, cidrs[..n], ports, start, action, p);
      RowMeaning(policy, d, r, cidrs[n], ports, start + |init|, action, p);
      DecidesConcat(init, row, action, p);
      SomeCidrSnoc(cidrs, p.addr);
    }
  }

  lemma NothingDecides(action: nat, p: Packet)
    ensures !Decides([], action, p)
  {}

  lemma SomeCidrSnoc(cidrs: seq<Cidr>, a: Addr)
    requires cidrs != []
    ensures SomeCidr(cidrs, a) <==> SomeCidr(cidrs[..|cidrs| - 1], a) || cidrs[|cidrs| - 1].Contains(a)
  {
    var n := |cidrs| - 1;
    if SomeCidr(cidrs[..n], a) {
      var k :| 0 <= k < n && cidrs[..n][k].Contains(a);
      assert cidrs[k].Contains(a);
    }
  }

  lemma {:induction false} ExpandAll(ports: seq<HostPort>)
    requires forall i :: 0 <= i < |ports| ==> PortInRange(ports[i].port)
    ensures |ExpandPorts(ports)| == |ports|
    ensures forall i :: 0 <= i < |ports| ==> ExpandPorts(ports)[i] == ConvertPort(ports[i])
  {
    if ports != [] {
      ExpandAll(ports[..|ports| - 1]);
    }
  }

  /** Within the limits, expanding keeps every port entry and its meaning. */
  lemma PortsMeaning(r: HostRule, port: nat)
    requires WithinLimits(r)
    ensures |EffectivePorts(r)| == Max1(|r.ports|)
    ensures SomePort(EffectivePorts(r), port) <==>
              r.ports == [] || exists i :: 0 <= i < |r.ports| && PortCovers(r.ports[i], port)
  {
    ExpandAll(r.ports);
    var ports := EffectivePorts(r);
    if r.ports == [] {
      assert PortMatches(ports[0], port);
    } else {
      forall i | 0 <= i < |r.ports|
        ensures PortMatches(ports[i], port) <==> PortCovers(r.ports[i], port)
      {}
    }
  }

  lemma CidrsMeaning(parse: Parser, r: HostRule, a: Addr)
    requires RuleOk(parse, r) && RealAddress(a)
    ensures SomeCidr(EffectiveCidrs(parse, r), a) <==>
            if r.cidrs == [] then a.family.V4?
            else exists i :: 0 <= i < |r.cidrs| && parse(r.cidrs[i]).Some? && parse(r.cidrs[i]).value.Contains(a)
  {
    var cidrs := EffectiveCidrs(parse, r);
    if r.cidrs == [] {
      assert cidrs[0] == ALL_IPV4;
    } else {
      forall i | 0 <= i < |r.cidrs|
        ensures cidrs[i] == parse(r.cidrs[i]).value
      {}
    }
  }

  /** Some source rule matches with the given action.  A rule without CIDRs speaks for IPv4
      only. */
  ghost predicate SourceDecides(parse: Parser, rules: seq<HostRule>, d: Direction, action: nat, p: Packet)
  {
    exists i :: 0 <= i < |rules| && SourceRuleDecides(parse, rules[i], d, action, p)
  }

  ghost predicate SourceRuleDecides(parse: Parser, r: HostRule, d: Direction, action: nat, p: Packet)
  {
    && SaysAction(r, action) && d == p.direction
    && SourceMatches(parse, r, p) && (p.addr.family.V4? || r.cidrs != [])
  }

  ghost predicate AllOk(parse: Parser, rules: seq<HostRule>)
  {
    forall i :: 0 <= i < |rules| ==> RuleOk(parse, rules[i])
  }

  ghost predicate AllWithinLimits(rules: seq<HostRule>)
  {
    forall i :: 0 <= i < |rules| ==> WithinLimits(rules[i])
  }

  lemma RuleMeaning(parse: Parser, policy: string, d: Direction, r: HostRule, start: nat, action: nat, p: Packet)
    requires RuleOk(parse, r) && WithinLimits(r) && RealAddress(p.addr)
    ensures Decides(Block(policy, d, r, EffectiveCidrs(parse, r), EffectivePorts(r), start), action, p) <==>
            SourceRuleDecides(parse, r, d, action, p)
  {
    hide Decides, Block, EffectiveCidrs, EffectivePorts, SomeCidr, SomePort, ActionCode, ProtocolCode, SaysAction,
        SaysProtocol;
    CodesSay(r, action, p.protocol);
    BlockMeaning(policy, d, r, EffectiveCidrs(parse, r), EffectivePorts(r), start, action, p);
    PortsMeaning(r, p.port);
    CidrsMeaning(parse, r, p.addr);
  }

  /** Compilation preserves meaning: for every packet and action, some compiled rule decides
      it exactly when some source rule does. */
  lemma {:induction false} FlatMeaning(parse: Parser, policy: string, d: Direction, rules: seq<HostRule>, action: nat,
                                       p: Packet)
    requires AllOk(parse, rules) && AllWithinLimits(rules) && RealAddress(p.addr)
    ensures Decides(Flat(parse, policy, d, rules), action, p) <==> SourceDecides(parse, rules, d, action, p)
  {
    hide Decides, Block, EffectiveCidrs, EffectivePorts, SourceRuleDecides, WithinLimits;
    if rules == [] {
      NothingDecides(action, p);
    } else {
      var n := |rules| - 1;
      var r, init := rules[n], Flat(parse, policy, d, rules[..n]);
      assert AllWithinLimits(rules[..n]);
      FlatMeaning(parse, policy, d, rules[..n], action, p);
      RuleMeaning(parse, policy, d, r, |init|, action, p);
      DecidesConcat(init, Block(policy, d, r, EffectiveCidrs(parse, r), EffectivePorts(r), |init|), action, p);
      if SourceDecides(parse, rules[..n], d, action, p) {
        var i :| 0 <= i < n && SourceRuleDecides(parse, rules[..n][i], d, action, p);
        assert SourceRuleDecides(parse, rules[i], d, action, p);
      }
    }
  }

  ghost function Size(rules: seq<HostRule>): nat
  {
    if rules == [] then 0
    else Size(rules[..|rules| - 1]) + Max1(|rules[|rules| - 1].cidrs|) * Max1(|rules[|rules| - 1].ports|)
  }

  /** Each direction yields one rule per CIDR and port entry of each source rule. */
  lemma {:induction false} FlatSize(parse: Parser, policy: string, d: Direction, rules: seq<HostRule>)
    requires AllOk(parse, rules) && AllWithinLimits(rules)
    ensures |Flat(parse, policy, d, rules)| == Size(rules)
  {
    hide Block, EffectivePorts, EffectiveCidrs, WithinLimits;
    if rules != [] {
      var n := |rules| - 1;
      assert AllWithinLimits(rules[..n]);
      FlatSize(parse, policy, d, rules[..n]);
      PortsMeaning(rules[n], 0);
    }
  }

  /** Outside the limits a rule can widen: when every port entry is out of range none is
      left, and an empty list means any port. */
  lemma OutOfRangePortsWiden(r: HostRule, port: nat)
    requires r.ports != [] && forall i :: 0 <= i < |r.ports| ==> !PortInRange(r.ports[i].port)
    ensures EffectivePorts(r) == [PortRange(0, 0)] && SomePort(EffectivePorts(r), port)
  {
    ExpandNoneIff(r.ports);
    assert PortMatches(EffectivePorts(r)[0], port);
  }

  /** The default of any port is taken exactly when no entry is in range. */
  lemma {:induction false} ExpandNoneIff(ports: seq<HostPort>)
    ensures ExpandPorts(ports) == [] <==> forall i :: 0 <= i < |ports| ==> !PortInRange(ports[i].port)
  {
    if ports != [] {
      var last := |ports| - 1;
      ExpandNoneIff(ports[..last]);
      assert forall i :: 0 <= i < last ==> ports[..last][i] == ports[i];
    }
  }

  // ------------------------------------------------------------------ the compiler

  datatype Error = NilPolicy | UnknownAction | InvalidCidr

  datatype Result<+T> = Ok(value: T) | Err(error: Error)

  method ParseAll(parse: Parser, cidrs: seq<string>) returns (r: Result<seq<Cidr>>)
    ensures r.Ok? <==> CidrsParse(parse, cidrs)
    ensures r.Ok? ==> r.value == ParseCidrs(parse, cidrs)
    ensures r.Err? ==> r.error == InvalidCidr
  {
    var result := [];
    for i := 0 to |cidrs|
      invariant CidrsParse(parse, cidrs[..i]) && |result| == i
      invariant forall j :: 0 <= j < i ==> result[j] == parse(cidrs[j]).value
    {
      var net := parse(cidrs[i]);
      if net.None? {
        return Err(InvalidCidr);
      }
      result := result + [net.value];
    }
    return Ok(result);
  }

  method Expand(ports: seq<HostPort>) returns (result: seq<PortRange>)
    ensures result == ExpandPorts(ports)
  {
    result := [];
    for i := 0 to |ports|
      invariant result == ExpandPorts(ports[..i])
    {
      assert ports[..i + 1][..i] == ports[..i];
      var p := ports[i];
      if p.port < 0 || p.port > 65535 {
        continue;
      }
      var endPort := 0;
      if p.endPort.Some? && p.endPort.value >= 0 && p.endPort.value <= 65535 {
        endPort := p.endPort.value;
      }
      result := result + [PortRange(p.port, endPort)];
    }
    assert ports[..|ports|] == ports;
  }

  /** Rule `i` is the first that does not compile, and `error` says why. */
  ghost predicate FirstBad(parse: Parser, rules: seq<HostRule>, i: int, error: Error)
  {
    && 0 <= i < |rules| && AllOk(parse, rules[..i]) && !RuleOk(parse, rules[i])
    && error == if KnownAction(rules[i].action) then InvalidCidr else UnknownAction
  }

  /** `compileRules`: the flat list, or the error of the first rule that has one. */
  method CompileRules(parse: Parser, policy: string, d: Direction, rules: seq<HostRule>)
    returns (r: Result<seq<Compiled>>)
    ensures r.Ok? <==> AllOk(parse, rules)
    ensures r.Ok? ==> r.value == Flat(parse, policy, d, rules)
    ensures r.Err? ==> exists i :: FirstBad(parse, rules, i, r.error)
  {
    hide Block, Flat, ExpandPorts;
    var compiled := [];
    assert compiled == Flat(parse, policy, d, rules[..0]) by { FlatNone(parse, policy, d, rules); }
    for i := 0 to |rules|
      invariant AllOk(parse, rules[..i])
      invariant compiled == Flat(parse, policy, d, rules[..i])
    {
      var rule := rules[i];
      var action := ConvertAction(rule.action);
      if action.None? {
        assert FirstBad(parse, rules, i, UnknownAction);
        return Err(UnknownAction);
      }
      var parsed := ParseAll(parse, rule.cidrs);
      if parsed.Err? {
        assert FirstBad(parse, rules, i, InvalidCidr);
        return Err(InvalidCidr);
      }
      var cidrs := if |parsed.value| == 0 then [ALL_IPV4] else parsed.value;
      assert cidrs == EffectiveCidrs(parse, rule);
      var ports := Expand(rule.ports);
      if |ports| == 0 {
        ports := [PortRange(0, 0)];
      }
      FlatSnoc(parse, policy, d, rules, i);
      var block := CompileRule(policy, d, rule, action.value, cidrs, ports, |compiled|);
      compiled := compiled + block;
    }
    assert rules[..|rules|] == rules;
    return Ok(compiled);
  }

  lemma BlockNone(policy: string, d: Direction, r: HostRule, cidrs: seq<Cidr>, ports: seq<PortRange>, start: nat)
    requires KnownAction(r.action)
    ensures Block(policy, d, r, cidrs[..0], ports, start) == []
  {}

  lemma BlockSnoc(policy: string, d: Direction, r: HostRule, cidrs: seq<Cidr>, ports: seq<PortRange>, start: nat,
                  a: nat)
    requires KnownAction(r.action) && a < |cidrs|
    ensures var init := Block(policy, d, r, cidrs[..a], ports, start);
            Block(policy, d, r, cidrs[..a + 1], ports, start) ==
              init + Row(policy, d, r, cidrs[a], ports, start + |init|)
  {
    hide Row;
    assert cidrs[..a + 1][..a] == cidrs[..a];
  }

  lemma FlatNone(parse: Parser, policy: string, d: Direction, rules: seq<HostRule>)
    ensures Flat(parse, policy, d, rules[..0]) == []
  {}

  lemma FlatSnoc(parse: Parser, policy: string, d: Direction, rules: seq<HostRule>, i: nat)
    requires i < |rules| && AllOk(parse, rules[..i]) && RuleOk(parse, rules[i])
    ensures AllOk(parse, rules[..i + 1])
    ensures var init, r := Flat(parse, policy, d, rules[..i]), rules[i];
            Flat(parse, policy, d, rules[..i + 1]) ==
              init + Block(policy, d, r, EffectiveCidrs(parse, r), EffectivePorts(r), |init|)
  {
    hide Block, EffectiveCidrs, EffectivePorts;
    assert rules[..i + 1][..i] == rules[..i];
    assert forall j :: 0 <= j < i ==> rules[..i + 1][j] == rules[..i][j];
  }

  /** `convertAction`, with no code for an action that is not known. */
  method ConvertAction(action: string) returns (code: Option<nat>)
    ensures code.Some? <==> KnownAction(action)
    ensures code == Some(1) <==> action == "Allow"
    ensures code == Some(0) <==> action == "Deny"
    ensures code.Some? ==> code.value == ActionCode(action)
  {
    assert "Allow"[0] != "Deny"[0];
    match action
    case "Allow" => return Some(1);
    case "Deny" => return Some(0);
    case _ => return None;
  }

  /** `convertProtocol`: the code 0 stands for any protocol. */
  method ConvertProtocol(p: Option<string>) returns (code: nat)
    ensures code == ProtocolCode(p)
    ensures forall protocol: nat :: SaysProtocol(p, protocol) <==> code == 0 || code == protocol
  {
    assert |"TCP"| != |"SCTP"| && "TCP"[0] != "UDP"[0] && |"UDP"| != |"SCTP"|;
    if p == None {
      return 0;
    }
    match p.value
    case "TCP" => return 6;
    case "UDP" => return 17;
    case "SCTP" => return 132;
    case _ => return 0;
  }

  lemma CellIs(policy: string, d: Direction, r: HostRule, cidr: Cidr, p: PortRange, idx: nat, c: Compiled)
    requires KnownAction(r.action)
    requires c.ruleID == policy + "/" + (if d.Egress? then "egress" else "ingress") + "/" + Itoa(idx)
    requires c.direction == d && c.policy == policy && c.cidr == cidr && c.port == p.port && c.endPort == p.endPort
    requires c.action == ActionCode(r.action) && c.protocol == ProtocolCode(r.protocol)
    ensures c == Cell(policy, d, r, cidr, p, idx)
  {}

  /** The two inner loops of `compileRules`. */
  method CompileRule(policy: string, d: Direction, rule: HostRule, action: nat, cidrs: seq<Cidr>,
                     ports: seq<PortRange>, start: nat)
    returns (block: seq<Compiled>)
    requires KnownAction(rule.action) && action == ActionCode(rule.action)
    ensures block == Block(policy, d, rule, cidrs, ports, start)
  {
    hide Cell, Row, Block;
    block := [];
    var idx := start;
    var proto := ConvertProtocol(rule.protocol);
    var dirStr := if d.Egress? then "egress" else "ingress";
    BlockNone(policy, d, rule, cidrs, ports, start);
    for a := 0 to |cidrs|
      invariant block == Block(policy, d, rule, cidrs[..a], ports, start)
      invariant idx == start + |block|
    {
      ghost var before := block;
      ghost var row := Row(policy, d, rule, cidrs[a], ports, start + |before|);
      for b := 0 to |ports|
        invariant block == before + row[..b]
        invariant idx == start + |block|
      {
        var ruleID := policy + "/" + dirStr + "/" + Itoa(idx);
        var compiled :=
          Compiled(ruleID, d, proto, cidrs[a], ports[b].port, ports[b].endPort, action, policy);
        CellIs(policy, d, rule, cidrs[a], ports[b], idx, compiled);
        block := block + [compiled];
        idx := idx + 1;
      }
      assert row[..|ports|] == row;
      BlockSnoc(policy, d, rule, cidrs, ports, start, a);
    }
    assert cidrs[..|cidrs|] == cidrs;
  }

  /** `CompilePolicy`: ingress before egress. */
  method CompilePolicy(parse: Parser, policy: Option<Policy>) returns (r: Result<seq<Compiled>>)
    ensures policy.None? ==> r == Err(NilPolicy)
    ensures policy.Some? ==> (r.Ok? <==> AllOk(parse, policy.value.ingress) && AllOk(parse, policy.value.egress))
    ensures policy.Some? && r.Ok? ==> r.value == Output(parse, policy.value)
    ensures policy.Some? && r.Err? && !AllOk(parse, policy.value.ingress) ==>
              exists i :: FirstBad(parse, policy.value.ingress, i, r.error)
    ensures policy.Some? && r.Err? && AllOk(parse, policy.value.ingress) ==>
              exists i :: FirstBad(parse, policy.value.egress, i, r.error)
  {
    if policy.None? {
      return Err(NilPolicy);
    }
    var ingress := CompileRules(parse, policy.value.name, Ingress, policy.value.ingress);
    if ingress.Err? {
      return ingress;
    }
    var egress := CompileRules(parse, policy.value.name, Egress, policy.value.egress);
    if egress.Err? {
      return egress;
    }
    return Ok(ingress.value + egress.value);
  }

  ghost function Output(parse: Parser, policy: Policy): seq<Compiled>
    requires AllOk(parse, policy.ingress) && AllOk(parse, policy.egress)
  {
    Flat(parse, policy.name, Ingress, policy.ingress) + Flat(parse, policy.name, Egress, policy.egress)
  }

  /** A packet meets, in its own direction, exactly the source rules of that direction. */
  lemma PolicyMeaning(parse: Parser, policy: Policy, action: nat, p: Packet)
    requires AllOk(parse, policy.ingress) && AllOk(parse, policy.egress)
    requires AllWithinLimits(policy.ingress) && AllWithinLimits(policy.egress) && RealAddress(p.addr)
    ensures Decides(Output(parse, policy), action, p) <==>
            SourceDecides(parse, if p.direction.Ingress? then policy.ingress else policy.egress, p.direction, action, p)
  {
    hide Decides, Flat, SourceMatches, WithinLimits;
    DecidesConcat(Flat(parse, policy.name, Ingress, policy.ingress), Flat(parse, policy.name, Egress, policy.egress),
      action, p);
    FlatMeaning(parse, policy.name, Ingress, policy.ingress, action, p);
    FlatMeaning(parse, policy.name, Egress, policy.egress, action, p);
  }

  // ------------------------------------------------------------------ the store

  /** A list as the compiler produces it: one policy, ids from direction and position, no id
      twice. */
  ghost predicate Proper(list: seq<Compiled>)
  {
    && (forall i :: 0 <= i < |list| ==> list[i].policy == list[0].policy && Identified(list[i]))
    && (forall i, j :: 0 <= i < j < |list| ==> list[i].ruleID != list[j].ruleID)
  }

  ghost predicate Identified(c: Compiled)
  {
    exists idx: nat :: c.ruleID == RuleID(c.policy, c.direction, idx)
  }

  ghost predicate Numbered(list: seq<Compiled>, policy: string, d: Direction, start: nat)
  {
    forall i :: 0 <= i < |list| ==>
      list[i].policy == policy && list[i].direction == d && list[i].ruleID == RuleID(policy, d, start + i)
  }

  lemma {:induction false} BlockNumbered(policy: string, d: Direction, r: HostRule, cidrs: seq<Cidr>,
                                         ports: seq<PortRange>, start: nat)
    requires KnownAction(r.action)
    ensures Numbered(Block(policy, d, r, cidrs, ports, start), policy, d, start)
  {
    hide RuleID;
    if cidrs != [] {
      BlockNumbered(policy, d, r, cidrs[..|cidrs| - 1], ports, start);
    }
  }

  lemma {:induction false} FlatNumbered(parse: Parser, policy: string, d: Direction, rules: seq<HostRule>)
    requires AllOk(parse, rules)
    ensures Numbered(Flat(parse, policy, d, rules), policy, d, 0)
  {
    hide RuleID, Block, EffectiveCidrs, EffectivePorts;
    if rules != [] {
      var n := |rules| - 1;
      FlatNumbered(parse, policy, d, rules[..n]);
      var init, r := Flat(parse, policy, d, rules[..n]), rules[n];
      BlockNumbered(policy, d, r, EffectiveCidrs(parse, r), EffectivePorts(r), |init|);
    }
  }

  /** Compiler output is proper. */
  lemma OutputProper(parse: Parser, policy: Policy)
    requires AllOk(parse, policy.ingress) && AllOk(parse, policy.egress)
    ensures Proper(Output(parse, policy))
    ensures forall c :: c in Output(parse, policy) ==> c.policy == policy.name
  {
    hide RuleID, Flat;
    var a, b := Flat(parse, policy.name, Ingress, policy.ingress), Flat(parse, policy.name, Egress, policy.egress);
    FlatNumbered(parse, policy.name, Ingress, policy.ingress);
    FlatNumbered(parse, policy.name, Egress, policy.egress);
    var list := Output(parse, policy);
    assert list == a + b;
    forall i | 0 <= i < |list|
      ensures list[i].policy == policy.name && Identified(list[i])
    {
      assert list[i] == if i < |a| then a[i] else b[i - |a|];
      var idx: nat := if i < |a| then i else i - |a|;
      assert list[i].ruleID == RuleID(policy.name, list[i].direction, idx);
    }
    forall i, j | 0 <= i < j < |list|
      ensures list[i].ruleID != list[j].ruleID
    {
      var x: nat, y: nat := if i < |a| then i else i - |a|, if j < |a| then j else j - |a|;
      if list[i].ruleID == list[j].ruleID {
        RuleIDInjective(policy.name, list[i].direction, x, policy.name, list[j].direction, y);
      }
    }
  }

  ghost predicate StoreOk(store: map<string, seq<Compiled>>)
  {
    forall name :: name in store ==> store[name] != [] && Proper(store[name]) && store[name][0].policy == name
  }

  /** Every stored rule is in the flat map under its id. */
  ghost predicate Present(rules: map<string, Compiled>, store: map<string, seq<Compiled>>)
  {
    forall name, i :: name in store && 0 <= i < |store[name]| ==>
      store[name][i].ruleID in rules && rules[store[name][i].ruleID] == store[name][i]
  }

  /** Every flat rule is in the list of its policy. */
  ghost predicate Accounted(rules: map<string, Compiled>, store: map<string, seq<Compiled>>)
  {
    forall id :: id in rules ==>
      rules[id].policy in store && rules[id] in store[rules[id].policy] && rules[id].ruleID == id
  }

  /** The flat map is the disjoint union of the lists in a per-policy store. */
  ghost predicate Represents(rules: map<string, Compiled>, store: map<string, seq<Compiled>>)
  {
    StoreOk(store) && Present(rules, store) && Accounted(rules, store)
  }

  datatype Op = Apply(list: seq<Compiled>) | Remove(name: string)

  /** The per-policy store: applying replaces one list, an empty list is ignored. */
  ghost function StoreStep(store: map<string, seq<Compiled>>, op: Op): map<string, seq<Compiled>>
  {
    match op
    case Apply(list) => if list == [] then store else store[list[0].policy := list]
    case Remove(name) => store - {name}
  }

  ghost function Others(rules: map<string, Compiled>, name: string): map<string, Compiled>
  {
    map id | id in rules && rules[id].policy != name :: rules[id]
  }

  /** Rules are kept under their own ids, and ids are the compiler's. */
  ghost predicate WellKept(rules: map<string, Compiled>)
  {
    forall id :: id in rules ==> rules[id].ruleID == id && Identified(rules[id])
  }

  /** Filing a list, one rule after the other. */
  ghost function Filed(rules: map<string, Compiled>, list: seq<Compiled>): map<string, Compiled>
  {
    if list == [] then rules
    else Filed(rules, list[..|list| - 1])[list[|list| - 1].ruleID := list[|list| - 1]]
  }

  class Manager {
    var rules: map<string, Compiled>

    ghost predicate Valid()
      reads this
    {
      WellKept(rules)
    }

    constructor ()
      ensures Valid() && rules == map[]
    {
      rules := map[];
    }

    /** The deletion loop of `ApplyRules` and `RemovePolicy`. */
    method DropPolicy(name: string)
      modifies this
      ensures rules == Others(old(rules), name)
    {
      var todo := rules.Keys;
      ghost var before := rules;
      while todo != {}
        invariant todo <= before.Keys
        invariant forall id :: id in rules <==> id in before && (id in todo || before[id].policy != name)
        invariant forall id :: id in rules ==> rules[id] == before[id]
        decreases |todo|
      {
        var id :| id in todo;
        if rules[id].policy == name {
          rules := rules - {id};
        }
        todo := todo - {id};
      }
    }

    /** Replaces the rules of the first entry's policy by the list, later entries winning over
        earlier ones with the same id; an empty list is a no-op.  A list from the compiler is
        in the map as it is. */
    method ApplyRules(list: seq<Compiled>)
      modifies this
      ensures rules == if list == [] then old(rules) else Filed(Others(old(rules), list[0].policy), list)
      ensures old(Valid()) && Proper(list) ==> Valid() && NextRules(old(rules), Apply(list), rules)
    {
      hide Identified, Proper, Applied;
      if |list| == 0 {
        return;
      }
      DropPolicy(list[0].policy);
      ghost var kept := rules;
      for i := 0 to |list|
        invariant rules == Filed(kept, list[..i])
      {
        assert list[..i + 1][..i] == list[..i];
        rules := rules[list[i].ruleID := list[i]];
      }
      assert list[..|list|] == list;
      if old(Valid()) && Proper(list) {
        FiledIsApplied(old(rules), list);
      }
    }

    method RemovePolicy(name: string)
      modifies this
      ensures old(Valid()) ==> Valid()
      ensures NextRules(old(rules), Remove(name), rules)
    {
      DropPolicy(name);
    }
  }

  /** An id of one policy is not the id of another policy's rule. */
  lemma NewIdIsFree(rules: map<string, Compiled>, list: seq<Compiled>, i: nat)
    requires Proper(list) && i < |list|
    requires WellKept(rules)
    ensures list[i].ruleID !in Others(rules, list[0].policy)
  {
    var id := list[i].ruleID;
    if id in Others(rules, list[0].policy) {
      var c := rules[id];
      assert Identified(c) && Identified(list[i]);
      var x: nat :| c.ruleID == RuleID(c.policy, c.direction, x);
      var y: nat :| list[i].ruleID == RuleID(list[i].policy, list[i].direction, y);
      RuleIDInjective(c.policy, c.direction, x, list[i].policy, list[i].direction, y);
    }
  }

  /** The rules of other policies, plus the list. */
  ghost predicate Applied(rules: map<string, Compiled>, list: seq<Compiled>, rules': map<string, Compiled>)
    requires list != []
  {
    var kept := Others(rules, list[0].policy);
    && (forall id :: id in kept ==> id in rules' && rules'[id] == kept[id])
    && (forall j :: 0 <= j < |list| ==> list[j].ruleID in rules' && rules'[list[j].ruleID] == list[j])
    && (forall id :: id in rules' ==> id in kept || exists j :: 0 <= j < |list| && id == list[j].ruleID)
  }

  /** What filing the first `n` rules of a compiled list does. */
  ghost predicate FiledUpTo(kept: map<string, Compiled>, list: seq<Compiled>, n: nat, rules: map<string, Compiled>)
    requires n <= |list|
  {
    && (forall id :: id in kept ==> id in rules && rules[id] == kept[id])
    && (forall j :: 0 <= j < n ==> list[j].ruleID in rules && rules[list[j].ruleID] == list[j])
    && (forall id :: id in rules ==> id in kept || exists j :: 0 <= j < n && id == list[j].ruleID)
  }

  lemma {:induction false} FilingKeeps(rules: map<string, Compiled>, list: seq<Compiled>, n: nat)
    requires WellKept(rules) && Proper(list) && list != [] && n <= |list|
    ensures var kept := Others(rules, list[0].policy);
            FiledUpTo(kept, list, n, Filed(kept, list[..n]))
  {
    hide WellKept, Identified, Others;
    if n > 0 {
      FilingKeeps(rules, list, n - 1);
      NewIdIsFree(rules, list, n - 1);
      assert list[..n][..n - 1] == list[..n - 1];
    }
  }

  lemma FiledIsApplied(rules: map<string, Compiled>, list: seq<Compiled>)
    requires WellKept(rules) && Proper(list) && list != []
    ensures var rules' := Filed(Others(rules, list[0].policy), list);
            WellKept(rules') && Applied(rules, list, rules')
  {
    hide Identified, Filed;
    FilingKeeps(rules, list, |list|);
    assert list[..|list|] == list;
  }

  lemma AppliedRepresents(rules: map<string, Compiled>, store: map<string, seq<Compiled>>, list: seq<Compiled>,
                          rules': map<string, Compiled>)
    requires list != [] && Proper(list) && Represents(rules, store) && Applied(rules, list, rules')
    ensures Represents(rules', StoreStep(store, Apply(list)))
    ensures Others(rules', list[0].policy) == Others(rules, list[0].policy)
  {
    hide Present, Accounted, Applied, Others, Proper;
    AppliedPresent(rules, store, list, rules');
    AppliedAccounted(rules, store, list, rules');
    AppliedOthers(rules, list, rules');
  }

  lemma AppliedPresent(rules: map<string, Compiled>, store: map<string, seq<Compiled>>, list: seq<Compiled>,
                       rules': map<string, Compiled>)
    requires list != [] && Proper(list) && Represents(rules, store) && Applied(rules, list, rules')
    ensures Present(rules', store[list[0].policy := list])
  {
    hide Identified, Accounted;
    var name := list[0].policy;
    forall n, i: int | n in store && n != name && 0 <= i < |store[n]|
      ensures store[n][i].ruleID in rules' && rules'[store[n][i].ruleID] == store[n][i]
    {
      assert store[n][i].policy == n;
      assert store[n][i].ruleID in Others(rules, name);
    }
  }

  lemma AppliedAccounted(rules: map<string, Compiled>, store: map<string, seq<Compiled>>, list: seq<Compiled>,
                         rules': map<string, Compiled>)
    requires list != [] && Proper(list) && Represents(rules, store) && Applied(rules, list, rules')
    ensures Accounted(rules', store[list[0].policy := list])
  {
    hide Identified, Present, StoreOk;
    var name := list[0].policy;
    forall id | id in rules' && id !in Others(rules, name)
      ensures rules'[id].policy == name && rules'[id] in list && rules'[id].ruleID == id
    {
      var j :| 0 <= j < |list| && id == list[j].ruleID;
      assert rules'[id] == list[j];
    }
  }

  lemma AppliedOthers(rules: map<string, Compiled>, list: seq<Compiled>, rules': map<string, Compiled>)
    requires list != [] && Proper(list) && Applied(rules, list, rules')
    ensures Others(rules', list[0].policy) == Others(rules, list[0].policy)
  {
    hide Identified;
    var name := list[0].policy;
    forall id | id in rules' && id !in Others(rules, name)
      ensures rules'[id].policy == name
    {
      var j :| 0 <= j < |list| && id == list[j].ruleID;
    }
  }

  // ------------------------------------------------------------------ runs

  ghost predicate NextRules(rules: map<string, Compiled>, op: Op, rules': map<string, Compiled>)
  {
    match op
    case Apply(list) => if list == [] then rules' == rules else Applied(rules, list, rules')
    case Remove(name) => rules' == Others(rules, name)
  }

  ghost function StoreRun(ops: seq<Op>): map<string, seq<Compiled>>
  {
    if ops == [] then map[] else StoreStep(StoreRun(ops[..|ops| - 1]), ops[|ops| - 1])
  }

  /** Over any run from an empty manager the flat map is the disjoint union, over the
      policies, of the last non-empty list applied and not removed since. */
  lemma {:induction false} FlatMapRefinesStore(states: seq<map<string, Compiled>>, ops: seq<Op>)
    requires |states| == |ops| + 1 && states[0] == map[]
    requires forall k :: 0 <= k < |ops| ==> NextRules(states[k], ops[k], states[k + 1])
    requires forall k :: 0 <= k < |ops| && ops[k].Apply? ==> Proper(ops[k].list)
    ensures Represents(states[|ops|], StoreRun(ops))
  {
    hide Proper, Represents, Applied;
    if ops == [] {
      EmptyRepresents();
    } else {
      var n := |ops| - 1;
      FlatMapRefinesStore(states[..n + 1], ops[..n]);
      assert NextRules(states[n], ops[n], states[n + 1]);
      match ops[n]
      case Apply(list) =>
        if list != [] {
          AppliedRepresents(states[n], StoreRun(ops[..n]), list, states[n + 1]);
        }
      case Remove(name) => RemovedRepresents(states[n], StoreRun(ops[..n]), name);
    }
  }

  lemma EmptyRepresents()
    ensures Represents(map[], map[])
  {}

  lemma RemovedRepresents(rules: map<string, Compiled>, store: map<string, seq<Compiled>>, name: string)
    requires Represents(rules, store)
    ensures Represents(Others(rules, name), store - {name})
  {
    hide Identified;
    forall n, i: int | n in store && n != name && 0 <= i < |store[n]|
      ensures store[n][i].ruleID in Others(rules, name)
    {
      assert store[n][i].policy == n;
    }
  }

  /** Applying a policy's own compiled list makes its flat rules that list, exactly when the
      list is not empty or the policy had no rules: emptying a policy leaves its old rules. */
  lemma EmptiedPolicyKeepsRules(rules: map<string, Compiled>, store: map<string, seq<Compiled>>,
                                rules': map<string, Compiled>, list: seq<Compiled>, name: string)
    requires Represents(rules, store) && Proper(list) && NextRules(rules, Apply(list), rules')
    requires list != [] ==> list[0].policy == name
    ensures (forall id :: id in rules' && rules'[id].policy == name ==> rules'[id] in list) <==>
              list != [] || name !in store
  {
    hide Identified, Applied;
    if list != [] {
      AppliedRepresents(rules, store, list, rules');
    } else if name in store {
      assert store[name][0].ruleID in rules' && rules'[store[name][0].ruleID].policy == name;
    }
  }

  lemma FlatNotEmpty(parse: Parser, policy: string, d: Direction, rules: seq<HostRule>)
    requires AllOk(parse, rules) && rules != []
    ensures Flat(parse, policy, d, rules) != []
  {
    hide Block, EffectiveCidrs, EffectivePorts;
    var r := rules[|rules| - 1];
    AtLeastOne(|EffectiveCidrs(parse, r)|, |EffectivePorts(r)|);
  }

  lemma AtLeastOne(a: nat, b: nat)
    requires a >= 1 && b >= 1
    ensures a * b >= 1
  {}

  /** From an empty manager, apply what any policy with rules compiles to, and then what it
      compiles to once its rules are removed: all the old rules are still in force. */
  lemma EmptiedRun(parse: Parser, policy: Policy, rules: map<string, Compiled>)
    requires AllOk(parse, policy.ingress) && AllOk(parse, policy.egress)
    requires policy.ingress != [] || policy.egress != []
    requires rules == Filed(map[], Output(parse, policy))
    ensures var list, emptied := Output(parse, policy), Output(parse, Policy(policy.name, [], []));
            && NextRules(map[], Apply(list), rules) && NextRules(rules, Apply(emptied), rules)
            && list != [] && forall c :: c in list ==> c.ruleID in rules && rules[c.ruleID] == c
  {
    hide Flat, Identified, Filed;
    var list := Output(parse, policy);
    if policy.ingress != [] {
      FlatNotEmpty(parse, policy.name, Ingress, policy.ingress);
    } else {
      FlatNotEmpty(parse, policy.name, Egress, policy.egress);
    }
    OutputProper(parse, policy);
    FiledIsApplied(map[], list);
    assert Others(map[], list[0].policy) == map[];
    FlatOfNone(parse, policy.name, Ingress);
    FlatOfNone(parse, policy.name, Egress);
  }

  lemma FlatOfNone(parse: Parser, policy: string, d: Direction)
    ensures Flat(parse, policy, d, []) == []
  {}
}
