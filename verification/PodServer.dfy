/**
 The AddPod and DelPod handlers (internal/agent/server.go) as they run one after the other.
 A ghost trace records the protocol steps each request performed, so that everything
 proved of interleaved runs holds of the server's own state.
 */
module PodServer {
  import opened Prelude
  import opened Bitmaps
  import opened Ipam
  import opened Labels
  import opened Text
  import opened P = PodProtocol
  import D = PodDataplane
  import R = IpamRuns
  import I = Identity

  datatype Pod = Pod(container: string, ip: Address, id: I.Id)

  datatype AddRequest = AddRequest(name: string, namespace: string, container: string, netns: string, ifName: string)

  datatype AddError = InvalidArgument | NoAddress(cause: Ipam.Error) | SetupFailed

  datatype AddResult = Added(ip: Address) | Refused(error: AddError)

  /** Every field is there and the container id is long enough to name an interface. */
  ghost predicate Acceptable(req: AddRequest)
  {
    && req.name != "" && req.namespace != "" && req.netns != "" && req.ifName != ""
    && |req.container| >= 11
  }

  function Key(namespace: string, name: string): string
  {
    namespace + "/" + name
  }

  /** Keys tell pods apart; Kubernetes namespaces have no slash. */
  lemma KeyInjective(namespace: string, name: string, namespace': string, name': string)
    requires Key(namespace, name) == Key(namespace', name') && '/' !in namespace && '/' !in namespace'
    ensures namespace == namespace' && name == name'
  {
    assert Key(namespace, name) == namespace + ['/'] + name && Key(namespace', name') == namespace' + ['/'] + name';
    CutFirst(namespace, name, namespace', name', '/');
  }

  /** The endpoint of a pod, by namespace and name. */
  ghost function EndpointOf(endpoints: map<string, Pod>, namespace: string, name: string): Option<Pod>
  {
    if Key(namespace, name) in endpoints then Some(endpoints[Key(namespace, name)]) else None
  }

  /** Every pod but one has the endpoint it had, if any. */
  ghost predicate OtherPodsKept(before: map<string, Pod>, after: map<string, Pod>, namespace: string, name: string)
  {
    forall ns, n | '/' !in ns && (ns != namespace || n != name) :: EndpointOf(after, ns, n) == EndpointOf(before, ns, n)
  }

  lemma OnlyOnePodChanges(before: map<string, Pod>, after: map<string, Pod>, namespace: string, name: string)
    requires '/' !in namespace && after - {Key(namespace, name)} == before - {Key(namespace, name)}
    ensures OtherPodsKept(before, after, namespace, name)
  {
    var key := Key(namespace, name);
    forall ns, n | '/' !in ns && (ns != namespace || n != name)
      ensures EndpointOf(after, ns, n) == EndpointOf(before, ns, n)
    {
      var other := Key(ns, n);
      assert other != key by {
        if other == key {
          KeyInjective(ns, n, namespace, name);
        }
      }
      assert other in before <==> other in before - {key};
      assert other in after <==> other in after - {key};
    }
  }

  lemma SameTable(endpoints: map<string, Pod>, namespace: string, name: string)
    ensures OtherPodsKept(endpoints, endpoints, namespace, name)
  {}

  lemma PodPut(before: map<string, Pod>, namespace: string, name: string, pod: Pod)
    requires '/' !in namespace
    ensures OtherPodsKept(before, before[Key(namespace, name) := pod], namespace, name)
  {
    hide OtherPodsKept, Key;
    var key := Key(namespace, name);
    assert before[key := pod] - {key} == before - {key};
    OnlyOnePodChanges(before, before[key := pod], namespace, name);
  }

  /** The server's endpoint table is the part of the protocol state kept under pod keys. */
  ghost predicate Tabled(c: Config, s: State, endpoints: map<string, Pod>)
  {
    && (forall key :: key in endpoints <==> Endpoint(key) in s.bundles)
    && (forall key :: key in endpoints ==>
          var b := s.bundles[Endpoint(key)];
          endpoints[key] == Pod(b.container, c.AddressAt(b.ip), b.id))
  }

  /** Every endpoint is known to the dataplane under its address and wire identity. */
  ghost predicate Shown(endpoints: map<string, Pod>, dataplane: map<Address, nat>)
  {
    forall key :: key in endpoints ==>
      endpoints[key].ip in dataplane && dataplane[endpoints[key].ip] == Wire(endpoints[key].id)
  }

  /** Identities are truncated to 32 bits on the wire. */
  function Wire(id: I.Id): nat
  {
    id % 0x1_0000_0000
  }

  /** The pushed number fits 32 bits and agrees with the id there. */
  lemma WireIsLow32(id: I.Id)
    ensures Wire(id) < 0x1_0000_0000 && (id - Wire(id)) % 0x1_0000_0000 == 0
  {}

  /** Every dataplane entry belongs to an endpoint, or to one that was overwritten. */
  ghost predicate Backed(c: Config, s: State, dataplane: map<Address, nat>)
  {
    forall a :: a in dataplane ==> exists p :: BackedBy(c, s, a, p)
  }

  ghost predicate BackedBy(c: Config, s: State, a: Address, p: Place)
  {
    p in s.bundles && (p.Endpoint? || p.Orphan?) && a == c.AddressAt(s.bundles[p].ip)
  }

  // ------------------------------------------------------------------ whole requests

  /** Endpoints have pairwise distinct addresses. */
  lemma DistinctAddresses(env: Env, s: State, endpoints: map<string, Pod>, key: string, key': string)
    requires env.Valid() && Inv(env, s) && Tabled(env.cfg, s, endpoints)
    requires key in endpoints && key' in endpoints && endpoints[key].ip == endpoints[key'].ip
    ensures key == key'
  {
    hide Counted, I.Inverse, Below;
    HistoryAt(s, Endpoint(key));
    HistoryAt(s, Endpoint(key'));
    assert Holder(s, Endpoint(key), s.bundles[Endpoint(key)].ip);
    assert Holder(s, Endpoint(key'), s.bundles[Endpoint(key')].ip);
  }

  /** What an endpoint holds can be given back: the address is allocated and unreserved, the
      identity is live. */
  lemma EndpointReleasable(env: Env, s: State, key: string)
    requires env.Valid() && Inv(env, s) && Endpoint(key) in s.bundles
    ensures var b := s.bundles[Endpoint(key)];
            && b.ip in s.ips - env.cfg.Reserved()
            && env.cfg.Contains(env.cfg.AddressAt(b.ip))
            && env.cfg.IndexOf(env.cfg.AddressAt(b.ip)) == b.ip
  {
    hide Counted, I.Inverse;
    HistoryAt(s, Endpoint(key));
    assert Holder(s, Endpoint(key), s.bundles[Endpoint(key)].ip);
    ContainsIffIndexed(env.cfg, env.cfg.AddressAt(s.bundles[Endpoint(key)].ip));
  }

  lemma TabledAfterDelete(env: Env, w: D.World, w': D.World, endpoints: map<string, Pod>, key: string, dropped: bool)
    requires env.Valid() && Inv(env, w.core) && Tabled(env.cfg, w.core, endpoints) && key in endpoints
    requires D.PodDeleted(w, w', key, dropped)
    ensures Tabled(env.cfg, w'.core, endpoints - {key})
  {
    hide Counted, I.Inverse, Partition, History, I.Removed;
  }

  lemma ShownAfterDelete(env: Env, w: D.World, w': D.World, endpoints: map<string, Pod>, dataplane: map<Address, nat>,
                         key: string)
    requires env.Valid() && Inv(env, w.core) && Tabled(env.cfg, w.core, endpoints) && key in endpoints
    requires D.PodDeleted(w, w', key, true)
    requires Shown(endpoints, dataplane) && Backed(env.cfg, w.core, dataplane)
    ensures Shown(endpoints - {key}, dataplane - {endpoints[key].ip})
    ensures Backed(env.cfg, w'.core, dataplane - {endpoints[key].ip})
  {
    hide Counted, I.Inverse, Partition, History, I.Removed;
    forall key' | key' in endpoints - {key}
      ensures endpoints[key'].ip != endpoints[key].ip
    {
      if endpoints[key'].ip == endpoints[key].ip {
        DistinctAddresses(env, w.core, endpoints, key, key');
      }
    }
    forall a | a in dataplane - {endpoints[key].ip}
      ensures exists p :: BackedBy(env.cfg, w'.core, a, p)
    {
      var p :| BackedBy(env.cfg, w.core, a, p);
      assert BackedBy(env.cfg, w'.core, a, p);
    }
  }

  /** The protocol's account of a DelPod that finds its endpoint, in the server's terms. */
  lemma DeleteInServerTerms(env: Env, w: D.World, endpoints: map<string, Pod>, dataplane: map<Address, nat>,
                            key: string, container: string, dropped: bool)
    requires env.Valid() && Inv(env, w.core) && Tabled(env.cfg, w.core, endpoints)
    requires key in endpoints && endpoints[key].container == container
    ensures var ep := endpoints[key];
            && env.cfg.Contains(ep.ip)
            && env.cfg.IndexOf(ep.ip) in w.core.ips - env.cfg.Reserved()
    ensures var ep, w' := endpoints[key], D.Perform(env, w, D.DelActs(w, key, container, dropped));
            && w'.core.ips == w.core.ips - {env.cfg.IndexOf(ep.ip)}
            && w'.core.ids == I.Removed(w.core.ids, ep.id)
            && Tabled(env.cfg, w'.core, endpoints - {key})
            && (dropped && Shown(endpoints, dataplane) && Backed(env.cfg, w.core, dataplane) ==>
                  Shown(endpoints - {key}, dataplane - {ep.ip}) && Backed(env.cfg, w'.core, dataplane - {ep.ip}))
  {
    hide D.Perform, Partition, Counted, History, I.Inverse, I.Removed, Shown, Backed;
    EndpointReleasable(env, w.core, key);
    D.DelPodEffect(env, w, key, container, dropped);
    var w' := D.Perform(env, w, D.DelActs(w, key, container, dropped));
    TabledAfterDelete(env, w, w', endpoints, key, dropped);
    if dropped && Shown(endpoints, dataplane) && Backed(env.cfg, w.core, dataplane) {
      ShownAfterDelete(env, w, w', endpoints, dataplane, key);
    }
  }

  lemma TabledAfterAdd(env: Env, w: D.World, w': D.World, endpoints: map<string, Pod>, key: string, container: string,
                       m: LabelMap, pushed: bool)
    requires D.CanAdd(env, w) && Tabled(env.cfg, w.core, endpoints)
    requires D.PodAdded(env, w, w', key, container, m, pushed)
    ensures var ip, id := R.LeastFree(env.cfg, w.core.ips), I.IdFor(env.hash, w.core.ids, m);
            Tabled(env.cfg, w'.core, endpoints[key := Pod(container, env.cfg.AddressAt(ip), id)])
  {
    hide Inv, I.Allocated, I.IdFor, R.LeastFree;
  }

  /** A newly allocated address is nobody else's. */
  lemma NewAddressIsNew(env: Env, w: D.World, endpoints: map<string, Pod>, key: string)
    requires D.CanAdd(env, w) && Tabled(env.cfg, w.core, endpoints) && key in endpoints
    ensures endpoints[key].ip != env.cfg.AddressAt(R.LeastFree(env.cfg, w.core.ips))
  {
    hide R.LeastFree, Partition, Counted, History, I.Inverse, Below;
    EndpointReleasable(env, w.core, key);
  }

  lemma ShownAfterAdd(env: Env, w: D.World, w': D.World, endpoints: map<string, Pod>, dataplane: map<Address, nat>,
                      key: string, container: string, m: LabelMap)
    requires D.CanAdd(env, w) && Tabled(env.cfg, w.core, endpoints)
    requires D.PodAdded(env, w, w', key, container, m, true)
    requires Shown(endpoints, dataplane) && Backed(env.cfg, w.core, dataplane)
    ensures var ip, id := env.cfg.AddressAt(R.LeastFree(env.cfg, w.core.ips)), I.IdFor(env.hash, w.core.ids, m);
            && Shown(endpoints[key := Pod(container, ip, id)], dataplane[ip := Wire(id)])
            && Backed(env.cfg, w'.core, dataplane[ip := Wire(id)])
  {
    hide Inv, I.Allocated, I.IdFor, R.LeastFree, Wire, Backed, Config.AddressAt;
    var ip := env.cfg.AddressAt(R.LeastFree(env.cfg, w.core.ips));
    forall key' | key' in endpoints
      ensures endpoints[key'].ip != ip
    {
      NewAddressIsNew(env, w, endpoints, key');
    }
    BackedAfterAdd(env, w, w', dataplane, key, container, m);
  }

  lemma BackedAfterAdd(env: Env, w: D.World, w': D.World, dataplane: map<Address, nat>, key: string, container: string,
                       m: LabelMap)
    requires D.CanAdd(env, w) && D.PodAdded(env, w, w', key, container, m, true) && Backed(env.cfg, w.core, dataplane)
    ensures var ip, id := env.cfg.AddressAt(R.LeastFree(env.cfg, w.core.ips)), I.IdFor(env.hash, w.core.ids, m);
            Backed(env.cfg, w'.core, dataplane[ip := Wire(id)])
  {
    hide Inv, I.Allocated, I.IdFor, R.LeastFree, Wire, Config.AddressAt;
    var ip := env.cfg.AddressAt(R.LeastFree(env.cfg, w.core.ips));
    assert BackedBy(env.cfg, w'.core, ip, Endpoint(key));
    D.NothingFresh(env, w);
    forall a | a in dataplane && a != ip
      ensures exists p :: BackedBy(env.cfg, w'.core, a, p)
    {
      var p :| BackedBy(env.cfg, w.core, a, p);
      assert BackedBy(env.cfg, w'.core, a, if p == Endpoint(key) then Orphan(w.core.next + 1) else p);
    }
  }

  /** The protocol's account of a successful AddPod, in the server's terms. */
  lemma AddInServerTerms(env: Env, w: D.World, endpoints: map<string, Pod>, dataplane: map<Address, nat>,
                         key: string, container: string, m: LabelMap, pushed: bool)
    requires D.CanAdd(env, w) && Tabled(env.cfg, w.core, endpoints)
    ensures var ip, id := R.LeastFree(env.cfg, w.core.ips), I.IdFor(env.hash, w.core.ids, m);
            var pod := Pod(container, env.cfg.AddressAt(ip), id);
            var w' := D.Perform(env, w, D.AddActs(w, key, container, m, pushed));
            && w'.core.ips == w.core.ips + {ip}
            && w'.core.ids == I.Allocated(env.hash, w.core.ids, m)
            && Tabled(env.cfg, w'.core, endpoints[key := pod])
            && (pushed && Shown(endpoints, dataplane) && Backed(env.cfg, w.core, dataplane) ==>
                  Shown(endpoints[key := pod], dataplane[pod.ip := Wire(id)]) &&
                  Backed(env.cfg, w'.core, dataplane[pod.ip := Wire(id)]))
  {
    hide D.Perform, Inv, I.Allocated, I.IdFor, R.LeastFree, Shown, Backed, Tabled;
    D.AddPodEffect(env, w, key, container, m, pushed);
    var w' := D.Perform(env, w, D.AddActs(w, key, container, m, pushed));
    TabledAfterAdd(env, w, w', endpoints, key, container, m, pushed);
    if pushed && Shown(endpoints, dataplane) && Backed(env.cfg, w.core, dataplane) {
      ShownAfterAdd(env, w, w', endpoints, dataplane, key, container, m);
    }
  }

  /** A failed AddPod, in the server's terms. */
  lemma FailInServerTerms(env: Env, w: D.World, endpoints: map<string, Pod>, dataplane: map<Address, nat>,
                          key: string, container: string, m: LabelMap)
    requires D.CanAdd(env, w) && Tabled(env.cfg, w.core, endpoints)
    ensures var w' := D.Perform(env, w, D.FailActs(w, key, container, m));
            && w'.core.ips == w.core.ips && w'.core.ids == w.core.ids
            && Tabled(env.cfg, w'.core, endpoints)
            && (Backed(env.cfg, w.core, dataplane) ==> Backed(env.cfg, w'.core, dataplane))
  {
    hide D.Perform, Inv, R.LeastFree;
    D.FailedAddPodEffect(env, w, key, container, m);
    var w' := D.Perform(env, w, D.FailActs(w, key, container, m));
    assert forall a, p :: BackedBy(env.cfg, w'.core, a, p) <==> BackedBy(env.cfg, w.core, a, p);
  }

  /** What `Allocate` returned is the protocol's least free address, in the pool and unreserved. */
  lemma Granted(env: Env, w: D.World, a: Address)
    requires env.Valid() && Inv(env, w.core)
    requires exists i: nat :: IsLeastFree(env.cfg, w.core.ips, i) && a == env.cfg.AddressAt(i)
    ensures var i := R.LeastFree(env.cfg, w.core.ips);
            && i >= 0 && a == env.cfg.AddressAt(i) && env.cfg.IndexOf(a) == i && env.cfg.Contains(a)
            && i !in w.core.ips && i !in env.cfg.Reserved()
            && (w.core.ips + {i}) - {i} == w.core.ips
  {
    hide Counted, History, I.Inverse, R.LeastFree;
    var i: nat :| IsLeastFree(env.cfg, w.core.ips, i) && a == env.cfg.AddressAt(i);
    R.LeastFreeUnique(env.cfg, w.core.ips, i);
    ContainsIffIndexed(env.cfg, a);
    CountChange(w.core.ips, i);
  }

  lemma UndoIdentity(env: Env, w: D.World, m: LabelMap)
    requires D.CanAdd(env, w)
    ensures I.Inverse(w.core.ids) && |w.core.ids.idToLabels.Keys| < I.WIDTH &&
              I.Inverse(I.Allocated(env.hash, w.core.ids, m))
    ensures I.Removed(I.Allocated(env.hash, w.core.ids, m), I.IdFor(env.hash, w.core.ids, m)) == w.core.ids
  {
    hide Partition, Counted, History, I.Inverse, I.Allocated, I.IdFor, I.Removed, R.LeastFree;
    I.AllocatedInverse(env.hash, w.core.ids, m);
    I.RemoveUndoesAllocate(env.hash, w.core.ids, m);
  }

  /** `validateAddPodRequest`. */
  method Validate(req: AddRequest) returns (ok: bool)
    ensures ok <==> Acceptable(req)
  {
    if req.name == "" {
      return false;
    }
    if req.namespace == "" {
      return false;
    }
    if req.container == "" {
      return false;
    }
    if req.netns == "" {
      return false;
    }
    if req.ifName == "" {
      return false;
    }
    if |req.container| < 11 {
      return false;
    }
    return true;
  }

  class Server {
    const ipAlloc: Ipam.Allocator
    const idAlloc: I.Allocator
    var endpoints: map<string, Pod>
    var dataplane: map<Address, nat>
    ghost const env: Env
    ghost var trace: seq<D.Act>
    ghost var faultless: bool  // every dataplane call so far was made and succeeded

    ghost function World(): D.World
      requires env.Valid()
      reads this
    {
      D.Run(env, trace)
    }

    ghost predicate Valid()
      reads this, ipAlloc, ipAlloc.bitmap.words, idAlloc
    {
      && env.Valid() && ipAlloc.Valid() && idAlloc.Valid()
      && env.cfg == ipAlloc.cfg && env.hash == idAlloc.hash
      && World().core.ips == ipAlloc.Bits() && World().core.ids == idAlloc.View()
      && Tabled(env.cfg, World().core, endpoints)
      && (faultless ==> Shown(endpoints, dataplane) && Backed(env.cfg, World().core, dataplane))
    }

    constructor (ipAlloc: Ipam.Allocator, idAlloc: I.Allocator)
      requires ipAlloc.Valid() && idAlloc.Valid() && idAlloc.View() == I.EMPTY
      ensures Valid() && this.ipAlloc == ipAlloc && this.idAlloc == idAlloc
      ensures endpoints == map[] && trace == [] && faultless
    {
      this.ipAlloc := ipAlloc;
      this.idAlloc := idAlloc;
      endpoints, dataplane := map[], map[];
      env := Env(ipAlloc.cfg, idAlloc.hash, ipAlloc.bitmap.Contents());
      trace, faultless := [], true;
    }

    ghost function Repr(): set<object>
      reads this
    {
      {this, idAlloc} + ipAlloc.Repr()
    }

    lemma Extend(acts: seq<D.Act>)
      requires env.Valid()
      ensures D.Run(env, trace + acts) == D.Perform(env, World(), acts)
    {
      hide D.Perform, Inv;
      StartInv(env);
      D.PerformConcat(env, D.Begin(env), trace, acts);
    }

    method FreeResources(ep: Pod, removed: bool)
      requires ipAlloc.Valid() && idAlloc.Valid()
      requires ipAlloc.cfg.Contains(ep.ip) && ipAlloc.cfg.IndexOf(ep.ip) in ipAlloc.Bits() - ipAlloc.cfg.Reserved()
      modifies ipAlloc.Repr(), idAlloc
      ensures ipAlloc.Valid() && idAlloc.Valid()
      ensures ipAlloc.Bits() == old(ipAlloc.Bits()) - {ipAlloc.cfg.IndexOf(ep.ip)}
      ensures idAlloc.View() == I.Removed(old(idAlloc.View()), ep.id)
    {
      hide Members, Below, Aligned, I.Removed, I.Inverse, Config.Contains;
      var ok := ipAlloc.Release(ep.ip, removed);
      idAlloc.RemoveIdentity(ep.id);
    }

    /** DelPod once it has found the endpoint. */
    method Retire(key: string, removed: bool, dropped: bool)
      requires Valid() && key in endpoints
      modifies Repr()
      ensures Valid()
      ensures endpoints == old(endpoints) - {key}
      ensures ipAlloc.Bits() == old(ipAlloc.Bits()) - {ipAlloc.cfg.IndexOf(old(endpoints)[key].ip)}
      ensures idAlloc.View() == I.Removed(old(idAlloc.View()), old(endpoints)[key].id)
      ensures faultless == (old(faultless) && dropped) && old(trace) <= trace
      ensures dataplane == if dropped then old(dataplane) - {old(endpoints)[key].ip} else old(dataplane)
    {
      hide D.Run, D.Perform, Members, Below, Aligned, Inv, I.Removed, I.Inverse, Tabled, Shown, Backed, Config.Contains;
      var ep := endpoints[key];
      ghost var w := World();
      ghost var acts := D.DelActs(w, key, ep.container, dropped);
      Extend(acts);
      DeleteInServerTerms(env, w, endpoints, dataplane, key, ep.container, dropped);
      trace, faultless := trace + acts, faultless && dropped;
      endpoints := endpoints - {key};
      FreeResources(ep, removed);
      if dropped {
        dataplane := dataplane - {ep.ip};
      }
    }

    /** DelPod: an endpoint is given up only to a request that names its container; then its
        address and one reference to its identity go, and nothing else. */
    method DelPod(name: string, namespace: string, container: string, removed: bool, dropped: bool)
      requires Valid()
      modifies Repr()
      ensures Valid()
      ensures var key := Key(namespace, name);
              if key in old(endpoints) && old(endpoints)[key].container == container then
                && endpoints == old(endpoints) - {key}
                && ipAlloc.Bits() == old(ipAlloc.Bits()) - {ipAlloc.cfg.IndexOf(old(endpoints)[key].ip)}
                && idAlloc.View() == I.Removed(old(idAlloc.View()), old(endpoints)[key].id)
                && dataplane == (if dropped then old(dataplane) - {old(endpoints)[key].ip} else old(dataplane))
                && faultless == (old(faultless) && dropped)
              else
                && endpoints == old(endpoints) && dataplane == old(dataplane) && faultless == old(faultless)
                && ipAlloc.Bits() == old(ipAlloc.Bits()) && idAlloc.View() == old(idAlloc.View())
      ensures old(trace) <= trace
      ensures '/' !in namespace ==> OtherPodsKept(old(endpoints), endpoints, namespace, name)
    {
      hide D.Run, Members, Below, Aligned, Inv, I.Removed, I.Inverse, Tabled, Shown, Backed, Config.Contains,
          OtherPodsKept;
      var key := namespace + "/" + name;
      ghost var before := endpoints;
      if '/' !in namespace {
        OnlyOnePodChanges(before, before, namespace, name);
        assert (before - {key}) - {key} == before - {key};
        OnlyOnePodChanges(before, before - {key}, namespace, name);
      }
      if key !in endpoints || endpoints[key].container != container {
        return;
      }
      Retire(key, removed, dropped);
    }

    /** AddPod between its allocations and the outcome of the network setup: address `i` and
        a reference to the identity of `m` are out, and the table does not know yet. */
    ghost predicate Preparing(i: nat, m: LabelMap)
      reads this, ipAlloc, ipAlloc.bitmap.words, idAlloc
    {
      && env.Valid() && ipAlloc.Valid() && idAlloc.Valid()
      && env.cfg == ipAlloc.cfg && env.hash == idAlloc.hash
      && D.CanAdd(env, World()) && i == R.LeastFree(env.cfg, World().core.ips)
      && ipAlloc.Bits() == World().core.ips + {i}
      && idAlloc.View() == I.Allocated(env.hash, World().core.ids, m)
      && Tabled(env.cfg, World().core, endpoints)
      && (faultless ==> Shown(endpoints, dataplane) && Backed(env.cfg, World().core, dataplane))
    }

    method Prepare(m: LabelMap, w: Write) returns (r: Result<(Address, I.Id)>)
      requires Valid() && |idAlloc.idToLabels.Keys| < I.WIDTH
      modifies idAlloc, ipAlloc.Repr()
      ensures R.LeastFree(env.cfg, World().core.ips) < 0 ==> r == Err(NoFreeAddresses)
      ensures R.LeastFree(env.cfg, World().core.ips) >= 0 ==>
                (r.Ok? <==> ipAlloc.dir == null || w.Written?) && (r.Err? ==> r.error == PersistFailed)
      ensures r.Err? ==> Valid() && ipAlloc.Bits() == old(ipAlloc.Bits()) && idAlloc.View() == old(idAlloc.View())
      ensures r.Ok? ==>
                var i := R.LeastFree(env.cfg, World().core.ips);
                && i >= 0 && Preparing(i, m)
                && r.value == (env.cfg.AddressAt(i), I.IdFor(env.hash, World().core.ids, m))
    {
      hide D.Run, Members, Below, Aligned, Inv, I.Allocated, I.IdFor, I.Inverse, Tabled, Shown, Backed, R.LeastFree;
      ghost var world := World();
      var allocation := ipAlloc.Allocate(w);
      if allocation.Err? {
        return Err(allocation.error);
      }
      Granted(env, world, allocation.value);
      var id := idAlloc.AllocateIdentity(m);
      return Ok((allocation.value, id));
    }

    /** The rollback after a failed setup restores both allocators. */
    method Abandon(podIP: Address, id: I.Id, removed: bool, ghost key: string, ghost container: string, ghost i: nat,
                   ghost m: LabelMap)
      requires Preparing(i, m) && podIP == env.cfg.AddressAt(i) && id == I.IdFor(env.hash, World().core.ids, m)
      modifies Repr()
      ensures Valid() && faultless == old(faultless) && endpoints == old(endpoints) && dataplane == old(dataplane)
      ensures old(trace) <= trace
      ensures ipAlloc.Bits() == old(World()).core.ips && idAlloc.View() == old(World()).core.ids
    {
      hide D.Run, D.Perform, Members, Below, Aligned, Inv, I.Allocated, I.Removed, I.IdFor, I.Inverse, Tabled, Shown,
          Backed, R.LeastFree, D.CanAdd, Config.Contains;
      ghost var world := World();
      Granted(env, world, podIP);
      UndoIdentity(env, world, m);
      ghost var acts := D.FailActs(world, key, container, m);
      Extend(acts);
      FailInServerTerms(env, world, endpoints, dataplane, key, container, m);
      trace := trace + acts;
      var ok := ipAlloc.Release(podIP, removed);
      idAlloc.RemoveIdentity(id);
    }

    /** After a successful setup: the endpoint table and the dataplane. */
    method InstallPod(key: string, pod: Pod, pushed: bool, ghost i: nat, ghost m: LabelMap)
      requires Preparing(i, m) && pod.ip == env.cfg.AddressAt(i) && pod.id == I.IdFor(env.hash, World().core.ids, m)
      modifies this
      ensures Valid() && faultless == (old(faultless) && pushed) && old(trace) <= trace
      ensures endpoints == old(endpoints)[key := pod]
      ensures dataplane == if pushed then old(dataplane)[pod.ip := Wire(pod.id)] else old(dataplane)
    {
      hide D.Run, D.Perform, Members, Below, Aligned, Inv, I.Allocated, I.IdFor, I.Inverse, Tabled, Shown, Backed,
          R.LeastFree, D.CanAdd;
      ghost var world := World();
      ghost var acts := D.AddActs(world, key, pod.container, m, pushed);
      Extend(acts);
      AddInServerTerms(env, world, endpoints, dataplane, key, pod.container, m, pushed);
      trace, faultless := trace + acts, faultless && pushed;
      endpoints := endpoints[key := pod];
      if pushed {
        dataplane := dataplane[pod.ip := pod.id % 0x1_0000_0000];
      }
    }

    /** AddPod.  On success the pod has the least free address and a reference to the
        identity of its labels, and its endpoint replaces any earlier one; in every other
        case no address, identity or endpoint has changed. */
    method AddPod(req: AddRequest, labels: LabelMap, w: Write, setupOk: bool, removed: bool, pushed: bool)
      returns (r: AddResult)
      requires Valid() && |idAlloc.idToLabels.Keys| < I.WIDTH
      modifies Repr()
      ensures Valid()
      ensures r == Refused(InvalidArgument) <==> !Acceptable(req)
      ensures r == Refused(NoAddress(NoFreeAddresses)) <==>
                Acceptable(req) && R.LeastFree(ipAlloc.cfg, old(ipAlloc.Bits())) < 0
      ensures r.Added? || r == Refused(SetupFailed) <==>
                Acceptable(req) && R.LeastFree(ipAlloc.cfg, old(ipAlloc.Bits())) >= 0 &&
                  (ipAlloc.dir == null || w.Written?)
      ensures r.Added? ==> setupOk
      ensures r == Refused(SetupFailed) ==> !setupOk
      ensures r.Added? ==>
                var m := labels["novanet.io/namespace" := req.namespace];
                var id := I.IdFor(idAlloc.hash, old(idAlloc.View()), m);
                && ipAlloc.cfg.IndexOf(r.ip) == R.LeastFree(ipAlloc.cfg, old(ipAlloc.Bits()))
                && ipAlloc.Bits() == old(ipAlloc.Bits()) + {R.LeastFree(ipAlloc.cfg, old(ipAlloc.Bits()))}
                && idAlloc.View() == I.Allocated(idAlloc.hash, old(idAlloc.View()), m)
                && endpoints == old(endpoints)[Key(req.namespace, req.name) := Pod(req.container, r.ip, id)]
                && dataplane == if pushed then old(dataplane)[r.ip := Wire(id)] else old(dataplane)
      ensures r.Added? && pushed ==>
                var id := endpoints[Key(req.namespace, req.name)].id;
                && r.ip in dataplane && dataplane[r.ip] < 0x1_0000_0000
                && (id - dataplane[r.ip]) % 0x1_0000_0000 == 0
      ensures '/' !in req.namespace ==> OtherPodsKept(old(endpoints), endpoints, req.namespace, req.name)
      ensures r.Refused? ==>
                && ipAlloc.Bits() == old(ipAlloc.Bits()) && idAlloc.View() == old(idAlloc.View())
                && endpoints == old(endpoints) && dataplane == old(dataplane)
      ensures faultless == (old(faultless) && (pushed || r.Refused?)) && old(trace) <= trace
    {
      hide D.Run, Members, Below, Aligned, Inv, I.Allocated, I.IdFor, I.Inverse, Tabled, Shown, Backed, R.LeastFree,
          OtherPodsKept, Wire;
      ghost var before := endpoints;
      SameTable(before, req.namespace, req.name);
      var ok := Validate(req);
      if !ok {
        return Refused(InvalidArgument);
      }
      var key := req.namespace + "/" + req.name;
      var m := labels["novanet.io/namespace" := req.namespace];
      var prepared := Prepare(m, w);
      if prepared.Err? {
        return Refused(NoAddress(prepared.error));
      }
      ghost var i := R.LeastFree(env.cfg, World().core.ips);
      var (podIP, id) := prepared.value;
      if !setupOk {
        Abandon(podIP, id, removed, key, req.container, i, m);
        return Refused(SetupFailed);
      }
      InstallPod(key, Pod(req.container, podIP, id), pushed, i, m);
      WireIsLow32(id);
      if '/' !in req.namespace {
        PodPut(before, req.namespace, req.name, Pod(req.container, podIP, id));
      }
      return Added(podIP);
    }
  }
}
