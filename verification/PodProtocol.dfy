/**
 AddPod and DelPod (internal/agent/server.go) as a concurrent protocol over the address
 allocator and the identity allocator.  Each mutex-protected call is one atomic step,
 requests interleave freely, and setting up the pod network may fail.

 Every address and identity that has been handed out sits in exactly one place: the local
 variables of an AddPod in progress, an entry of the endpoint table, the local variables
 of a DelPod in progress, or an endpoint that was overwritten by a later AddPod for the
 same pod and that nothing refers to any more.
 */
module PodProtocol {
  import opened Prelude
  import opened Ipam
  import opened IpamRuns
  import opened Labels
  import I = Identity

  /** The pool, the hash, and the indices that were reloaded from the state directory when
      the agent started; the endpoint table starts empty. */
  datatype Env = Env(cfg: Config, hash: I.Hash, reloaded: set<nat>) {

    ghost predicate Valid()
    {
      cfg.Valid() && reloaded <= Below(cfg.size)
    }

    /** What is allocated before the first request. */
    ghost function Initial(): set<nat>
      requires Valid()
    {
      cfg.Reserved() + reloaded
    }
  }

  /** Where resources are kept. */
  datatype Place =
    | Adding(request: nat)
    | Endpoint(key: string)      // an entry of Server.Endpoints
    | Deleting(request: nat)
    | Orphan(serial: nat)        // an overwritten entry

  datatype Stage =
    | HasIP       // AddPod between Allocate and AllocateIdentity
    | HasBoth     // AddPod before and during SetupPodNetwork
    | UndoIP      // AddPod after a failed setup, before Release
    | UndoID      // AddPod after Release, before RemoveIdentity
    | Live        // in the endpoint table
    | DropIP      // DelPod after taking the endpoint, before Release
    | DropID      // DelPod after Release, before RemoveIdentity
    | Lost        // overwritten

  /** The resources of one AddPod request; `origin` is the request's serial number. */
  datatype Bundle = Bundle(stage: Stage, key: string, container: string, origin: nat, ip: nat, id: I.Id) {
    predicate HoldsIP() { stage !in {UndoID, DropID} }
    predicate HoldsID() { !stage.HasIP? }
  }

  /** `next`, `containers` and the two `freed` sets are history: the serial number of the
      next request, the container each request named, and the AddPod requests whose
      resources have been given back. */
  datatype State = State(
    ips: set<nat>,
    ids: I.State,
    bundles: map<Place, Bundle>,
    next: nat,
    containers: map<nat, string>,
    freedIP: set<nat>,
    freedID: set<nat>)

  datatype Event =
    | AllocateIP(key: string, container: string, outcome: Write)
    | AllocateID(request: nat, labels: LabelMap)
    | SetupFails(request: nat)
    | Install(request: nat)                      // setup succeeded; table entry written under Mu
    | RollbackIP(request: nat)
    | RollbackID(request: nat)
    | TakeEndpoint(key: string, container: string)  // DelPod's section under Mu
    | ReleaseIP(request: nat)
    | ReleaseID(request: nat)

  ghost function Start(env: Env): State
    requires env.Valid()
  {
    State(env.Initial(), I.EMPTY, map[], 0, map[], {}, {})
  }

  ghost predicate InStage(s: State, p: Place, stage: Stage)
  {
    p in s.bundles && s.bundles[p].stage == stage
  }

  /** Moves a bundle, which changes its stage; whatever was at the destination is replaced. */
  ghost function Move(bundles: map<Place, Bundle>, from: Place, to: Place, stage: Stage): map<Place, Bundle>
    requires from in bundles
  {
    (bundles - {from})[to := bundles[from].(stage := stage)]
  }

  /** The endpoint table after `Endpoints[key] = ep`, with a previous entry set aside. */
  ghost function Installed(s: State, r: nat): map<Place, Bundle>
    requires Adding(r) in s.bundles
  {
    var at := Endpoint(s.bundles[Adding(r)].key);
    var aside := if at in s.bundles then Move(s.bundles, at, Orphan(s.next), Lost) else s.bundles;
    Move(aside, Adding(r), at, Live)
  }

  ghost predicate Enabled(env: Env, s: State, e: Event)
    requires env.Valid()
  {
    match e
    case AllocateIP(_, _, w) => LeastFree(env.cfg, s.ips) >= 0 && w.Written?
    case AllocateID(r, _) => InStage(s, Adding(r), HasIP) && |s.ids.idToLabels.Keys| < I.WIDTH
    case SetupFails(r) => InStage(s, Adding(r), HasBoth)
    case Install(r) => InStage(s, Adding(r), HasBoth)
    case RollbackIP(r) => InStage(s, Adding(r), UndoIP)
    case RollbackID(r) => InStage(s, Adding(r), UndoID)
    case TakeEndpoint(key, container) => Endpoint(key) in s.bundles && s.bundles[Endpoint(key)].container == container
    case ReleaseIP(r) => InStage(s, Deleting(r), DropIP)
    case ReleaseID(r) => InStage(s, Deleting(r), DropID)
  }

  /** One atomic step.  A request that is refused (no free address, a failed write, an
      unknown endpoint, a stale container) or an event out of place changes nothing. */
  ghost function Step(env: Env, s: State, e: Event): State
    requires env.Valid() && I.Inverse(s.ids)
  {
    if !Enabled(env, s, e) then s else
    match e
    case AllocateIP(key, container, _) =>
      var i := LeastFree(env.cfg, s.ips);
      s.(ips := s.ips + {i},
         bundles := s.bundles[Adding(s.next) := Bundle(HasIP, key, container, s.next, i, 0)],
         containers := s.containers[s.next := container],
         next := s.next + 1)
    case AllocateID(r, m) =>
      s.(ids := I.Allocated(env.hash, s.ids, m),
         bundles := s.bundles[Adding(r) := s.bundles[Adding(r)].(stage := HasBoth, id := I.IdFor(env.hash, s.ids, m))])
    case SetupFails(r) =>
      s.(bundles := Move(s.bundles, Adding(r), Adding(r), UndoIP))
    case Install(r) =>
      s.(bundles := Installed(s, r), next := s.next + 1)
    case RollbackIP(r) =>
      var b := s.bundles[Adding(r)];
      s.(ips := s.ips - {b.ip}, bundles := Move(s.bundles, Adding(r), Adding(r), UndoID),
        freedIP := s.freedIP + {b.origin})
    case RollbackID(r) =>
      var b := s.bundles[Adding(r)];
      s.(ids := I.Removed(s.ids, b.id), bundles := s.bundles - {Adding(r)}, freedID := s.freedID + {b.origin})
    case TakeEndpoint(key, container) =>
      s.(bundles := Move(s.bundles, Endpoint(key), Deleting(s.next), DropIP),
         containers := s.containers[s.next := container],
         next := s.next + 1)
    case ReleaseIP(r) =>
      var b := s.bundles[Deleting(r)];
      s.(ips := s.ips - {b.ip}, bundles := Move(s.bundles, Deleting(r), Deleting(r), DropID),
        freedIP := s.freedIP + {b.origin})
    case ReleaseID(r) =>
      var b := s.bundles[Deleting(r)];
      s.(ids := I.Removed(s.ids, b.id), bundles := s.bundles - {Deleting(r)}, freedID := s.freedID + {b.origin})
  }

  // ------------------------------------------------------------------ the invariant

  ghost predicate Holder(s: State, p: Place, ip: nat)
  {
    p in s.bundles && s.bundles[p].HoldsIP() && s.bundles[p].ip == ip
  }

  /** Allocated addresses are the initial ones and, one place each, the held ones. */
  ghost predicate Partition(env: Env, s: State)
    requires env.Valid()
  {
    && env.Initial() <= s.ips <= Below(env.cfg.size)
    && (forall p, ip :: Holder(s, p, ip) ==> ip in s.ips - env.Initial())
    && (forall p, q, ip :: Holder(s, p, ip) && Holder(s, q, ip) ==> p == q)
    && (forall ip :: ip in s.ips - env.Initial() ==> exists p :: Holder(s, p, ip))
  }

  ghost function HoldersOf(s: State, id: I.Id): set<Place>
  {
    set p | p in s.bundles && s.bundles[p].HoldsID() && s.bundles[p].id == id
  }

  /** The reference count of every identity is the number of places that hold it. */
  ghost predicate Counted(s: State)
  {
    forall id :: I.CountOf(s.ids.refCount, id) == |HoldersOf(s, id)|
  }

  /** A place and the stage of what it keeps agree. */
  ghost predicate WellPlaced(s: State, p: Place)
    requires p in s.bundles
  {
    var b := s.bundles[p];
    match p
    case Adding(r) => b.stage in {HasIP, HasBoth, UndoIP, UndoID} && r < s.next && b.origin == r
    case Endpoint(key) => b.stage == Live && b.key == key
    case Deleting(r) => b.stage in {DropIP, DropID} && r < s.next && r in s.containers && s.containers[r] == b.container
    case Orphan(n) => b.stage == Lost && n < s.next
  }

  /** Each bundle comes from one AddPod request, which named its container; what a bundle
      still holds has not been given back. */
  ghost predicate Traced(s: State, p: Place)
    requires p in s.bundles
  {
    var b := s.bundles[p];
    && b.origin < s.next && b.origin in s.containers && s.containers[b.origin] == b.container
    && (b.HoldsIP() <==> b.origin !in s.freedIP)
    && b.origin !in s.freedID
  }

  ghost predicate History(s: State)
  {
    && (forall p :: p in s.bundles ==> WellPlaced(s, p) && Traced(s, p))
    && (forall p, q :: p in s.bundles && q in s.bundles && s.bundles[p].origin == s.bundles[q].origin ==> p == q)
    && (forall n :: n in s.freedIP + s.freedID + s.containers.Keys ==> n < s.next)
  }

  ghost predicate Inv(env: Env, s: State)
    requires env.Valid()
  {
    I.Inverse(s.ids) && Partition(env, s) && Counted(s) && History(s)
  }

  // ------------------------------------------------------------------ moves

  /** The bundle at `from` may go to `to` as `stage` without gaining or losing resources. */
  ghost predicate Movable(s: State, from: Place, to: Place, stage: Stage)
  {
    && from in s.bundles && (to == from || to !in s.bundles)
    && var b := s.bundles[from].(stage := stage);
       b.HoldsIP() == s.bundles[from].HoldsIP() && b.HoldsID() == s.bundles[from].HoldsID()
  }

  lemma MoveHolder(s: State, from: Place, to: Place, stage: Stage, p: Place, ip: nat)
    requires Movable(s, from, to, stage)
    ensures Holder(s.(bundles := Move(s.bundles, from, to, stage)), p, ip) <==>
            if p == to then Holder(s, from, ip) else p != from && Holder(s, p, ip)
  {}

  lemma MovePartition(env: Env, s: State, from: Place, to: Place, stage: Stage)
    requires env.Valid() && Partition(env, s) && Movable(s, from, to, stage)
    ensures Partition(env, s.(bundles := Move(s.bundles, from, to, stage)))
  {
    hide Below;
    var s' := s.(bundles := Move(s.bundles, from, to, stage));
    forall p, ip
      ensures Holder(s', p, ip) <==> if p == to then Holder(s, from, ip) else p != from && Holder(s, p, ip)
    {
      MoveHolder(s, from, to, stage, p, ip);
    }
    forall ip | ip in s.ips - env.Initial()
      ensures exists p :: Holder(s', p, ip)
    {
      var p :| Holder(s, p, ip);
      assert Holder(s', if p == from then to else p, ip);
    }
  }

  lemma SwapCount(places: set<Place>, from: Place, to: Place)
    requires from in places && (to == from || to !in places)
    ensures |places - {from} + {to}| == |places|
  {
    assert |places - {from}| == |places| - 1;
  }

  lemma MoveCounted(s: State, from: Place, to: Place, stage: Stage)
    requires Counted(s) && Movable(s, from, to, stage)
    ensures Counted(s.(bundles := Move(s.bundles, from, to, stage)))
  {
    var s' := s.(bundles := Move(s.bundles, from, to, stage));
    hide HoldersOf, Move, Movable;
    forall id
      ensures |HoldersOf(s', id)| == |HoldersOf(s, id)|
    {
      MoveHolders(s, from, to, stage, id);
    }
  }

  lemma MoveHolders(s: State, from: Place, to: Place, stage: Stage, id: I.Id)
    requires Movable(s, from, to, stage)
    ensures |HoldersOf(s.(bundles := Move(s.bundles, from, to, stage)), id)| == |HoldersOf(s, id)|
  {
    var s' := s.(bundles := Move(s.bundles, from, to, stage));
    if from in HoldersOf(s, id) {
      SwapCount(HoldersOf(s, id), from, to);
      assert HoldersOf(s', id) == HoldersOf(s, id) - {from} + {to};
    } else {
      assert HoldersOf(s', id) == HoldersOf(s, id);
    }
  }

  // ------------------------------------------------------------------ single steps

  lemma PartitionStep(env: Env, s: State, e: Event)
    requires env.Valid() && Inv(env, s) && Enabled(env, s, e)
    ensures Partition(env, Step(env, s, e))
  {
    hide Below, LeastFree, I.Allocated, I.Removed, I.IdFor, Counted, I.Inverse, Partition, History;
    var s' := Step(env, s, e);
    FreshPlaces(s);
    match e
    case AllocateIP(key, container, w) =>
      ClaimPartition(env, s, s', Adding(s.next));
    case AllocateID(r, m) => SameHolders(env, s, s');
    case SetupFails(r) =>
      MovePartition(env, s, Adding(r), Adding(r), UndoIP);
      SameHolders(env, s.(bundles := s'.bundles), s');
    case Install(r) =>
      InstallPartition(env, s, r);
      SameHolders(env, s.(bundles := s'.bundles), s');
    case TakeEndpoint(key, container) =>
      HistoryAt(s, Endpoint(key));
      MovePartition(env, s, Endpoint(key), Deleting(s.next), DropIP);
      SameHolders(env, s.(bundles := s'.bundles), s');
    case RollbackIP(r) => ReleasePartition(env, s, s', Adding(r));
    case ReleaseIP(r) => ReleasePartition(env, s, s', Deleting(r));
    case RollbackID(r) => SameHolders(env, s, s');
    case ReleaseID(r) => SameHolders(env, s, s');
  }

  lemma SameHolders(env: Env, s: State, s': State)
    requires env.Valid() && Partition(env, s) && s'.ips == s.ips
    requires forall p, ip :: Holder(s', p, ip) <==> Holder(s, p, ip)
    ensures Partition(env, s')
  {
    hide Below, Holder;
  }

  /** A newly claimed address gets its one holder. */
  lemma ClaimPartition(env: Env, s: State, s': State, at: Place)
    requires env.Valid() && Partition(env, s) && at !in s.bundles
    requires at in s'.bundles && s'.bundles == s.bundles[at := s'.bundles[at]] && s'.bundles[at].HoldsIP()
    requires s'.bundles[at].ip in Below(env.cfg.size) - s.ips
    requires s'.ips == s.ips + {s'.bundles[at].ip}
    ensures Partition(env, s')
  {
    hide Below;
    forall p, ip
      ensures Holder(s', p, ip) <==> if p == at then ip == s'.bundles[at].ip else Holder(s, p, ip)
    {}
    forall ip | ip in s'.ips - env.Initial()
      ensures exists p :: Holder(s', p, ip)
    {
      if ip == s'.bundles[at].ip {
        assert Holder(s', at, ip);
      } else {
        assert ip in s.ips - env.Initial();
        var p :| Holder(s, p, ip);
        assert Holder(s', p, ip);
      }
    }
  }

  /** Giving an address back removes its one holder. */
  lemma ReleasePartition(env: Env, s: State, s': State, at: Place)
    requires env.Valid() && Partition(env, s)
    requires at in s.bundles && s.bundles[at].HoldsIP()
    requires s'.ips == s.ips - {s.bundles[at].ip}
    requires at in s'.bundles && !s'.bundles[at].HoldsIP() && s'.bundles - {at} == s.bundles - {at}
    ensures Partition(env, s')
  {
    hide Below;
    var ip := s.bundles[at].ip;
    assert Holder(s, at, ip);
    forall p, i
      ensures Holder(s', p, i) <==> p != at && Holder(s, p, i)
    {
      if p != at {
        assert p in s'.bundles - {at} <==> p in s.bundles - {at};
        assert p in s.bundles ==> (s'.bundles - {at})[p] == (s.bundles - {at})[p];
      }
    }
    forall i | i in s'.ips - env.Initial()
      ensures exists p :: Holder(s', p, i)
    {
      assert i in s.ips - env.Initial();
      var p :| Holder(s, p, i);
      assert p != at;
      assert Holder(s', p, i);
    }
  }

  lemma InstallPartition(env: Env, s: State, r: nat)
    requires env.Valid() && Inv(env, s) && InStage(s, Adding(r), HasBoth)
    ensures Partition(env, s.(bundles := Installed(s, r)))
  {
    hide Below, Partition;
    var at := Endpoint(s.bundles[Adding(r)].key);
    var s1 := s;
    if at in s.bundles {
      assert WellPlaced(s, at);
      assert Orphan(s.next) !in s.bundles;
      MovePartition(env, s, at, Orphan(s.next), Lost);
      s1 := s.(bundles := Move(s.bundles, at, Orphan(s.next), Lost));
    }
    MovePartition(env, s1, Adding(r), at, Live);
    assert s1.(bundles := Move(s1.bundles, Adding(r), at, Live)) == s.(bundles := Installed(s, r));
  }

  lemma CountedStep(env: Env, s: State, e: Event)
    requires env.Valid() && Inv(env, s) && Enabled(env, s, e)
    ensures Counted(Step(env, s, e))
  {
    hide LeastFree, I.Allocated, I.Removed, I.IdFor, Partition, I.CountOf;
    var s' := Step(env, s, e);
    match e
    case AllocateIP(key, container, w) =>
      assert Adding(s.next) !in s.bundles by {
        assert Adding(s.next) in s.bundles ==> WellPlaced(s, Adding(s.next));
      }
      assert forall id :: HoldersOf(s', id) == HoldersOf(s, id);
    case AllocateID(r, m) => AllocateCounted(env, s, r, m);
    case SetupFails(r) => MoveCounted(s, Adding(r), Adding(r), UndoIP);
    case Install(r) => InstallCounted(s, r);
    case TakeEndpoint(key, container) =>
      assert Deleting(s.next) !in s.bundles by {
        assert Deleting(s.next) in s.bundles ==> WellPlaced(s, Deleting(s.next));
      }
      assert WellPlaced(s, Endpoint(key));
      MoveCounted(s, Endpoint(key), Deleting(s.next), DropIP);
    case RollbackIP(r) => MoveCountedAny(s, s', Adding(r), UndoID);
    case ReleaseIP(r) => MoveCountedAny(s, s', Deleting(r), DropID);
    case RollbackID(r) => RemoveCounted(s, s', Adding(r));
    case ReleaseID(r) => RemoveCounted(s, s', Deleting(r));
  }

  lemma InstallCounted(s: State, r: nat)
    requires Counted(s) && History(s) && InStage(s, Adding(r), HasBoth)
    ensures Counted(s.(bundles := Installed(s, r)))
  {
    hide Counted;
    var at := Endpoint(s.bundles[Adding(r)].key);
    var s1 := s;
    if at in s.bundles {
      assert WellPlaced(s, at);
      assert Orphan(s.next) !in s.bundles;
      MoveCounted(s, at, Orphan(s.next), Lost);
      s1 := s.(bundles := Move(s.bundles, at, Orphan(s.next), Lost));
    }
    MoveCounted(s1, Adding(r), at, Live);
    assert s1.(bundles := Move(s1.bundles, Adding(r), at, Live)) == s.(bundles := Installed(s, r));
  }

  lemma AllocateCounted(env: Env, s: State, r: nat, m: LabelMap)
    requires env.Valid() && Inv(env, s) && Enabled(env, s, AllocateID(r, m))
    ensures Counted(Step(env, s, AllocateID(r, m)))
  {
    hide I.Allocated, I.IdFor, Partition, I.CountOf, I.Inverse, History, HoldersOf;
    var s' := Step(env, s, AllocateID(r, m));
    assert !s.bundles[Adding(r)].HoldsID();
    var now := I.IdFor(env.hash, s.ids, m);
    assert s'.bundles == s.bundles[Adding(r) := s.bundles[Adding(r)].(stage := HasBoth, id := now)];
    forall id
      ensures I.CountOf(s'.ids.refCount, id) == |HoldersOf(s', id)|
    {
      I.CountAllocated(env.hash, s.ids, m, id);
      GainHolder(s, s', Adding(r), now, id);
    }
  }

  lemma GainHolder(s: State, s': State, at: Place, now: I.Id, id: I.Id)
    requires at in s.bundles && !s.bundles[at].HoldsID()
    requires s'.bundles == s.bundles[at := s.bundles[at].(stage := HasBoth, id := now)]
    ensures |HoldersOf(s', id)| == |HoldersOf(s, id)| + if id == now then 1 else 0
  {
    if id == now {
      assert HoldersOf(s', id) == HoldersOf(s, id) + {at};
    } else {
      assert HoldersOf(s', id) == HoldersOf(s, id);
    }
  }

  /** Re-staging in place without touching the identity. */
  lemma MoveCountedAny(s: State, s': State, at: Place, stage: Stage)
    requires Counted(s) && at in s.bundles && s'.ids == s.ids
    requires s'.bundles == Move(s.bundles, at, at, stage)
    requires s.bundles[at].HoldsID() && s.bundles[at].(stage := stage).HoldsID()
    ensures Counted(s')
  {
    forall id
      ensures HoldersOf(s', id) == HoldersOf(s, id)
    {}
  }

  lemma RemoveCounted(s: State, s': State, at: Place)
    requires Counted(s) && I.Inverse(s.ids) && at in s.bundles && s.bundles[at].HoldsID()
    requires s'.ids == I.Removed(s.ids, s.bundles[at].id) && s'.bundles == s.bundles - {at}
    ensures Counted(s')
  {
    hide I.Removed, I.Inverse;
    var gone := s.bundles[at].id;
    assert at in HoldersOf(s, gone);
    assert gone in s.ids.refCount;
    forall id
      ensures I.CountOf(s'.ids.refCount, id) == |HoldersOf(s', id)|
    {
      I.CountRemoved(s.ids, gone, id);
      if id == gone {
        assert HoldersOf(s', id) == HoldersOf(s, id) - {at};
      } else {
        assert HoldersOf(s', id) == HoldersOf(s, id);
      }
    }
  }

  lemma HistoryStep(env: Env, s: State, e: Event)
    requires env.Valid() && Inv(env, s) && Enabled(env, s, e)
    ensures History(Step(env, s, e))
  {
    hide LeastFree, I.Allocated, I.Removed, I.IdFor, Partition, Counted, I.Inverse, History;
    FreshPlaces(s);
    if e.AllocateID? || e.SetupFails? || e.Install? || e.RollbackIP? || e.RollbackID? {
      HistoryAt(s, Adding(e.request));
    } else if e.ReleaseIP? || e.ReleaseID? {
      HistoryAt(s, Deleting(e.request));
    } else if e.TakeEndpoint? {
      HistoryAt(s, Endpoint(e.key));
    }
    var s' := Step(env, s, e);
    match e
    case AllocateIP(_, _, _) => HistoryClaim(env, s, e);
    case AllocateID(r, _) => HistoryChanged(s, s', Adding(r), Adding(r));
    case SetupFails(r) => HistoryChanged(s, s', Adding(r), Adding(r));
    case Install(r) => HistoryInstall(s, s', r);
    case TakeEndpoint(key, _) => HistoryChanged(s, s', Endpoint(key), Deleting(s.next));
    case RollbackIP(r) => HistoryChanged(s, s', Adding(r), Adding(r));
    case ReleaseIP(r) => HistoryChanged(s, s', Deleting(r), Deleting(r));
    case RollbackID(r) => HistoryRemoved(s, s', Adding(r));
    case ReleaseID(r) => HistoryRemoved(s, s', Deleting(r));
  }

  /** The bundle at `from` went to `to`, keeping its origin; at most its own address was
      given back and at most the next serial number was used. */
  lemma HistoryChanged(s: State, s': State, from: Place, to: Place)
    requires History(s) && from in s.bundles && (to == from || to !in s.bundles)
    requires to in s'.bundles && s'.bundles == (s.bundles - {from})[to := s'.bundles[to]]
    requires s'.bundles[to].origin == s.bundles[from].origin
    requires s'.next >= s.next && s'.freedID == s.freedID
    requires s'.containers == s.containers || (s.next < s'.next && s.next in s'.containers &&
              s'.containers == s.containers[s.next := s'.containers[s.next]])
    requires s'.freedIP == s.freedIP || s'.freedIP == s.freedIP + {s.bundles[from].origin}
    requires WellPlaced(s', to) && Traced(s', to)
    ensures History(s')
  {
    assert Traced(s, from);
    var origin := s.bundles[from].origin;
    forall n | n in s'.freedIP + s'.freedID + s'.containers.Keys
      ensures n < s'.next
    {
      assert n in s.freedIP + s.freedID + s.containers.Keys || n == s.next || n == origin;
    }
    forall p | p in s'.bundles
      ensures WellPlaced(s', p) && Traced(s', p)
    {
      if p != to {
        assert WellPlaced(s, p) && Traced(s, p);
      }
    }
  }

  lemma HistoryRemoved(s: State, s': State, at: Place)
    requires History(s) && at in s.bundles
    requires s'.bundles == s.bundles - {at} && s'.next == s.next && s'.containers == s.containers
    requires s'.freedIP == s.freedIP && s'.freedID == s.freedID + {s.bundles[at].origin}
    ensures History(s')
  {
    assert Traced(s, at);
    var origin := s.bundles[at].origin;
    forall n | n in s'.freedIP + s'.freedID + s'.containers.Keys
      ensures n < s'.next
    {
      assert n in s.freedIP + s.freedID + s.containers.Keys || n == origin;
    }
    forall p | p in s'.bundles
      ensures WellPlaced(s', p) && Traced(s', p)
    {
      assert WellPlaced(s, p) && Traced(s, p);
    }
  }

  lemma HistoryInstall(s: State, s': State, r: nat)
    requires History(s) && InStage(s, Adding(r), HasBoth)
    requires s' == s.(bundles := Installed(s, r), next := s.next + 1)
    ensures History(s')
  {
    hide History;
    var at := Endpoint(s.bundles[Adding(r)].key);
    var s1 := s.(next := s.next + 1);
    assert WellPlaced(s, Adding(r)) && Traced(s, Adding(r)) by { HistoryAt(s, Adding(r)); }
    if at in s.bundles {
      HistoryAt(s, at);
      FreshPlaces(s);
      s1 := s1.(bundles := Move(s.bundles, at, Orphan(s.next), Lost));
      HistoryChanged(s, s1, at, Orphan(s.next));
    } else {
      HistoryChanged(s, s1, Adding(r), Adding(r));
    }
    HistoryChanged(s1, s', Adding(r), at);
  }

  lemma HistoryAt(s: State, p: Place)
    requires History(s) && p in s.bundles
    ensures WellPlaced(s, p) && Traced(s, p)
  {}

  lemma FreshPlaces(s: State)
    requires History(s)
    ensures Adding(s.next) !in s.bundles && Deleting(s.next) !in s.bundles && Orphan(s.next) !in s.bundles
    ensures s.next !in s.containers
  {
    assert forall p :: p in s.bundles ==> WellPlaced(s, p);
    assert s.next !in s.freedIP + s.freedID + s.containers.Keys;
  }

  lemma HistoryClaim(env: Env, s: State, e: Event)
    requires env.Valid() && I.Inverse(s.ids) && History(s) && Enabled(env, s, e) && e.AllocateIP?
    ensures History(Step(env, s, e))
  {
    hide LeastFree, I.Inverse;
    var s' := Step(env, s, e);
    assert s.next !in s.freedIP + s.freedID + s.containers.Keys;
    forall p | p in s'.bundles
      ensures WellPlaced(s', p) && Traced(s', p)
    {
      assert p != Adding(s.next) ==> WellPlaced(s, p) && Traced(s, p);
    }
  }

  /** Every atomic step keeps the invariant. */
  lemma StepInv(env: Env, s: State, e: Event)
    requires env.Valid() && Inv(env, s)
    ensures Inv(env, Step(env, s, e))
  {
    hide Partition, Counted, History, I.Inverse;
    if Enabled(env, s, e) {
      PartitionStep(env, s, e);
      CountedStep(env, s, e);
      HistoryStep(env, s, e);
      InverseStep(env, s, e);
    }
  }

  lemma InverseStep(env: Env, s: State, e: Event)
    requires env.Valid() && I.Inverse(s.ids) && Enabled(env, s, e)
    ensures I.Inverse(Step(env, s, e).ids)
  {
    hide I.Inverse, I.Allocated, I.Removed, I.IdFor, LeastFree;
    match e
    case AllocateID(r, m) => I.AllocatedInverse(env.hash, s.ids, m);
    case RollbackID(r) => I.RemovedInverse(s.ids, s.bundles[Adding(r)].id);
    case ReleaseID(r) => I.RemovedInverse(s.ids, s.bundles[Deleting(r)].id);
    case _ =>
  }

  // ------------------------------------------------------------------ runs

  ghost function Run(env: Env, events: seq<Event>): (s: State)
    requires env.Valid()
    ensures Inv(env, s)
  {
    if events == [] then
      StartInv(env);
      Start(env)
    else
      var before := Run(env, events[..|events| - 1]);
      StepInv(env, before, events[|events| - 1]);
      Step(env, before, events[|events| - 1])
  }

  lemma StartInv(env: Env)
    requires env.Valid()
    ensures Inv(env, Start(env))
  {
    ReservedCount(env.cfg);
    assert forall id :: HoldersOf(Start(env), id) == {};
  }

  /** In every interleaving the allocated addresses are the disjoint union of the reserved
      ones, the ones reloaded at start, and the ones held in one place each. */
  lemma AddressesPartitioned(env: Env, events: seq<Event>)
    requires env.Valid()
    ensures Partition(env, Run(env, events))
  {
    assert Inv(env, Run(env, events));
  }

  /** Two pods in the endpoint table never share an address. */
  lemma PodsHaveDistinctIPs(env: Env, events: seq<Event>, key: string, key': string)
    requires env.Valid()
    requires Endpoint(key) in Run(env, events).bundles && Endpoint(key') in Run(env, events).bundles
    requires Run(env, events).bundles[Endpoint(key)].ip == Run(env, events).bundles[Endpoint(key')].ip
    ensures key == key'
  {
    hide Run;
    var s := Run(env, events);
    assert WellPlaced(s, Endpoint(key)) && WellPlaced(s, Endpoint(key'));
    assert Holder(s, Endpoint(key), s.bundles[Endpoint(key)].ip);
    assert Holder(s, Endpoint(key'), s.bundles[Endpoint(key)].ip);
  }

  /** The Release of a rollback and of a DelPod names an allocated, unreserved address of
      the pool, so the address allocator accepts it. */
  lemma ReleaseNeverFails(env: Env, events: seq<Event>, r: nat)
    requires env.Valid()
    ensures Enabled(env, Run(env, events), RollbackIP(r)) ==> CanRelease(env, Run(env, events), Adding(r))
    ensures Enabled(env, Run(env, events), ReleaseIP(r)) ==> CanRelease(env, Run(env, events), Deleting(r))
  {
    hide Run, Partition, Counted, History, I.Inverse, CanRelease;
    var s := Run(env, events);
    assert Inv(env, s);
    if Enabled(env, s, RollbackIP(r)) {
      HolderCanRelease(env, s, Adding(r));
    }
    if Enabled(env, s, ReleaseIP(r)) {
      HolderCanRelease(env, s, Deleting(r));
    }
  }

  /** The address allocator would accept the Release of what place `p` holds. */
  ghost predicate CanRelease(env: Env, s: State, p: Place)
    requires env.Valid()
  {
    p in s.bundles && Releasable(env.cfg, Node(s.ips, |s.ips|, {}, Idle), env.cfg.AddressAt(s.bundles[p].ip))
  }

  lemma HolderCanRelease(env: Env, s: State, p: Place)
    requires env.Valid() && Partition(env, s) && p in s.bundles && s.bundles[p].HoldsIP()
    ensures CanRelease(env, s, p)
  {
    hide Config.Contains, Aligned;
    assert Holder(s, p, s.bundles[p].ip);
    ContainsIffIndexed(env.cfg, env.cfg.AddressAt(s.bundles[p].ip));
  }

  /** An identity is live exactly while some place holds it, and its reference count is the
      number of those places. */
  lemma IdentityLiveIffHeld(env: Env, events: seq<Event>, id: I.Id)
    requires env.Valid()
    ensures var s := Run(env, events);
            && (id in s.ids.idToLabels <==> HoldersOf(s, id) != {})
            && (id in s.ids.refCount ==> s.ids.refCount[id] == |HoldersOf(s, id)|)
  {
    hide Run;
    var s := Run(env, events);
    assert I.CountOf(s.ids.refCount, id) == |HoldersOf(s, id)|;
  }

  /** A DelPod takes back an address only from an AddPod for the container it names. */
  lemma DeleteMatchesContainer(env: Env, events: seq<Event>, r: nat)
    requires env.Valid() && Deleting(r) in Run(env, events).bundles
    ensures var s := Run(env, events);
            var b := s.bundles[Deleting(r)];
            && r in s.containers && b.origin in s.containers
            && s.containers[r] == s.containers[b.origin]
  {
    hide Run;
    assert WellPlaced(Run(env, events), Deleting(r)) && Traced(Run(env, events), Deleting(r));
  }

  /** The AddPod request whose address event `e` gives back. */
  ghost predicate FreesIP(env: Env, s: State, e: Event, origin: nat)
    requires env.Valid()
  {
    && Enabled(env, s, e)
    && ((e.RollbackIP? && s.bundles[Adding(e.request)].origin == origin)
        || (e.ReleaseIP? && s.bundles[Deleting(e.request)].origin == origin))
  }

  ghost predicate FreesID(env: Env, s: State, e: Event, origin: nat)
    requires env.Valid()
  {
    && Enabled(env, s, e)
    && ((e.RollbackID? && s.bundles[Adding(e.request)].origin == origin)
        || (e.ReleaseID? && s.bundles[Deleting(e.request)].origin == origin))
  }

  lemma FreesRecorded(env: Env, s: State, e: Event, origin: nat)
    requires env.Valid() && Inv(env, s)
    ensures s.freedIP <= Step(env, s, e).freedIP && s.freedID <= Step(env, s, e).freedID
    ensures FreesIP(env, s, e, origin) ==> origin !in s.freedIP && origin in Step(env, s, e).freedIP
    ensures FreesID(env, s, e, origin) ==> origin !in s.freedID && origin in Step(env, s, e).freedID
  {
    hide LeastFree, Partition, Counted, I.Inverse, I.Allocated, I.Removed, I.IdFor;
    assert forall p :: p in s.bundles ==> Traced(s, p);
  }

  lemma {:induction false} FreedMonotone(env: Env, events: seq<Event>, i: nat, j: nat)
    requires env.Valid() && i <= j <= |events|
    ensures Run(env, events[..i]).freedIP <= Run(env, events[..j]).freedIP
    ensures Run(env, events[..i]).freedID <= Run(env, events[..j]).freedID
  {
    hide Step, Inv, Run;
    if i < j {
      FreedMonotone(env, events, i, j - 1);
      RunNext(env, events, j - 1);
      FreesRecorded(env, Run(env, events[..j - 1]), events[j - 1], 0);
    }
  }

  lemma RunNext(env: Env, events: seq<Event>, k: nat)
    requires env.Valid() && k < |events|
    ensures Run(env, events[..k + 1]) == Step(env, Run(env, events[..k]), events[k])
  {
    hide Step;
    assert events[..k + 1][..k] == events[..k];
  }

  /** Whatever deletes are repeated or late, the address and the identity of one AddPod are
      given back at most once each. */
  lemma FreedAtMostOnce(env: Env, events: seq<Event>, i: nat, j: nat, origin: nat)
    requires env.Valid() && i < j < |events|
    ensures !(FreesIP(env, Run(env, events[..i]), events[i], origin) &&
              FreesIP(env, Run(env, events[..j]), events[j], origin))
    ensures !(FreesID(env, Run(env, events[..i]), events[i], origin) &&
              FreesID(env, Run(env, events[..j]), events[j], origin))
  {
    hide Run, Step, Inv, FreesIP, FreesID;
    FreesRecorded(env, Run(env, events[..i]), events[i], origin);
    RunNext(env, events, i);
    FreedMonotone(env, events, i + 1, j);
    FreesRecorded(env, Run(env, events[..j]), events[j], origin);
  }

  /** An overwritten endpoint stays where it is: no later event frees its address or its
      identity. */
  lemma {:induction false} OrphansAreForever(env: Env, events: seq<Event>, i: nat, j: nat, n: nat)
    requires env.Valid() && i <= j <= |events|
    requires Orphan(n) in Run(env, events[..i]).bundles
    ensures var s, s' := Run(env, events[..i]), Run(env, events[..j]);
            && Orphan(n) in s'.bundles && s'.bundles[Orphan(n)] == s.bundles[Orphan(n)]
            && s'.bundles[Orphan(n)].ip in s'.ips
            && s'.bundles[Orphan(n)].id in s'.ids.idToLabels
  {
    hide Run, Step, Inv;
    if i < j {
      OrphansAreForever(env, events, i, j - 1, n);
      RunNext(env, events, j - 1);
      StepKeepsOrphan(env, Run(env, events[..j - 1]), events[j - 1], n);
    }
    OrphanHolds(env, Run(env, events[..j]), n);
  }

  lemma StepKeepsOrphan(env: Env, s: State, e: Event, n: nat)
    requires env.Valid() && Inv(env, s) && Orphan(n) in s.bundles
    ensures Orphan(n) in Step(env, s, e).bundles && Step(env, s, e).bundles[Orphan(n)] == s.bundles[Orphan(n)]
  {
    hide LeastFree, Partition, Counted, I.Inverse, I.Allocated, I.Removed, I.IdFor;
    assert WellPlaced(s, Orphan(n));
  }

  lemma OrphanHolds(env: Env, s: State, n: nat)
    requires env.Valid() && Inv(env, s) && Orphan(n) in s.bundles
    ensures s.bundles[Orphan(n)].ip in s.ips && s.bundles[Orphan(n)].id in s.ids.idToLabels
  {
    var b := s.bundles[Orphan(n)];
    assert WellPlaced(s, Orphan(n));
    assert Holder(s, Orphan(n), b.ip);
    assert Orphan(n) in HoldersOf(s, b.id);
    assert I.CountOf(s.ids.refCount, b.id) == |HoldersOf(s, b.id)|;
  }

  ghost predicate HasOrphan(s: State)
  {
    exists n :: Orphan(n) in s.bundles
  }

  /** An AddPod that installs over an endpoint that was not deleted. */
  ghost predicate Overwrites(env: Env, s: State, e: Event)
    requires env.Valid()
  {
    e.Install? && Enabled(env, s, e) && Endpoint(s.bundles[Adding(e.request)].key) in s.bundles
  }

  ghost predicate OverwritesAt(env: Env, events: seq<Event>, k: nat)
    requires env.Valid()
  {
    k < |events| && Overwrites(env, Run(env, events[..k]), events[k])
  }

  lemma StepOrphans(env: Env, s: State, e: Event, n: nat)
    requires env.Valid() && Inv(env, s)
    ensures Orphan(n) in Step(env, s, e).bundles <==> Orphan(n) in s.bundles || (Overwrites(env, s, e) && n == s.next)
  {
    hide LeastFree, I.Inverse, I.Allocated, I.Removed, I.IdFor, Partition, Counted, History;
  }

  /** Resources are lost exactly in the runs in which some AddPod overwrites an endpoint. */
  lemma {:induction false} OrphanIffOverwrite(env: Env, events: seq<Event>)
    requires env.Valid()
    ensures HasOrphan(Run(env, events)) <==>
            exists k :: OverwritesAt(env, events, k)
  {
    hide Step, Inv, Overwrites, Run;
    if events == [] {
      RunNothing(env, events);
    } else {
      var last := |events| - 1;
      var init := events[..last];
      OrphanIffOverwrite(env, init);
      assert events[..last + 1] == events;
      RunNext(env, events, last);
      forall n: nat
        ensures Orphan(n) in Run(env, events).bundles <==>
                Orphan(n) in Run(env, init).bundles ||
                  (Overwrites(env, Run(env, init), events[last]) && n == Run(env, init).next)
      {
        StepOrphans(env, Run(env, init), events[last], n);
      }
      forall k: nat
        ensures OverwritesAt(env, events, k) <==>
                OverwritesAt(env, init, k) || (k == last && Overwrites(env, Run(env, init), events[last]))
      {
        assert k < last ==> init[..k] == events[..k] && init[k] == events[k];
      }
      assert Overwrites(env, Run(env, init), events[last]) ==>
             OverwritesAt(env, events, last) && Orphan(Run(env, init).next) in Run(env, events).bundles;
      if HasOrphan(Run(env, init)) {
        var n :| Orphan(n) in Run(env, init).bundles;
        assert Orphan(n) in Run(env, events).bundles;
      }
    }
  }

  lemma RunNothing(env: Env, events: seq<Event>)
    requires env.Valid() && events == []
    ensures Run(env, events) == Start(env)
  {}

  ghost function AddressHolders(s: State): set<Place>
  {
    set p | p in s.bundles && s.bundles[p].HoldsIP()
  }

  lemma {:induction false} CountHolders(s: State, places: set<Place>, ips: set<nat>)
    requires forall p :: p in places ==> p in s.bundles && s.bundles[p].ip in ips
    requires forall p, q :: p in places && q in places && s.bundles[p].ip == s.bundles[q].ip ==> p == q
    requires forall ip :: ip in ips ==> exists p :: p in places && s.bundles[p].ip == ip
    ensures |places| == |ips|
    decreases places
  {
    if places == {} {
      assert ips == {};
    } else {
      var p :| p in places;
      CountHolders(s, places - {p}, ips - {s.bundles[p].ip});
    }
  }

  /** Conservation: in every interleaving the number of allocated addresses is that of the
      initial ones plus that of the requests, endpoints and overwritten endpoints that hold
      one; at rest, plus that of the endpoints and overwritten endpoints. */
  lemma AddressesAccounted(env: Env, events: seq<Event>)
    requires env.Valid()
    ensures var s := Run(env, events);
            && |s.ips| == |env.Initial()| + |AddressHolders(s)|
            && ((forall p :: p in s.bundles ==> p.Endpoint? || p.Orphan?) ==> |s.ips| == |env.Initial()| + |s.bundles|)
  {
    hide Run, Inv, Partition, History, AddressHolders;
    var s := Run(env, events);
    assert Partition(env, s) && History(s) by { InvParts(env, s); }
    PartitionAccounted(env, s);
    AllHold(s);
  }

  lemma InvParts(env: Env, s: State)
    requires env.Valid() && Inv(env, s)
    ensures Partition(env, s) && History(s)
  {}

  lemma AllHold(s: State)
    requires History(s)
    ensures (forall p :: p in s.bundles ==> p.Endpoint? || p.Orphan?) ==> AddressHolders(s) == s.bundles.Keys
  {
    forall p | p in s.bundles && (p.Endpoint? || p.Orphan?)
      ensures s.bundles[p].HoldsIP()
    {
      HistoryAt(s, p);
    }
  }

  lemma PartitionAccounted(env: Env, s: State)
    requires env.Valid() && Partition(env, s)
    ensures |s.ips| == |env.Initial()| + |AddressHolders(s)|
  {
    hide Below, Config.Reserved;
    forall p | p in AddressHolders(s)
      ensures Holder(s, p, s.bundles[p].ip)
    {}
    forall ip | ip in s.ips - env.Initial()
      ensures exists p :: p in AddressHolders(s) && s.bundles[p].ip == ip
    {
      var p :| Holder(s, p, ip);
      assert p in AddressHolders(s);
    }
    CountHolders(s, AddressHolders(s), s.ips - env.Initial());
    assert s.ips == env.Initial() + (s.ips - env.Initial());
  }

  /** The same goes for an address reloaded after a restart: the endpoint it belonged to is
      no longer in the table, so no DelPod gives it back. */
  lemma ReloadedIsForever(env: Env, events: seq<Event>, ip: nat, p: Place)
    requires env.Valid() && ip in env.reloaded
    ensures ip in Run(env, events).ips && !Holder(Run(env, events), p, ip)
  {
    hide Run;
    assert Partition(env, Run(env, events));
  }
}
