/**
 The dataplane's endpoint table under AddPod and DelPod (internal/agent/server.go).  AddPod
 pushes its endpoint after writing the endpoint table; DelPod removes it last, after the
 address has gone back to the pool.
 */
module PodDataplane {
  import opened Prelude
  import opened Ipam
  import R = IpamRuns
  import opened Labels
  import opened P = PodProtocol
  import I = Identity

  /** `pushing` and `dropping` are the dataplane calls still to come of requests that have
      installed an endpoint, or released an address.  The table maps an address to the
      AddPod request whose endpoint it describes. */
  datatype World = World(core: State, pushing: map<nat, Bundle>, dropping: map<nat, nat>, table: map<nat, nat>)

  datatype Act =
    | Core(event: Event)
    | Push(request: nat, ok: bool)  // UpsertEndpoint
    | Drop(request: nat, ok: bool)  // DeleteEndpoint

  ghost function Do(env: Env, w: World, a: Act): World
    requires env.Valid() && I.Inverse(w.core.ids)
  {
    match a
    case Core(e) =>
      var on := Enabled(env, w.core, e);
      w.(core := Step(env, w.core, e),
         pushing := if on && e.Install? then w.pushing[e.request := w.core.bundles[Adding(e.request)]] else w.pushing,
         dropping := if on && e.ReleaseIP? then w.dropping[e.request := w.core.bundles[Deleting(e.request)].ip]
                     else w.dropping)
    case Push(r, ok) =>
      if r !in w.pushing then w
      else w.(pushing := w.pushing - {r},
              table := if ok then w.table[w.pushing[r].ip := w.pushing[r].origin] else w.table)
    case Drop(r, ok) =>
      if r !in w.dropping || Deleting(r) in w.core.bundles then w
      else w.(dropping := w.dropping - {r},
              table := if ok then w.table - {w.dropping[r]} else w.table)
  }

  ghost function Begin(env: Env): World
    requires env.Valid()
  {
    World(Start(env), map[], map[], map[])
  }

  ghost function Perform(env: Env, w: World, acts: seq<Act>): (w': World)
    requires env.Valid() && Inv(env, w.core)
    ensures Inv(env, w'.core)
  {
    if acts == [] then w
    else
      var before, a := Perform(env, w, acts[..|acts| - 1]), acts[|acts| - 1];
      DoInv(env, before, a);
      Do(env, before, a)
  }

  lemma DoInv(env: Env, w: World, a: Act)
    requires env.Valid() && Inv(env, w.core)
    ensures Inv(env, Do(env, w, a).core)
  {
    hide Partition, Counted, History, I.Inverse, Step;
    if a.Core? {
      StepInv(env, w.core, a.event);
    }
  }

  ghost function Run(env: Env, acts: seq<Act>): (w: World)
    requires env.Valid()
    ensures Inv(env, w.core)
  {
    StartInv(env);
    Perform(env, Begin(env), acts)
  }

  lemma {:induction false} PerformConcat(env: Env, w: World, acts: seq<Act>, more: seq<Act>)
    requires env.Valid() && Inv(env, w.core)
    ensures Perform(env, w, acts + more) == Perform(env, Perform(env, w, acts), more)
  {
    hide Inv, Do;
    if more == [] {
      assert acts + more == acts;
    } else {
      var last := |more| - 1;
      PerformConcat(env, w, acts, more[..last]);
      assert (acts + more)[..|acts + more| - 1] == acts + more[..last];
    }
  }

  /** A dataplane call that succeeds and, if it is a push, comes either while the endpoint has
      its address and no removal of that address is still to come, or after the address was
      released and while a removal is.  Everything else may happen in any order. */
  ghost predicate Orderly(w: World, a: Act)
  {
    match a
    case Core(_) => true
    case Push(r, ok) =>
      && ok
      && (r in w.pushing ==>
            (Kept(w.core, SHOWN, w.pushing[r].origin, w.pushing[r].ip) <==> !Dropping(w, w.pushing[r].ip)))
    case Drop(_, ok) => ok
  }

  // ------------------------------------------------------------------ what the table shows

  /** Some place keeps the endpoint of AddPod `origin`, with address `ip`, in one of the
      given stages. */
  ghost predicate Kept(s: State, stages: set<Stage>, origin: nat, ip: nat)
  {
    exists p :: KeptAt(s, stages, origin, ip, p)
  }

  ghost predicate KeptAt(s: State, stages: set<Stage>, origin: nat, ip: nat, p: Place)
  {
    p in s.bundles && s.bundles[p].stage in stages && s.bundles[p].origin == origin && s.bundles[p].ip == ip
  }

  const PUSHED := {Live, Lost}
  const SHOWN := {Live, Lost, DropIP}

  ghost predicate Pending(w: World, origin: nat)
  {
    exists r :: r in w.pushing && w.pushing[r].origin == origin
  }

  ghost predicate Dropping(w: World, ip: nat)
  {
    exists r :: r in w.dropping && w.dropping[r] == ip
  }

  /** Every endpoint that has not been released is in the table or about to be pushed, and the
      latter if its address is about to be dropped; every table entry describes such an
      endpoint or is about to be dropped; pending calls are those of requests past them. */
  ghost predicate TableInv(w: World)
  {
    && (forall o, ip :: Kept(w.core, SHOWN, o, ip) ==> (ip in w.table && w.table[ip] == o) || Pending(w, o))
    && (forall ip :: ip in w.table ==> Kept(w.core, SHOWN, w.table[ip], ip) || Dropping(w, ip))
    && (forall o, ip :: Kept(w.core, SHOWN, o, ip) && Dropping(w, ip) ==> Pending(w, o))
    && (forall r, ip :: r in w.pushing && Kept(w.core, SHOWN, r, ip) ==> w.pushing[r].ip == ip)
    && PendingInv(w)
  }

  ghost predicate PendingInv(w: World)
  {
    && (forall r :: r in w.pushing ==> w.pushing[r].origin == r && r < w.core.next && Adding(r) !in w.core.bundles)
    && (forall r :: r in w.dropping ==> r < w.core.next && !InStage(w.core, Deleting(r), DropIP))
  }

  lemma KeptUnique(env: Env, s: State, o: nat, ip: nat, o': nat, ip': nat)
    requires env.Valid() && Inv(env, s) && Kept(s, SHOWN, o, ip) && Kept(s, SHOWN, o', ip')
    ensures o == o' <==> ip == ip'
    ensures ip in s.ips
  {
    hide I.Inverse, Counted, Below;
    var p :| KeptAt(s, SHOWN, o, ip, p);
    var q :| KeptAt(s, SHOWN, o', ip', q);
    assert Holder(s, p, ip) && Holder(s, q, ip');
  }

  lemma PushedIsShown(s: State, o: nat, ip: nat)
    requires Kept(s, PUSHED, o, ip)
    ensures Kept(s, SHOWN, o, ip)
  {
    var p :| KeptAt(s, PUSHED, o, ip, p);
    assert KeptAt(s, SHOWN, o, ip, p);
  }

  lemma PushKeepsTable(env: Env, w: World, r: nat)
    requires env.Valid() && Inv(env, w.core) && TableInv(w) && r in w.pushing && Orderly(w, Push(r, true))
    ensures TableInv(Do(env, w, Push(r, true)))
  {
    hide I.Inverse, Partition, Counted, History, Kept;
    var w', b := Do(env, w, Push(r, true)), w.pushing[r];
    assert forall ip :: Dropping(w', ip) <==> Dropping(w, ip);
    forall o | o != r
      ensures Pending(w', o) <==> Pending(w, o)
    {
      OtherPending(env, w, r, o);
    }
    forall o, ip | Kept(w.core, SHOWN, o, ip)
      ensures (ip in w'.table && w'.table[ip] == o) || Pending(w', o)
      ensures Dropping(w, ip) ==> Pending(w', o)
    {
      if Kept(w.core, SHOWN, r, b.ip) {
        KeptUnique(env, w.core, o, ip, r, b.ip);
      }
    }
  }

  /** The condition on pushes is exact: any other push breaks the relation. */
  lemma PushKeepsTableIff(env: Env, w: World, r: nat)
    requires env.Valid() && Inv(env, w.core) && TableInv(w) && r in w.pushing
    ensures TableInv(Do(env, w, Push(r, true))) <==> Orderly(w, Push(r, true))
  {
    hide I.Inverse, Partition, Counted, History, Kept;
    var w', b := Do(env, w, Push(r, true)), w.pushing[r];
    if Orderly(w, Push(r, true)) {
      PushKeepsTable(env, w, r);
    } else if Kept(w.core, SHOWN, r, b.ip) {
      var d :| d in w.dropping && w.dropping[d] == b.ip;
      assert Dropping(w', b.ip) && !Pending(w', r);
    } else {
      assert b.ip in w'.table && w'.table[b.ip] == r && !Dropping(w', b.ip);
    }
  }

  lemma OtherPending(env: Env, w: World, r: nat, o: nat)
    requires env.Valid() && I.Inverse(w.core.ids) && PendingInv(w) && r in w.pushing && o != r
    ensures Pending(Do(env, w, Push(r, true)), o) <==> Pending(w, o)
  {
    hide I.Inverse;
    var w' := Do(env, w, Push(r, true));
    if Pending(w, o) {
      var q :| q in w.pushing && w.pushing[q].origin == o;
      assert q in w'.pushing && w'.pushing[q].origin == o;
    }
  }

  lemma DropKeepsTable(env: Env, w: World, r: nat)
    requires env.Valid() && Inv(env, w.core) && TableInv(w)
    requires r in w.dropping && Deleting(r) !in w.core.bundles
    ensures TableInv(Do(env, w, Drop(r, true)))
  {
    hide I.Inverse, Partition, Counted, History, Kept;
    var w' := Do(env, w, Drop(r, true));
    assert Dropping(w, w.dropping[r]);
    assert forall o :: Pending(w', o) <==> Pending(w, o);
    forall ip | ip in w.table && ip != w.dropping[r] && Dropping(w, ip)
      ensures Dropping(w', ip)
    {
      var q :| q in w.dropping && w.dropping[q] == ip;
      assert q in w'.dropping;
    }
    assert forall ip :: Dropping(w', ip) ==> Dropping(w, ip);
  }

  // ------------------------------------------------------------------ steps of the core

  /** The AddPod request whose endpoint event `e` installs, takes or releases. */
  ghost predicate About(env: Env, s: State, e: Event, origin: nat)
    requires env.Valid()
  {
    && Enabled(env, s, e)
    && match e
       case Install(r) => s.bundles[Adding(r)].origin == origin
       case TakeEndpoint(key, _) => s.bundles[Endpoint(key)].origin == origin
       case ReleaseIP(r) => s.bundles[Deleting(r)].origin == origin
       case _ => false
  }

  /** Where the bundle at `p` is after event `e`. */
  ghost function Moved(s: State, e: Event, p: Place): Place
    requires e.Install? ==> Adding(e.request) in s.bundles
  {
    match e
    case Install(r) =>
      if p == Adding(r) then Endpoint(s.bundles[Adding(r)].key)
      else if p == Endpoint(s.bundles[Adding(r)].key) then Orphan(s.next)
      else p
    case TakeEndpoint(key, _) => if p == Endpoint(key) then Deleting(s.next) else p
    case _ => p
  }

  /** Only ReleaseIP hides an endpoint. */
  lemma KeptAfter(env: Env, s: State, e: Event, o: nat, ip: nat)
    requires env.Valid() && Inv(env, s) && Kept(s, SHOWN, o, ip)
    requires !(e.ReleaseIP? && About(env, s, e, o))
    ensures Kept(Step(env, s, e), SHOWN, o, ip)
  {
    hide I.Inverse, Partition, Counted, History, I.Allocated, I.Removed, I.IdFor, R.LeastFree, Installed;
    var p :| KeptAt(s, SHOWN, o, ip, p);
    if Enabled(env, s, e) {
      FreshPlaces(s);
      HistoryAt(s, p);
      if e.Install? {
        KeptAfterInstall(s, e.request, o, ip, p);
      }
      assert KeptAt(Step(env, s, e), SHOWN, o, ip, Moved(s, e, p));
    } else {
      assert KeptAt(Step(env, s, e), SHOWN, o, ip, p);
    }
  }

  lemma KeptAfterInstall(s: State, r: nat, o: nat, ip: nat, p: Place)
    requires History(s) && KeptAt(s, SHOWN, o, ip, p)
    requires InStage(s, Adding(r), HasBoth)
    ensures KeptAt(s.(bundles := Installed(s, r)), SHOWN, o, ip, Moved(s, Install(r), p))
  {
    hide History;
    FreshPlaces(s);
    HistoryAt(s, p);
  }

  /** Only Install shows a new endpoint. */
  lemma ShownBefore(env: Env, s: State, e: Event, o: nat, ip: nat)
    requires env.Valid() && Inv(env, s) && Enabled(env, s, e) && Kept(Step(env, s, e), SHOWN, o, ip)
    ensures Kept(s, SHOWN, o, ip) || (e.Install? && About(env, s, e, o) && s.bundles[Adding(e.request)].ip == ip)
  {
    hide I.Inverse, Partition, Counted, I.Allocated, I.Removed, I.IdFor, R.LeastFree, Installed;
    var q :| KeptAt(Step(env, s, e), SHOWN, o, ip, q);
    forall p | p in s.bundles
      ensures WellPlaced(s, p)
    {
      HistoryAt(s, p);
    }
    match e
    case TakeEndpoint(key, _) =>
      var p := if q == Deleting(s.next) then Endpoint(key) else q;
      assert KeptAt(s, SHOWN, o, ip, p);
    case Install(r) => ShownBeforeInstall(s, r, o, ip, q);
    case _ => assert KeptAt(s, SHOWN, o, ip, q);
  }

  lemma ShownBeforeInstall(s: State, r: nat, o: nat, ip: nat, q: Place)
    requires History(s) && InStage(s, Adding(r), HasBoth)
    requires KeptAt(s.(bundles := Installed(s, r)), SHOWN, o, ip, q)
    ensures Kept(s, SHOWN, o, ip) || (s.bundles[Adding(r)].origin == o && s.bundles[Adding(r)].ip == ip)
  {
    var at := Endpoint(s.bundles[Adding(r)].key);
    if q != at {
      var p := if q == Orphan(s.next) && at in s.bundles then at else q;
      HistoryAt(s, p);
      assert KeptAt(s, SHOWN, o, ip, p);
    }
  }

  /** A released address belongs to exactly one endpoint. */
  lemma ReleaseHides(env: Env, s: State, r: nat, o: nat)
    requires env.Valid() && Inv(env, s) && Enabled(env, s, ReleaseIP(r))
    ensures !Kept(Step(env, s, ReleaseIP(r)), SHOWN, s.bundles[Deleting(r)].origin, o)
    ensures Kept(s, SHOWN, s.bundles[Deleting(r)].origin, s.bundles[Deleting(r)].ip)
  {
    hide I.Inverse, Partition, Counted;
    assert KeptAt(s, SHOWN, s.bundles[Deleting(r)].origin, s.bundles[Deleting(r)].ip, Deleting(r));
  }

  /** The steps of the allocators and of the endpoint table keep the relation in any order. */
  lemma CoreKeepsTable(env: Env, w: World, e: Event)
    requires env.Valid() && Inv(env, w.core) && TableInv(w)
    ensures TableInv(Do(env, w, Core(e)))
  {
    hide I.Inverse, Partition, Counted, History, Kept, R.LeastFree, I.Allocated, I.Removed, I.IdFor, Installed, Move,
        PendingInv;
    if Enabled(env, w.core, e) {
      ShownStays(env, w, e);
      TableStays(env, w, e);
      ReusedStays(env, w, e);
      AddressStays(env, w, e);
      PendingStays(env, w, e);
    }
  }

  lemma PendingGrows(env: Env, w: World, e: Event, o: nat)
    requires env.Valid() && Inv(env, w.core) && PendingInv(w) && Enabled(env, w.core, e)
    ensures Pending(w, o) || (e.Install? && About(env, w.core, e, o)) ==> Pending(Do(env, w, Core(e)), o)
  {
    hide I.Inverse, Partition, Counted, History, Kept, Step;
    var w' := Do(env, w, Core(e));
    if e.Install? && About(env, w.core, e, o) {
      assert e.request in w'.pushing && w'.pushing[e.request].origin == o;
    } else if Pending(w, o) {
      var r :| r in w.pushing && w.pushing[r].origin == o;
      assert r in w'.pushing && w'.pushing[r].origin == o;
    }
  }

  lemma ShownStays(env: Env, w: World, e: Event)
    requires env.Valid() && Inv(env, w.core) && TableInv(w) && Enabled(env, w.core, e)
    ensures var w' := Do(env, w, Core(e));
            forall o, ip :: Kept(w'.core, SHOWN, o, ip) ==> (ip in w'.table && w'.table[ip] == o) || Pending(w', o)
  {
    hide I.Inverse, Partition, Counted, History, Kept, Step, PendingInv, Pending, Dropping;
    var w' := Do(env, w, Core(e));
    forall o, ip | Kept(w'.core, SHOWN, o, ip)
      ensures (ip in w'.table && w'.table[ip] == o) || Pending(w', o)
    {
      ShownBefore(env, w.core, e, o, ip);
      PendingGrows(env, w, e, o);
    }
  }

  lemma TableStays(env: Env, w: World, e: Event)
    requires env.Valid() && Inv(env, w.core) && TableInv(w) && Enabled(env, w.core, e)
    ensures var w' := Do(env, w, Core(e));
            forall ip :: ip in w'.table ==> Kept(w'.core, SHOWN, w'.table[ip], ip) || Dropping(w', ip)
  {
    hide I.Inverse, Partition, Counted, History, Kept, Step;
    var w' := Do(env, w, Core(e));
    forall ip | ip in w'.table
      ensures Kept(w'.core, SHOWN, w'.table[ip], ip) || Dropping(w', ip)
    {
      var o := w.table[ip];
      if Dropping(w, ip) {
        var r :| r in w.dropping && w.dropping[r] == ip;
        assert r in w'.dropping && w'.dropping[r] == ip;
      } else if e.ReleaseIP? && About(env, w.core, e, o) {
        ReleaseHides(env, w.core, e.request, ip);
        KeptUnique(env, w.core, o, ip, o, w.core.bundles[Deleting(e.request)].ip);
        assert e.request in w'.dropping && w'.dropping[e.request] == ip;
      } else {
        KeptAfter(env, w.core, e, o, ip);
      }
    }
  }

  lemma ReusedStays(env: Env, w: World, e: Event)
    requires env.Valid() && Inv(env, w.core) && TableInv(w) && Enabled(env, w.core, e)
    ensures var w' := Do(env, w, Core(e));
            forall o, ip :: Kept(w'.core, SHOWN, o, ip) && Dropping(w', ip) ==> Pending(w', o)
  {
    hide I.Inverse, Partition, Counted, History, Kept, Step, PendingInv, Pending;
    var w' := Do(env, w, Core(e));
    forall o, ip | Kept(w'.core, SHOWN, o, ip) && Dropping(w', ip)
      ensures Pending(w', o)
    {
      ShownBefore(env, w.core, e, o, ip);
      PendingGrows(env, w, e, o);
      if Kept(w.core, SHOWN, o, ip) {
        if e.ReleaseIP? {
          ReleaseHides(env, w.core, e.request, ip);
          var b := w.core.bundles[Deleting(e.request)];
          KeptUnique(env, w.core, o, ip, b.origin, b.ip);
        }
        var q :| q in w'.dropping && w'.dropping[q] == ip;
        assert q in w.dropping && w.dropping[q] == ip;
      }
    }
  }

  /** A request that is still setting up shows nothing. */
  lemma NotShownYet(s: State, r: nat, ip: nat)
    requires History(s) && Adding(r) in s.bundles
    ensures !Kept(s, SHOWN, r, ip)
  {
    HistoryAt(s, Adding(r));
    forall p | KeptAt(s, SHOWN, r, ip, p)
      ensures p == Adding(r)
    {}
  }

  lemma AddressStays(env: Env, w: World, e: Event)
    requires env.Valid() && Inv(env, w.core) && TableInv(w) && Enabled(env, w.core, e)
    ensures var w' := Do(env, w, Core(e));
            forall r, ip :: r in w'.pushing && Kept(w'.core, SHOWN, r, ip) ==> w'.pushing[r].ip == ip
  {
    hide I.Inverse, Partition, Counted, History, Kept, Step, PendingInv, Pending, Dropping;
    var w' := Do(env, w, Core(e));
    forall r, ip | r in w'.pushing && Kept(w'.core, SHOWN, r, ip)
      ensures w'.pushing[r].ip == ip
    {
      ShownBefore(env, w.core, e, r, ip);
      if e.Install? {
        HistoryAt(w.core, Adding(e.request));
        NotShownYet(w.core, e.request, ip);
      }
    }
  }

  /** A step takes no old request back to before its pending call. */
  lemma NoneGoesBack(env: Env, s: State, e: Event, r: nat)
    requires env.Valid() && Inv(env, s) && Enabled(env, s, e) && r < s.next
    ensures s.next <= Step(env, s, e).next
    ensures Adding(r) in Step(env, s, e).bundles ==> Adding(r) in s.bundles && e != Install(r)
    ensures InStage(Step(env, s, e), Deleting(r), DropIP) ==> InStage(s, Deleting(r), DropIP) && e != ReleaseIP(r)
  {
    hide I.Inverse, Partition, Counted, R.LeastFree, I.Allocated, I.Removed, I.IdFor, History;
  }

  lemma PendingStays(env: Env, w: World, e: Event)
    requires env.Valid() && Inv(env, w.core) && PendingInv(w) && Enabled(env, w.core, e)
    ensures PendingInv(Do(env, w, Core(e)))
  {
    hide I.Inverse, Partition, Counted, History, Step;
    if e.ReleaseIP? {
      HistoryAt(w.core, Deleting(e.request));
    }
    if e.Install? {
      HistoryAt(w.core, Adding(e.request));
    }
    forall r: nat | r < w.core.next
      ensures w.core.next <= Step(env, w.core, e).next
      ensures Adding(r) in Step(env, w.core, e).bundles ==> Adding(r) in w.core.bundles && e != Install(r)
      ensures InStage(Step(env, w.core, e), Deleting(r), DropIP) ==>
                InStage(w.core, Deleting(r), DropIP) && e != ReleaseIP(r)
    {
      NoneGoesBack(env, w.core, e, r);
    }
  }

  // ------------------------------------------------------------------ runs

  ghost predicate OrderlyRun(env: Env, acts: seq<Act>)
    requires env.Valid()
  {
    forall k :: 0 <= k < |acts| ==> Orderly(Run(env, acts[..k]), acts[k])
  }

  lemma {:induction false} TableInvHolds(env: Env, acts: seq<Act>)
    requires env.Valid() && OrderlyRun(env, acts)
    ensures TableInv(Run(env, acts))
  {
    hide Do, Orderly, Inv, TableInv;
    if acts == [] {
      BeginTable(env);
    } else {
      var last := |acts| - 1;
      forall k | 0 <= k < last
        ensures Orderly(Run(env, acts[..last][..k]), acts[..last][k])
      {
        assert acts[..last][..k] == acts[..k];
      }
      TableInvHolds(env, acts[..last]);
      assert Orderly(Run(env, acts[..last]), acts[last]);
      ActKeepsTable(env, Run(env, acts[..last]), acts[last]);
    }
  }

  lemma BeginTable(env: Env)
    requires env.Valid()
    ensures TableInv(Begin(env))
  {}

  lemma ActKeepsTable(env: Env, w: World, a: Act)
    requires env.Valid() && Inv(env, w.core) && TableInv(w) && Orderly(w, a)
    ensures TableInv(Do(env, w, a))
  {
    hide I.Inverse, Partition, Counted, History, TableInv, Step, Kept, Dropping;
    match a
    case Core(e) => CoreKeepsTable(env, w, e);
    case Push(r, _) => if r in w.pushing { PushKeepsTable(env, w, r); }
    case Drop(r, _) => if r in w.dropping && Deleting(r) !in w.core.bundles { DropKeepsTable(env, w, r); }
  }

  /** No request is in progress. */
  ghost predicate Quiescent(w: World)
  {
    && w.pushing == map[] && w.dropping == map[]
    && forall p :: p in w.core.bundles ==> p.Endpoint? || p.Orphan?
  }

  /** Whenever an orderly run comes to rest, the dataplane describes exactly the endpoints in
      the table and the overwritten ones, each under its own address. */
  lemma TableExact(env: Env, acts: seq<Act>, ip: nat, origin: nat)
    requires env.Valid() && OrderlyRun(env, acts) && Quiescent(Run(env, acts))
    ensures var w := Run(env, acts);
            (ip in w.table && w.table[ip] == origin) <==> Kept(w.core, PUSHED, origin, ip)
  {
    hide Run, Do, I.Inverse, Partition, Counted;
    var w := Run(env, acts);
    TableInvHolds(env, acts);
    if Kept(w.core, PUSHED, origin, ip) {
      PushedIsShown(w.core, origin, ip);
    }
    if Kept(w.core, SHOWN, origin, ip) {
      var p :| KeptAt(w.core, SHOWN, origin, ip, p);
      HistoryAt(w.core, p);
      assert KeptAt(w.core, PUSHED, origin, ip, p);
    }
  }

  /** The allocator and endpoint-table steps of a run. */
  ghost function CoreEvents(acts: seq<Act>): seq<Event>
  {
    if acts == [] then []
    else
      var init, a := CoreEvents(acts[..|acts| - 1]), acts[|acts| - 1];
      if a.Core? then init + [a.event] else init
  }

  /** The core of a run is a run of the protocol, so everything proved of those holds of it. */
  lemma {:induction false} CoreIsRun(env: Env, acts: seq<Act>)
    requires env.Valid()
    ensures Run(env, acts).core == P.Run(env, CoreEvents(acts))
  {
    hide Step, Inv;
    if acts != [] {
      var init, a := acts[..|acts| - 1], acts[|acts| - 1];
      CoreIsRun(env, init);
      if a.Core? {
        var events := CoreEvents(init);
        assert (events + [a.event])[..|events|] == events;
      }
    }
  }

  // ------------------------------------------------------------------ whole requests

  /** AddPod without interruption: allocate, set up, install, push. */
  ghost function AddActs(w: World, key: string, container: string, m: LabelMap, pushed: bool): seq<Act>
  {
    var r := w.core.next;
    [Core(AllocateIP(key, container, Written)), Core(AllocateID(r, m)), Core(Install(r)), Push(r, pushed)]
  }

  lemma Perform1(env: Env, w: World, a: Act)
    requires env.Valid() && Inv(env, w.core)
    ensures Perform(env, w, [a]) == Do(env, w, a)
  {
    hide Inv, Do;
    assert [a][..0] == [];
  }

  lemma Perform4(env: Env, w: World, a: Act, b: Act, c: Act, d: Act)
    requires env.Valid() && Inv(env, w.core)
    ensures Perform(env, w, [a, b, c, d]) ==
            Perform(env, Perform(env, Perform(env, Perform(env, w, [a]), [b]), [c]), [d])
  {
    hide Perform, Inv;
    PerformConcat(env, w, [a], [b]);
    PerformConcat(env, w, [a, b], [c]);
    PerformConcat(env, w, [a, b, c], [d]);
    assert [a] + [b] == [a, b] && [a, b] + [c] == [a, b, c] && [a, b, c] + [d] == [a, b, c, d];
  }

  /** An address and an id are to be had. */
  ghost predicate CanAdd(env: Env, w: World)
  {
    && env.Valid() && Inv(env, w.core) && |w.core.ids.idToLabels.Keys| < I.WIDTH
    && R.LeastFree(env.cfg, w.core.ips) >= 0
  }

  lemma ClaimEffect(env: Env, w: World, key: string, container: string)
    requires env.Valid() && Inv(env, w.core) && R.LeastFree(env.cfg, w.core.ips) >= 0
    ensures var ip, r, s := R.LeastFree(env.cfg, w.core.ips), w.core.next, w.core;
            Perform(env, w, [Core(AllocateIP(key, container, Written))]) ==
            w.(core := s.(ips := s.ips + {ip}, next := r + 1, containers := s.containers[r := container],
                          bundles := s.bundles[Adding(r) := Bundle(HasIP, key, container, r, ip, 0)]))
  {
    hide Perform, Partition, Counted, History, I.Inverse, R.LeastFree;
    Perform1(env, w, Core(AllocateIP(key, container, Written)));
  }

  lemma IdentifyEffect(env: Env, w: World, r: nat, m: LabelMap)
    requires env.Valid() && Inv(env, w.core) && |w.core.ids.idToLabels.Keys| < I.WIDTH
    requires InStage(w.core, Adding(r), HasIP)
    ensures var s, b := w.core, w.core.bundles[Adding(r)];
            Perform(env, w, [Core(AllocateID(r, m))]) ==
            w.(core := s.(ids := I.Allocated(env.hash, s.ids, m),
                          bundles := s.bundles[Adding(r) := b.(stage := HasBoth, id := I.IdFor(env.hash, s.ids, m))]))
  {
    hide Perform, Partition, Counted, History, I.Inverse, I.Allocated, I.IdFor;
    Perform1(env, w, Core(AllocateID(r, m)));
  }

  lemma InstallEffect(env: Env, w: World, r: nat)
    requires env.Valid() && Inv(env, w.core) && InStage(w.core, Adding(r), HasBoth)
    ensures Perform(env, w, [Core(Install(r))]) ==
            w.(core := w.core.(bundles := Installed(w.core, r), next := w.core.next + 1),
               pushing := w.pushing[r := w.core.bundles[Adding(r)]])
  {
    hide Perform, Partition, Counted, History, I.Inverse, Installed;
    Perform1(env, w, Core(Install(r)));
  }

  /** The bundles after installing the one that was at `Adding(r)`. */
  lemma InstalledBundles(s: State, bundles: map<Place, Bundle>, r: nat, b: Bundle)
    requires Adding(r) !in bundles && Orphan(s.next) !in bundles
    requires s.bundles == bundles[Adding(r) := b]
    ensures Installed(s, r) ==
            (if Endpoint(b.key) in bundles
             then bundles[Orphan(s.next) := bundles[Endpoint(b.key)].(stage := Lost)]
             else bundles)[Endpoint(b.key) := b.(stage := Live)]
  {}

  /** The net effect of an uninterrupted AddPod: one address, one reference to an identity
      and one table entry more; an entry for the same pod is set aside. */
  ghost predicate PodAdded(env: Env, w: World, w': World, key: string, container: string, m: LabelMap, pushed: bool)
    requires CanAdd(env, w)
  {
    var ip, id, r := R.LeastFree(env.cfg, w.core.ips), I.IdFor(env.hash, w.core.ids, m), w.core.next;
    var at, was := Endpoint(key), w.core.bundles;
    && w'.core.ips == w.core.ips + {ip}
    && w'.core.ids == I.Allocated(env.hash, w.core.ids, m)
    && w'.core.bundles ==
       (if at in was then was[Orphan(r + 1) := was[at].(stage := Lost)]
        else was)[at := Bundle(Live, key, container, r, ip, id)]
    && w'.core.next == r + 2
    && w'.pushing == w.pushing - {r} && w'.dropping == w.dropping
    && w'.table == if pushed then w.table[ip := r] else w.table
  }

  /** AddPod with its address and identity, before the pod network is set up. */
  ghost function Prepared(env: Env, w: World, key: string, container: string, m: LabelMap): World
    requires CanAdd(env, w)
  {
    var ip, id, r, s := R.LeastFree(env.cfg, w.core.ips), I.IdFor(env.hash, w.core.ids, m), w.core.next, w.core;
    w.(core := s.(ips := s.ips + {ip}, ids := I.Allocated(env.hash, s.ids, m), next := r + 1,
                  containers := s.containers[r := container],
                  bundles := s.bundles[Adding(r) := Bundle(HasBoth, key, container, r, ip, id)]))
  }

  lemma PrepareEffect(env: Env, w: World, key: string, container: string, m: LabelMap)
    requires CanAdd(env, w)
    ensures Perform(env, Perform(env, w, [Core(AllocateIP(key, container, Written))]),
              [Core(AllocateID(w.core.next, m))])
            == Prepared(env, w, key, container, m)
  {
    hide Perform, Inv, I.Allocated, I.IdFor, R.LeastFree;
    ClaimEffect(env, w, key, container);
    var w1 := Perform(env, w, [Core(AllocateIP(key, container, Written))]);
    IdentifyEffect(env, w1, w.core.next, m);
  }

  /** The pod's bundle is in the endpoint table and waits for its push. */
  lemma InstallPrepared(env: Env, w: World, w2: World, key: string, container: string, m: LabelMap)
    requires CanAdd(env, w)
    requires w2 == Prepared(env, w, key, container, m) && Inv(env, w2.core)
    ensures var r, ip, id := w.core.next, R.LeastFree(env.cfg, w.core.ips), I.IdFor(env.hash, w.core.ids, m);
            Perform(env, w2, [Core(Install(r))]) ==
            w2.(core := w2.core.(bundles := Installed(w2.core, r), next := r + 2),
                pushing := w.pushing[r := Bundle(HasBoth, key, container, r, ip, id)])
    ensures var ip, id, r := R.LeastFree(env.cfg, w.core.ips), I.IdFor(env.hash, w.core.ids, m), w.core.next;
            var at, was := Endpoint(key), w.core.bundles;
            Installed(w2.core, r) ==
            (if at in was then was[Orphan(r + 1) := was[at].(stage := Lost)]
             else was)[at := Bundle(Live, key, container, r, ip, id)]
  {
    hide Perform, Inv, I.Allocated, I.IdFor, R.LeastFree, Installed;
    var r := w.core.next;
    var b := Bundle(HasBoth, key, container, r, R.LeastFree(env.cfg, w.core.ips), I.IdFor(env.hash, w.core.ids, m));
    NothingFresh(env, w);
    InstallEffect(env, w2, r);
    InstalledBundles(w2.core, w.core.bundles, r, b);
  }

  lemma FinishEffect(env: Env, w: World, w2: World, key: string, container: string, m: LabelMap, pushed: bool)
    requires CanAdd(env, w)
    requires w2 == Prepared(env, w, key, container, m) && Inv(env, w2.core)
    ensures var w3 := Perform(env, w2, [Core(Install(w.core.next))]);
            PodAdded(env, w, Perform(env, w3, [Push(w.core.next, pushed)]), key, container, m, pushed)
  {
    hide Perform, Inv, I.Allocated, I.IdFor, R.LeastFree, Installed;
    var r := w.core.next;
    InstallPrepared(env, w, w2, key, container, m);
    var w3 := Perform(env, w2, [Core(Install(r))]);
    PushEffect(env, w3, r, pushed);
    assert w3.pushing - {r} == w.pushing - {r};
  }

  lemma AddPodEffect(env: Env, w: World, key: string, container: string, m: LabelMap, pushed: bool)
    requires CanAdd(env, w)
    ensures PodAdded(env, w, Perform(env, w, AddActs(w, key, container, m, pushed)), key, container, m, pushed)
  {
    hide Perform, Inv, I.Allocated, I.IdFor, R.LeastFree, PodAdded, Prepared;
    var r := w.core.next;
    Perform4(env, w, Core(AllocateIP(key, container, Written)), Core(AllocateID(r, m)), Core(Install(r)),
      Push(r, pushed));
    PrepareEffect(env, w, key, container, m);
    var w2 := Perform(env, Perform(env, w, [Core(AllocateIP(key, container, Written))]), [Core(AllocateID(r, m))]);
    FinishEffect(env, w, w2, key, container, m, pushed);
  }

  lemma NothingFresh(env: Env, w: World)
    requires env.Valid() && Inv(env, w.core)
    ensures Adding(w.core.next) !in w.core.bundles && Deleting(w.core.next) !in w.core.bundles
    ensures Orphan(w.core.next + 1) !in w.core.bundles
  {
    hide Partition, Counted, I.Inverse;
    FreshPlaces(w.core);
    assert Orphan(w.core.next + 1) in w.core.bundles ==> WellPlaced(w.core, Orphan(w.core.next + 1));
  }

  lemma PushEffect(env: Env, w: World, r: nat, pushed: bool)
    requires env.Valid() && Inv(env, w.core) && r in w.pushing
    ensures Perform(env, w, [Push(r, pushed)]) ==
            w.(pushing := w.pushing - {r},
               table := if pushed then w.table[w.pushing[r].ip := w.pushing[r].origin] else w.table)
  {
    hide Perform, Partition, Counted, History, I.Inverse;
    Perform1(env, w, Push(r, pushed));
  }

  // ------------------------------------------------------------------ failed setup

  ghost function FailActs(w: World, key: string, container: string, m: LabelMap): seq<Act>
  {
    var r := w.core.next;
    [Core(AllocateIP(key, container, Written)), Core(AllocateID(r, m))] +
    [Core(SetupFails(r)), Core(RollbackIP(r)), Core(RollbackID(r))]
  }

  /** The same resources are out and nothing is pending that was not before. */
  ghost predicate SameResources(w: World, w': World)
  {
    && w'.core.ips == w.core.ips && w'.core.ids == w.core.ids && w'.core.bundles == w.core.bundles
    && w'.pushing == w.pushing && w'.dropping == w.dropping && w'.table == w.table
  }

  lemma Perform3(env: Env, w: World, a: Act, b: Act, c: Act)
    requires env.Valid() && Inv(env, w.core)
    ensures Perform(env, w, [a, b, c]) == Perform(env, Perform(env, Perform(env, w, [a]), [b]), [c])
  {
    hide Perform, Inv;
    PerformConcat(env, w, [a], [b]);
    PerformConcat(env, w, [a, b], [c]);
    assert [a] + [b] == [a, b] && [a, b] + [c] == [a, b, c];
  }

  lemma QuietStep(env: Env, w: World, e: Event)
    requires env.Valid() && Inv(env, w.core) && !e.Install? && !e.ReleaseIP?
    ensures Perform(env, w, [Core(e)]) == w.(core := Step(env, w.core, e))
  {
    hide Perform, Partition, Counted, History, I.Inverse, Step;
    Perform1(env, w, Core(e));
  }

  lemma RollbackEffect(env: Env, s: State, s1: State, s2: State, s3: State, r: nat)
    requires env.Valid() && I.Inverse(s.ids) && InStage(s, Adding(r), HasBoth)
    requires s1 == Step(env, s, SetupFails(r)) && I.Inverse(s1.ids)
    requires s2 == Step(env, s1, RollbackIP(r)) && I.Inverse(s2.ids)
    requires s3 == Step(env, s2, RollbackID(r))
    ensures s3.ips == s.ips - {s.bundles[Adding(r)].ip}
    ensures s3.ids == I.Removed(s.ids, s.bundles[Adding(r)].id)
    ensures s3.bundles == s.bundles - {Adding(r)}
  {
    hide I.Inverse, I.Removed;
    assert s1.bundles == s.bundles[Adding(r) := s.bundles[Adding(r)].(stage := UndoIP)];
    assert s2.bundles == s.bundles[Adding(r) := s.bundles[Adding(r)].(stage := UndoID)];
  }

  lemma UndoEffect(env: Env, w: World, r: nat)
    requires env.Valid() && Inv(env, w.core) && InStage(w.core, Adding(r), HasBoth)
    ensures var w' := Perform(env, w, [Core(SetupFails(r)), Core(RollbackIP(r)), Core(RollbackID(r))]);
            && w'.core.ips == w.core.ips - {w.core.bundles[Adding(r)].ip}
            && w'.core.ids == I.Removed(w.core.ids, w.core.bundles[Adding(r)].id)
            && w'.core.bundles == w.core.bundles - {Adding(r)}
            && w'.pushing == w.pushing && w'.dropping == w.dropping && w'.table == w.table
  {
    hide Perform, Partition, Counted, History, I.Inverse, Step, I.Removed;
    Perform3(env, w, Core(SetupFails(r)), Core(RollbackIP(r)), Core(RollbackID(r)));
    QuietStep(env, w, SetupFails(r));
    var w1 := Perform(env, w, [Core(SetupFails(r))]);
    QuietStep(env, w1, RollbackIP(r));
    var w2 := Perform(env, w1, [Core(RollbackIP(r))]);
    QuietStep(env, w2, RollbackID(r));
    var w3 := Perform(env, w2, [Core(RollbackID(r))]);
    RollbackEffect(env, w.core, w1.core, w2.core, w3.core, r);
  }

  /** An AddPod whose network setup fails leaves no resources out. */
  lemma FailedAddPodEffect(env: Env, w: World, key: string, container: string, m: LabelMap)
    requires CanAdd(env, w)
    ensures SameResources(w, Perform(env, w, FailActs(w, key, container, m)))
  {
    hide Perform, Inv, I.Allocated, I.IdFor, R.LeastFree, I.Removed;
    var r := w.core.next;
    var first, rest := [Core(AllocateIP(key, container, Written)), Core(AllocateID(r, m))],
                       [Core(SetupFails(r)), Core(RollbackIP(r)), Core(RollbackID(r))];
    PerformConcat(env, w, first, rest);
    PerformConcat(env, w, [first[0]], [first[1]]);
    assert [first[0]] + [first[1]] == first;
    PrepareEffect(env, w, key, container, m);
    NothingFresh(env, w);
    var w2 := Prepared(env, w, key, container, m);
    UndoEffect(env, w2, r);
    Restored(env, w, key, container, m);
  }

  lemma Restored(env: Env, w: World, key: string, container: string, m: LabelMap)
    requires CanAdd(env, w) && Inv(env, Prepared(env, w, key, container, m).core)
    ensures var s2, r := Prepared(env, w, key, container, m).core, w.core.next;
            && s2.ips - {s2.bundles[Adding(r)].ip} == w.core.ips
            && I.Removed(s2.ids, s2.bundles[Adding(r)].id) == w.core.ids
            && s2.bundles - {Adding(r)} == w.core.bundles
  {
    hide Partition, Counted, History, I.Inverse, I.Allocated, I.IdFor, R.LeastFree, I.Removed;
    NothingFresh(env, w);
    I.RemoveUndoesAllocate(env.hash, w.core.ids, m);
    CountChange(w.core.ips, R.LeastFree(env.cfg, w.core.ips));
  }

  // ------------------------------------------------------------------ DelPod

  ghost function DelActs(w: World, key: string, container: string, dropped: bool): seq<Act>
  {
    var r := w.core.next;
    [Core(TakeEndpoint(key, container)), Core(ReleaseIP(r)), Core(ReleaseID(r)), Drop(r, dropped)]
  }

  /** The net effect of an uninterrupted DelPod. */
  ghost predicate PodDeleted(w: World, w': World, key: string, dropped: bool)
    requires Endpoint(key) in w.core.bundles && I.Inverse(w.core.ids)
  {
    var b := w.core.bundles[Endpoint(key)];
    && w'.core.ips == w.core.ips - {b.ip}
    && w'.core.ids == I.Removed(w.core.ids, b.id)
    && w'.core.bundles == w.core.bundles - {Endpoint(key)}
    && w'.pushing == w.pushing && w'.dropping == w.dropping - {w.core.next}
    && w'.table == if dropped then w.table - {b.ip} else w.table
  }

  lemma ReleaseStep(env: Env, w: World, r: nat)
    requires env.Valid() && Inv(env, w.core) && InStage(w.core, Deleting(r), DropIP)
    ensures Perform(env, w, [Core(ReleaseIP(r))]) ==
            w.(core := Step(env, w.core, ReleaseIP(r)), dropping := w.dropping[r := w.core.bundles[Deleting(r)].ip])
  {
    hide Perform, Partition, Counted, History, I.Inverse, Step;
    Perform1(env, w, Core(ReleaseIP(r)));
  }

  lemma GiveBackEffect(env: Env, s: State, s1: State, s2: State, r: nat)
    requires env.Valid() && I.Inverse(s.ids) && InStage(s, Deleting(r), DropIP)
    requires s1 == Step(env, s, ReleaseIP(r)) && I.Inverse(s1.ids)
    requires s2 == Step(env, s1, ReleaseID(r))
    ensures s2.ips == s.ips - {s.bundles[Deleting(r)].ip}
    ensures s2.ids == I.Removed(s.ids, s.bundles[Deleting(r)].id)
    ensures s2.bundles == s.bundles - {Deleting(r)}
  {
    hide I.Inverse, I.Removed;
    assert s1.bundles == s.bundles[Deleting(r) := s.bundles[Deleting(r)].(stage := DropID)];
  }

  lemma TakeEffect(env: Env, s: State, key: string, container: string)
    requires env.Valid() && Inv(env, s) && Enabled(env, s, TakeEndpoint(key, container))
    ensures var s1, b := Step(env, s, TakeEndpoint(key, container)), s.bundles[Endpoint(key)];
            && InStage(s1, Deleting(s.next), DropIP)
            && s1.bundles[Deleting(s.next)].ip == b.ip && s1.bundles[Deleting(s.next)].id == b.id
            && s1.ips == s.ips && s1.ids == s.ids
            && s1.bundles - {Deleting(s.next)} == s.bundles - {Endpoint(key)}
  {
    hide I.Inverse, Partition, Counted, History;
    FreshPlaces(s);
  }

  /** DelPod up to its last call. */
  ghost function HalfDelActs(w: World, key: string, container: string): seq<Act>
  {
    [Core(TakeEndpoint(key, container)), Core(ReleaseIP(w.core.next)), Core(ReleaseID(w.core.next))]
  }

  /** Address, identity and endpoint are gone, the dataplane has not been told. */
  ghost predicate HalfDeleted(w: World, w': World, key: string)
    requires Endpoint(key) in w.core.bundles && I.Inverse(w.core.ids)
  {
    var b := w.core.bundles[Endpoint(key)];
    && w'.core.ips == w.core.ips - {b.ip}
    && w'.core.ids == I.Removed(w.core.ids, b.id)
    && w'.core.bundles == w.core.bundles - {Endpoint(key)}
    && w'.pushing == w.pushing && w'.dropping == w.dropping[w.core.next := b.ip] && w'.table == w.table
  }

  lemma HalfDelPodEffect(env: Env, w: World, key: string, container: string)
    requires env.Valid() && Inv(env, w.core) && Enabled(env, w.core, TakeEndpoint(key, container))
    ensures HalfDeleted(w, Perform(env, w, HalfDelActs(w, key, container)), key)
    ensures Deleting(w.core.next) !in Perform(env, w, HalfDelActs(w, key, container)).core.bundles
  {
    hide Perform, Partition, Counted, History, I.Inverse, Step, I.Removed;
    var r := w.core.next;
    Perform3(env, w, Core(TakeEndpoint(key, container)), Core(ReleaseIP(r)), Core(ReleaseID(r)));
    QuietStep(env, w, TakeEndpoint(key, container));
    var w1 := Perform(env, w, [Core(TakeEndpoint(key, container))]);
    TakeEffect(env, w.core, key, container);
    ReleaseStep(env, w1, r);
    var w2 := Perform(env, w1, [Core(ReleaseIP(r))]);
    QuietStep(env, w2, ReleaseID(r));
    GiveBackEffect(env, w1.core, w2.core, Perform(env, w2, [Core(ReleaseID(r))]).core, r);
  }

  lemma DelPodEffect(env: Env, w: World, key: string, container: string, dropped: bool)
    requires env.Valid() && Inv(env, w.core) && Enabled(env, w.core, TakeEndpoint(key, container))
    ensures PodDeleted(w, Perform(env, w, DelActs(w, key, container, dropped)), key, dropped)
  {
    hide Perform, Inv, I.Inverse, I.Removed;
    var half, last := HalfDelActs(w, key, container), [Drop(w.core.next, dropped)];
    PerformConcat(env, w, half, last);
    assert half + last == DelActs(w, key, container, dropped);
    HalfDelPodEffect(env, w, key, container);
    DropEffect(env, Perform(env, w, half), w.core.next, dropped);
  }

  /** The pod added under `key` is known to the dataplane exactly if its address is not `freed`. */
  ghost predicate KnownUnlessReused(w: World, w': World, key: string, ip: int, freed: nat)
  {
    && ip >= 0 && KeptAt(w'.core, PUSHED, w.core.next, ip, Endpoint(key))
    && (ip in w'.table <==> ip != freed)
    && (ip in w'.table ==> w'.table[ip] == w.core.next)
  }

  /** When a DelPod has released its address but not yet called the dataplane, an AddPod that
      runs to its end before that call is known to the dataplane afterwards if and only if it
      was given another address. */
  lemma LateDropLosesPod(env: Env, w: World, d: nat, key: string, container: string, m: LabelMap)
    requires CanAdd(env, w) && d in w.dropping && Deleting(d) !in w.core.bundles
    ensures KnownUnlessReused(w, Perform(env, w, AddActs(w, key, container, m, true) + [Drop(d, true)]), key,
                              R.LeastFree(env.cfg, w.core.ips), w.dropping[d])
  {
    hide Perform, Inv, I.Allocated, I.IdFor, R.LeastFree, PodAdded, KnownUnlessReused;
    var acts := AddActs(w, key, container, m, true);
    PerformConcat(env, w, acts, [Drop(d, true)]);
    AddPodEffect(env, w, key, container, m, true);
    AddedThenDropped(env, w, Perform(env, w, acts), d, key, container, m);
  }

  lemma AddedThenDropped(env: Env, w: World, w1: World, d: nat, key: string, container: string, m: LabelMap)
    requires CanAdd(env, w) && d in w.dropping && Deleting(d) !in w.core.bundles
    requires Inv(env, w1.core) && PodAdded(env, w, w1, key, container, m, true)
    ensures KnownUnlessReused(w, Perform(env, w1, [Drop(d, true)]), key, R.LeastFree(env.cfg, w.core.ips),
              w.dropping[d])
  {
    hide Perform, Inv, I.Allocated, I.IdFor, R.LeastFree;
    DropEffect(env, w1, d, true);
  }

  /** When an endpoint is deleted between being installed and being pushed, the late push
      leaves a dataplane entry that belongs to no endpoint. */
  lemma LatePushRevivesPod(env: Env, w: World, r: nat, key: string, container: string)
    requires env.Valid() && Inv(env, w.core) && Enabled(env, w.core, TakeEndpoint(key, container))
    requires r in w.pushing && w.pushing[r] == w.core.bundles[Endpoint(key)].(stage := HasBoth)
    ensures var w' := Perform(env, w, DelActs(w, key, container, true) + [Push(r, true)]);
            var ip := w.pushing[r].ip;
            && ip in w'.table && w'.table[ip] == w.pushing[r].origin
            && !Kept(w'.core, SHOWN, w.pushing[r].origin, ip) && ip !in w'.core.ips
  {
    hide Perform, Inv, I.Removed, I.Inverse;
    var acts := DelActs(w, key, container, true);
    PerformConcat(env, w, acts, [Push(r, true)]);
    DelPodEffect(env, w, key, container, true);
    var w1 := Perform(env, w, acts);
    PushEffect(env, w1, r, true);
    var w2 := Perform(env, w1, [Push(r, true)]);
    var ip := w.pushing[r].ip;
    assert Kept(w2.core, SHOWN, w.pushing[r].origin, ip) ==> ip in w2.core.ips by {
      if Kept(w2.core, SHOWN, w.pushing[r].origin, ip) {
        KeptUnique(env, w2.core, w.pushing[r].origin, ip, w.pushing[r].origin, ip);
      }
    }
  }

  lemma DropEffect(env: Env, w: World, r: nat, ok: bool)
    requires env.Valid() && Inv(env, w.core) && r in w.dropping && Deleting(r) !in w.core.bundles
    ensures Perform(env, w, [Drop(r, ok)]) ==
            w.(dropping := w.dropping - {r}, table := if ok then w.table - {w.dropping[r]} else w.table)
  {
    hide Perform, Partition, Counted, History, I.Inverse;
    Perform1(env, w, Drop(r, ok));
  }
}
