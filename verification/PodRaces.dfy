/**
 Runs of AddPod and DelPod (internal/agent/server.go), each from a server that has just
 started, that come to rest with a wrong endpoint table in the dataplane, or with resources
 that no pod holds.
 */
module PodRaces {
  import opened Ipam
  import R = IpamRuns
  import opened Labels
  import opened P = PodProtocol
  import opened D = PodDataplane
  import I = Identity

  /** What AddPod is asked for, and the labels it finds. */
  datatype Request = Request(key: string, container: string, labels: LabelMap)

  ghost predicate HasRoom(env: Env)
  {
    env.Valid() && R.LeastFree(env.cfg, env.Initial()) >= 0
  }

  ghost function First(env: Env): nat
    requires HasRoom(env)
  {
    R.LeastFree(env.cfg, env.Initial())
  }

  /** No pod holds anything. */
  ghost predicate Bare(env: Env, s: State)
    requires env.Valid()
  {
    s.ips == env.Initial() && s.ids == I.EMPTY && s.bundles == map[]
  }

  /** The pod of `q`, added by request `origin`, is the only one. */
  ghost predicate Single(env: Env, s: State, q: Request, origin: nat)
    requires HasRoom(env)
  {
    && s.ips == env.Initial() + {First(env)}
    && s.ids == I.Allocated(env.hash, I.EMPTY, q.labels)
    && s.bundles == map[Endpoint(q.key) :=
         Bundle(Live, q.key, q.container, origin, First(env), I.IdFor(env.hash, I.EMPTY, q.labels))]
  }

  ghost function Adds(w: World, q: Request): seq<Act>
  {
    AddActs(w, q.key, q.container, q.labels, true)
  }

  lemma BareCanAdd(env: Env, w: World)
    requires HasRoom(env) && Inv(env, w.core) && Bare(env, w.core)
    ensures CanAdd(env, w)
  {
    hide Inv, R.LeastFree;
  }

  lemma AddToBare(env: Env, w: World, q: Request)
    requires HasRoom(env) && Inv(env, w.core) && Bare(env, w.core)
    ensures var w' := Perform(env, w, Adds(w, q));
            && Single(env, w'.core, q, w.core.next)
            && w'.pushing == w.pushing - {w.core.next} && w'.dropping == w.dropping
            && w'.table == w.table[First(env) := w.core.next]
  {
    hide Perform, Inv, R.LeastFree, I.Allocated, I.IdFor;
    BareCanAdd(env, w);
    AddPodEffect(env, w, q.key, q.container, q.labels, true);
  }

  lemma HalfDeleteSingle(env: Env, w: World, q: Request, origin: nat)
    requires HasRoom(env) && Inv(env, w.core) && Single(env, w.core, q, origin)
    ensures var w' := Perform(env, w, HalfDelActs(w, q.key, q.container));
            && Bare(env, w'.core)
            && w'.pushing == w.pushing && w'.dropping == w.dropping[w.core.next := First(env)] && w'.table == w.table
  {
    hide Perform, R.LeastFree, I.Allocated, I.IdFor, I.Removed, Partition, Counted, History, I.Inverse;
    HalfDelPodEffect(env, w, q.key, q.container);
    SingleUndone(env, w.core, q, origin);
  }

  lemma SingleUndone(env: Env, s: State, q: Request, origin: nat)
    requires HasRoom(env) && I.Inverse(s.ids) && Single(env, s, q, origin)
    ensures s.ips - {First(env)} == env.Initial()
    ensures I.Removed(s.ids, I.IdFor(env.hash, I.EMPTY, q.labels)) == I.EMPTY
    ensures s.bundles - {Endpoint(q.key)} == map[]
  {
    hide I.Allocated, I.IdFor, I.Removed, R.LeastFree, I.Inverse;
    EmptyIsInverse();
    I.RemoveUndoesAllocate(env.hash, I.EMPTY, q.labels);
  }

  lemma EmptyIsInverse()
    ensures I.Inverse(I.EMPTY)
  {}

  // ------------------------------------------------------------------ a late removal

  /** AddPod; DelPod up to its last call; AddPod; the last call of the DelPod. */
  ghost function LateDropRun(env: Env, q: Request, q': Request): seq<Act>
    requires env.Valid()
  {
    var add := Adds(Begin(env), q);
    var added := D.Run(env, add);
    var delete := HalfDelActs(added, q.key, q.container);
    add + delete + Adds(D.Run(env, add + delete), q') + [Drop(added.core.next, true)]
  }

  /** For every pool with a free address the run ends with the second pod in the endpoint
      table, nothing in progress, and the pod's address unknown to the dataplane. */
  lemma LateDropReachable(env: Env, q: Request, q': Request)
    requires HasRoom(env)
    ensures var w := D.Run(env, LateDropRun(env, q, q'));
            && Quiescent(w) && w.table == map[]
            && Endpoint(q'.key) in w.core.bundles && w.core.bundles[Endpoint(q'.key)].stage == Live
  {
    hide Perform, Inv, R.LeastFree, I.Allocated, I.IdFor;
    StartInv(env);
    var w0, add := Begin(env), Adds(Begin(env), q);
    AddToBare(env, w0, q);
    var w1 := Perform(env, w0, add);
    var delete := HalfDelActs(w1, q.key, q.container);
    PerformConcat(env, w0, add, delete);
    HalfDeleteSingle(env, w1, q, w0.core.next);
    var w2 := Perform(env, w1, delete);
    PerformConcat(env, w0, add + delete, Adds(w2, q'));
    AddToBare(env, w2, q');
    var w3 := Perform(env, w2, Adds(w2, q'));
    PerformConcat(env, w0, add + delete + Adds(w2, q'), [Drop(w1.core.next, true)]);
    DropEffect(env, w3, w1.core.next, true);
  }

  // ------------------------------------------------------------------ a late push

  /** AddPod up to its push; DelPod; the push. */
  ghost function LatePushRun(env: Env, q: Request): seq<Act>
    requires env.Valid()
  {
    var add := InstallActs(Begin(env), q);
    add + DelActs(D.Run(env, add), q.key, q.container, true) + [Push(Begin(env).core.next, true)]
  }

  ghost function InstallActs(w: World, q: Request): seq<Act>
  {
    [Core(AllocateIP(q.key, q.container, Written)), Core(AllocateID(w.core.next, q.labels)), Core(Install(w.core.next))]
  }

  lemma InstallOnBare(env: Env, w: World, q: Request)
    requires HasRoom(env) && Inv(env, w.core) && Bare(env, w.core)
    ensures var w', r := Perform(env, w, InstallActs(w, q)), w.core.next;
            && Single(env, w'.core, q, r)
            && w'.pushing == w.pushing[r := w'.core.bundles[Endpoint(q.key)].(stage := HasBoth)]
            && w'.dropping == w.dropping && w'.table == w.table
  {
    hide Perform, Inv, R.LeastFree, I.Allocated, I.IdFor, Installed;
    var r := w.core.next;
    BareCanAdd(env, w);
    Perform3(env, w, Core(AllocateIP(q.key, q.container, Written)), Core(AllocateID(r, q.labels)), Core(Install(r)));
    PrepareEffect(env, w, q.key, q.container, q.labels);
    var w2 := Prepared(env, w, q.key, q.container, q.labels);
    InstallEffect(env, w2, r);
    InstalledBundles(w2.core, w.core.bundles, r, w2.core.bundles[Adding(r)]);
  }

  /** For every pool with a free address the run ends with no pod, nothing in progress, and
      an entry of the dataplane for an address that is not allocated. */
  lemma LatePushReachable(env: Env, q: Request)
    requires HasRoom(env)
    ensures var w := D.Run(env, LatePushRun(env, q));
            && Quiescent(w) && w.core.bundles == map[]
            && First(env) in w.table && First(env) !in w.core.ips
  {
    hide Perform, Inv, R.LeastFree, I.Allocated, I.IdFor, I.Removed, I.Inverse;
    StartInv(env);
    var w0, add := Begin(env), InstallActs(Begin(env), q);
    InstallOnBare(env, w0, q);
    var w1 := Perform(env, w0, add);
    var delete := DelActs(w1, q.key, q.container, true);
    PerformConcat(env, w0, add, delete);
    DelPodEffect(env, w1, q.key, q.container, true);
    var w2 := Perform(env, w1, delete);
    PerformConcat(env, w0, add + delete, [Push(w0.core.next, true)]);
    PushEffect(env, w2, w0.core.next, true);
  }

  // ------------------------------------------------------------------ an overwritten endpoint

  /** Two AddPods for one pod without a DelPod between them. */
  ghost function OverwriteRun(env: Env, q: Request, q': Request): seq<Act>
    requires env.Valid()
  {
    Adds(Begin(env), q) + Adds(D.Run(env, Adds(Begin(env), q)), q')
  }

  /** For every pool with two free addresses the run comes to rest with an overwritten
      endpoint, which keeps the first address allocated for the rest of every run. */
  lemma OverwriteReachable(env: Env, q: Request, q': Request)
    requires HasRoom(env) && R.LeastFree(env.cfg, env.Initial() + {First(env)}) >= 0 && q'.key == q.key
    ensures var w := D.Run(env, OverwriteRun(env, q, q'));
            && Quiescent(w) && HasOrphan(w.core) && First(env) in w.core.ips
            && w.core == P.Run(env, CoreEvents(OverwriteRun(env, q, q')))
  {
    hide Perform, Inv, R.LeastFree, Single, Quiescent, HasOrphan, Adds;
    StartInv(env);
    var w0, add := Begin(env), Adds(Begin(env), q);
    AddToBare(env, w0, q);
    var w1 := Perform(env, w0, add);
    PerformConcat(env, w0, add, Adds(w1, q'));
    AddToSingle(env, w1, q, w0.core.next, q');
    CoreIsRun(env, OverwriteRun(env, q, q'));
  }

  lemma AddToSingle(env: Env, w: World, q: Request, origin: nat, q': Request)
    requires HasRoom(env) && Inv(env, w.core) && Single(env, w.core, q, origin)
    requires R.LeastFree(env.cfg, env.Initial() + {First(env)}) >= 0 && q'.key == q.key
    requires w.pushing == map[] && w.dropping == map[]
    ensures var w' := Perform(env, w, Adds(w, q'));
            Quiescent(w') && HasOrphan(w'.core) && First(env) in w'.core.ips
  {
    hide Perform, Inv, R.LeastFree, I.Allocated, I.IdFor;
    SingleCanAdd(env, w, q, origin);
    AddPodEffect(env, w, q'.key, q'.container, q'.labels, true);
    assert Orphan(w.core.next + 1) in Perform(env, w, Adds(w, q')).core.bundles;
  }

  lemma SingleCanAdd(env: Env, w: World, q: Request, origin: nat)
    requires HasRoom(env) && Inv(env, w.core) && Single(env, w.core, q, origin)
    requires R.LeastFree(env.cfg, env.Initial() + {First(env)}) >= 0
    ensures CanAdd(env, w)
  {
    hide Inv, R.LeastFree, I.IdFor, I.Allocated;
    OneIdentity(env.hash, q.labels);
  }

  lemma OneIdentity(hash: I.Hash, m: LabelMap)
    ensures I.Inverse(I.EMPTY) && |I.Allocated(hash, I.EMPTY, m).idToLabels.Keys| == 1
  {
    hide I.IdFor;
    EmptyIsInverse();
    var id := I.IdFor(hash, I.EMPTY, m);
    assert I.Allocated(hash, I.EMPTY, m).idToLabels.Keys == {id};
  }
}
