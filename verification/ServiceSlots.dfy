/**
 The slot bookkeeping of the service watcher (internal/service/watcher.go): each service
 holds a block of backend slots and, with the Maglev algorithm, a lookup table.  Pushing the
 entries to the dataplane is left out.
 */
module ServiceSlots {
  import opened Prelude
  import opened Slots

  datatype Algorithm = Random | RoundRobin | Maglev

  const MAGLEV_TABLE_SIZE: nat := 65537
  const MAX_BACKENDS: nat := 65536
  const MAX_MAGLEV: nat := 1048576

  datatype Service = Service(backendOffset: nat, backendCount: nat, algorithm: Algorithm, maglevOffset: nat) {
    function Block(): Range
    {
      Range(backendOffset, backendCount)
    }

    function Table(): Range
    {
      Range(maglevOffset, MAGLEV_TABLE_SIZE)
    }
  }

  const FIRST_TABLE := Range(0, MAGLEV_TABLE_SIZE)

  ghost predicate HoldsBlock(services: map<string, Service>, k: string, b: Range)
  {
    k in services && services[k].backendCount > 0 && services[k].Block() == b
  }

  /** Services and backend blocks correspond: each non-empty block is handed out, no two
      services share one, and nothing else is handed out. */
  ghost predicate BackendsExact(services: map<string, Service>, owned: set<Range>)
  {
    && (forall k, b :: HoldsBlock(services, k, b) ==> b in owned)
    && (forall k, k', b :: HoldsBlock(services, k, b) && HoldsBlock(services, k', b) ==> k == k')
    && (forall b :: b in owned ==> exists k :: HoldsBlock(services, k, b))
  }

  ghost predicate HoldsTable(services: map<string, Service>, k: string, t: Range)
  {
    k in services && services[k].algorithm.Maglev? && services[k].Table() == t
  }

  /** The same for Maglev tables, except that the table at offset 0 may be handed out with no
      service holding it. */
  ghost predicate TablesAlmostExact(services: map<string, Service>, owned: set<Range>)
  {
    && (forall k, t :: HoldsTable(services, k, t) ==> t in owned)
    && (forall k, k', t :: HoldsTable(services, k, t) && HoldsTable(services, k', t) ==> k == k')
    && (forall t :: t in owned && t != FIRST_TABLE ==> exists k :: HoldsTable(services, k, t))
  }

  /** The backend block of a service, as a set. */
  ghost function BlockOf(services: map<string, Service>, key: string): set<Range>
  {
    if key in services && services[key].backendCount > 0 then {services[key].Block()} else {}
  }

  /** The Maglev table that releasing a service gives back: none when it starts at offset 0. */
  ghost function TableFreed(services: map<string, Service>, key: string): set<Range>
  {
    if key in services && services[key].algorithm.Maglev? && services[key].maglevOffset > 0
    then {services[key].Table()} else {}
  }

  lemma ReleaseExact(services: map<string, Service>, key: string, blocks: set<Range>, tables: set<Range>)
    requires BackendsExact(services, blocks) && TablesAlmostExact(services, tables)
    ensures BackendsExact(services - {key}, blocks - BlockOf(services, key))
    ensures TablesAlmostExact(services - {key}, tables - TableFreed(services, key))
  {
    var rest := services - {key};
    assert forall k, b :: HoldsBlock(rest, k, b) <==> k != key && HoldsBlock(services, k, b);
    assert forall k, t :: HoldsTable(rest, k, t) <==> k != key && HoldsTable(services, k, t);
    forall b | b in blocks - BlockOf(services, key)
      ensures exists k :: HoldsBlock(rest, k, b)
    {
      var k :| HoldsBlock(services, k, b);
      assert HoldsBlock(rest, k, b);
    }
    forall t | t in tables - TableFreed(services, key) && t != FIRST_TABLE
      ensures exists k :: HoldsTable(rest, k, t)
    {
      var k :| HoldsTable(services, k, t);
      assert HoldsTable(rest, k, t);
    }
    if key in services && services[key].backendCount > 0 {
      assert HoldsBlock(services, key, services[key].Block());
    }
    if key in services && services[key].algorithm.Maglev? {
      assert HoldsTable(services, key, services[key].Table());
    }
  }

  lemma HeldIsOwned(services: map<string, Service>, key: string, blocks: set<Range>, tables: set<Range>)
    requires BackendsExact(services, blocks) && TablesAlmostExact(services, tables) && key in services
    ensures services[key].backendCount > 0 ==> services[key].Block() in blocks
    ensures services[key].algorithm.Maglev? ==> services[key].Table() in tables
  {
    assert services[key].backendCount > 0 ==> HoldsBlock(services, key, services[key].Block());
    assert services[key].algorithm.Maglev? ==> HoldsTable(services, key, services[key].Table());
  }

  lemma TakeExact(services: map<string, Service>, key: string, svc: Service, blocks: set<Range>, tables: set<Range>)
    requires BackendsExact(services, blocks) && TablesAlmostExact(services, tables) && key !in services
    requires svc.backendCount > 0 ==> svc.Block() !in blocks
    requires svc.algorithm.Maglev? ==> svc.Table() !in tables
    ensures BackendsExact(services[key := svc], if svc.backendCount > 0 then blocks + {svc.Block()} else blocks)
    ensures TablesAlmostExact(services[key := svc], if svc.algorithm.Maglev? then tables + {svc.Table()} else tables)
  {
    var more := services[key := svc];
    assert forall k, b :: HoldsBlock(more, k, b) <==>
           if k == key then svc.backendCount > 0 && svc.Block() == b else HoldsBlock(services, k, b);
    assert forall k, t :: HoldsTable(more, k, t) <==>
           if k == key then svc.algorithm.Maglev? && svc.Table() == t else HoldsTable(services, k, t);
    forall b | b in blocks
      ensures exists k :: HoldsBlock(more, k, b)
    {
      var k :| HoldsBlock(services, k, b);
      assert HoldsBlock(more, k, b);
    }
    forall t | t in tables && t != FIRST_TABLE
      ensures exists k :: HoldsTable(more, k, t)
    {
      var k :| HoldsTable(services, k, t);
      assert HoldsTable(more, k, t);
    }
    if svc.backendCount > 0 {
      assert HoldsBlock(more, key, svc.Block());
    }
    if svc.algorithm.Maglev? {
      assert HoldsTable(more, key, svc.Table());
    }
  }

  // ------------------------------------------------------------------ steps

  /** The services, and the backend blocks and Maglev tables handed out. */
  datatype State = State(services: map<string, Service>, blocks: set<Range>, tables: set<Range>)

  const EMPTY := State(map[], {}, {})

  datatype Op =
    | Sync(key: string, backends: nat, ports: nat)  // reconcileService with cluster addresses
    | Drop(key: string)                             // deleteServiceLocked

  ghost function Released(s: State, key: string): State
  {
    State(s.services - {key}, s.blocks - BlockOf(s.services, key), s.tables - TableFreed(s.services, key))
  }

  /** `svc` is what a reconcile that finds room for `total` backends makes of it. */
  ghost predicate Placed(alg: Algorithm, s: State, total: nat, svc: Service)
  {
    && svc.backendCount == total
    && FirstFitIs(s.blocks, MAX_BACKENDS, total, Some(svc.backendOffset))
    && (if svc.algorithm.Maglev? then
          alg.Maglev? && FirstFitIs(s.tables, MAX_MAGLEV, MAGLEV_TABLE_SIZE, Some(svc.maglevOffset))
        else
          && svc.maglevOffset == 0
          && (alg.Maglev? ==> svc.algorithm.Random? && FirstFitIs(s.tables, MAX_MAGLEV, MAGLEV_TABLE_SIZE, None))
          && (!alg.Maglev? ==> svc.algorithm == alg))
  }

  ghost function With(s: State, key: string, svc: Service): State
  {
    State(s.services[key := svc],
          if svc.backendCount > 0 then s.blocks + {svc.Block()} else s.blocks,
          if svc.algorithm.Maglev? then s.tables + {svc.Table()} else s.tables)
  }

  /** One operation: old resources are given up first; a service without backends or room
      stays dropped, any other is placed. */
  ghost predicate Next(alg: Algorithm, s: State, op: Op, s': State)
  {
    var rest := Released(s, op.key);
    match op
    case Drop(_) => s' == rest
    case Sync(key, backends, ports) =>
      if backends == 0 || FirstFitIs(rest.blocks, MAX_BACKENDS, backends * ports, None) then s' == rest
      else exists svc :: Placed(alg, rest, backends * ports, svc) && s' == With(rest, key, svc)
  }

  lemma FittingIsNew(owned: set<Range>, max: nat, count: nat, o: nat)
    requires count > 0 && FirstFitIs(owned, max, count, Some(o))
    ensures Range(o, count) !in owned
  {
    assert Range(o, count).Has(o);
    assert !Taken(owned, o);
  }

  lemma PlacedIsNew(alg: Algorithm, s: State, total: nat, svc: Service)
    requires Placed(alg, s, total, svc)
    ensures svc.backendCount > 0 ==> svc.Block() !in s.blocks
    ensures svc.algorithm.Maglev? ==> svc.Table() !in s.tables
  {
    hide FirstFitIs;
    if svc.backendCount > 0 {
      FittingIsNew(s.blocks, MAX_BACKENDS, total, svc.backendOffset);
    }
    if svc.algorithm.Maglev? {
      FittingIsNew(s.tables, MAX_MAGLEV, MAGLEV_TABLE_SIZE, svc.maglevOffset);
    }
  }

  // ------------------------------------------------------------------ runs

  ghost predicate Exact(s: State)
  {
    BackendsExact(s.services, s.blocks) && TablesAlmostExact(s.services, s.tables)
  }

  lemma StepExact(alg: Algorithm, s: State, op: Op, s': State)
    requires Exact(s) && Next(alg, s, op, s')
    ensures Exact(s')
  {
    hide BackendsExact, TablesAlmostExact, FirstFitIs, Placed;
    ReleaseExact(s.services, op.key, s.blocks, s.tables);
    var rest := Released(s, op.key);
    if s' != rest {
      var svc :| Placed(alg, rest, op.backends * op.ports, svc) && s' == With(rest, op.key, svc);
      PlacedTotal(alg, rest, op.backends * op.ports, svc);
      PlacedIsNew(alg, rest, op.backends * op.ports, svc);
      TakeExact(rest.services, op.key, svc, rest.blocks, rest.tables);
    }
  }

  lemma PlacedTotal(alg: Algorithm, s: State, total: nat, svc: Service)
    requires Placed(alg, s, total, svc)
    ensures svc.backendCount == total
  {}

  /** The table at offset 0 is handed out and no service has it. */
  ghost predicate Lost(s: State)
  {
    FIRST_TABLE in s.tables && forall k :: !HoldsTable(s.services, k, FIRST_TABLE)
  }

  /** The operation gives up, or replaces, the service that has the table at offset 0. */
  ghost predicate GivesUpFirst(s: State, op: Op)
  {
    HoldsTable(s.services, op.key, FIRST_TABLE)
  }

  lemma StepLost(alg: Algorithm, s: State, op: Op, s': State)
    requires Exact(s) && Next(alg, s, op, s')
    ensures Lost(s') <==> Lost(s) || GivesUpFirst(s, op)
  {
    hide BackendsExact, FirstFitIs, Placed;
    var rest := Released(s, op.key);
    ReleaseLost(s, op.key);
    if s' != rest {
      var svc :| Placed(alg, rest, op.backends * op.ports, svc) && s' == With(rest, op.key, svc);
      PlacedIsNew(alg, rest, op.backends * op.ports, svc);
      PlaceLost(rest, op.key, svc);
    }
  }

  lemma ReleaseLost(s: State, key: string)
    requires TablesAlmostExact(s.services, s.tables)
    ensures Lost(Released(s, key)) <==> Lost(s) || HoldsTable(s.services, key, FIRST_TABLE)
  {
    var rest := Released(s, key);
    assert FIRST_TABLE in rest.tables <==> FIRST_TABLE in s.tables;
    assert forall k :: HoldsTable(rest.services, k, FIRST_TABLE) <==>
           k != key && HoldsTable(s.services, k, FIRST_TABLE);
  }

  lemma PlaceLost(s: State, key: string, svc: Service)
    requires key !in s.services && (svc.algorithm.Maglev? ==> svc.Table() !in s.tables)
    ensures Lost(With(s, key, svc)) <==> Lost(s)
  {
    var s' := With(s, key, svc);
    assert forall k :: HoldsTable(s'.services, k, FIRST_TABLE) <==>
             if k == key then svc.algorithm.Maglev? && svc.Table() == FIRST_TABLE
             else HoldsTable(s.services, k, FIRST_TABLE);
    assert HoldsTable(s'.services, key, FIRST_TABLE) <==> svc.algorithm.Maglev? && svc.Table() == FIRST_TABLE;
    if Lost(s) {
      assert !HoldsTable(s'.services, key, FIRST_TABLE);
    }
    if Lost(s') {
      forall k
        ensures !HoldsTable(s.services, k, FIRST_TABLE)
      {
        assert !HoldsTable(s'.services, k, FIRST_TABLE);
      }
    }
  }

  ghost predicate IsRun(alg: Algorithm, states: seq<State>, ops: seq<Op>)
  {
    && |states| == |ops| + 1 && states[0] == EMPTY
    && forall k :: 0 <= k < |ops| ==> Next(alg, states[k], ops[k], states[k + 1])
  }

  lemma {:induction false} RunExact(alg: Algorithm, states: seq<State>, ops: seq<Op>, j: nat)
    requires IsRun(alg, states, ops) && j <= |ops|
    ensures Exact(states[j])
  {
    hide Next;
    if j == 0 {
      EmptyExact();
    } else {
      RunExact(alg, states, ops, j - 1);
      StepExact(alg, states[j - 1], ops[j - 1], states[j]);
    }
  }

  lemma EmptyExact()
    ensures Exact(EMPTY) && !Lost(EMPTY)
  {}

  /** Over every run of a watcher the table at offset 0 is lost if and only if some operation
      gave up or replaced the service that had it; once lost it stays lost. */
  lemma {:induction false} LostIffGivenUp(alg: Algorithm, states: seq<State>, ops: seq<Op>, j: nat)
    requires IsRun(alg, states, ops) && j <= |ops|
    ensures Lost(states[j]) <==> exists k :: 0 <= k < j && GivesUpFirst(states[k], ops[k])
  {
    hide Next, Lost, GivesUpFirst, Exact;
    if j == 0 {
      EmptyExact();
    } else {
      LostIffGivenUp(alg, states, ops, j - 1);
      RunExact(alg, states, ops, j - 1);
      StepLost(alg, states[j - 1], ops[j - 1], states[j]);
    }
  }

  /** No service has been placed before operation `n`. */
  ghost predicate NonePlacedBefore(states: seq<State>, ops: seq<Op>, n: nat)
    requires |states| == |ops| + 1 && n <= |ops|
  {
    forall k :: 0 <= k < n ==> ops[k].key !in states[k + 1].services
  }

  lemma {:induction false} StillEmpty(alg: Algorithm, states: seq<State>, ops: seq<Op>, n: nat)
    requires IsRun(alg, states, ops) && n <= |ops| && NonePlacedBefore(states, ops, n)
    ensures states[n] == EMPTY
  {
    hide FirstFitIs, Placed;
    if n > 0 {
      StillEmpty(alg, states, ops, n - 1);
      var op := ops[n - 1];
      assert Next(alg, EMPTY, op, states[n]);
      assert op.key !in states[n].services;
      assert Released(EMPTY, op.key) == EMPTY;
    }
  }

  /** A Maglev watcher gives the table at offset 0 to the first service that has backends and
      room for them, whatever came before. */
  lemma FirstServiceHasFirstTable(states: seq<State>, ops: seq<Op>, n: nat)
    requires IsRun(Maglev, states, ops) && n < |ops| && NonePlacedBefore(states, ops, n)
    requires ops[n].Sync? && ops[n].backends > 0 && ops[n].backends * ops[n].ports <= MAX_BACKENDS
    ensures HoldsTable(states[n + 1].services, ops[n].key, FIRST_TABLE)
    ensures states[n + 1].services[ops[n].key].Table() == Range(0, 65537)
  {
    hide FirstFitIs;
    StillEmpty(Maglev, states, ops, n);
    var op, rest := ops[n], Released(EMPTY, ops[n].key);
    assert rest == EMPTY;
    var total := op.backends * op.ports;
    FirstOfNone(MAX_BACKENDS, total);
    FirstOfNone(MAX_MAGLEV, MAGLEV_TABLE_SIZE);
    assert Next(Maglev, states[n], op, states[n + 1]);
    var svc :| Placed(Maglev, rest, total, svc) && states[n + 1] == With(rest, op.key, svc);
    if svc.algorithm.Maglev? {
      FirstFitUnique(MAX_MAGLEV, MAGLEV_TABLE_SIZE, svc.maglevOffset);
    }
  }

  lemma FirstOfNone(max: nat, count: nat)
    requires count <= max && max > 0
    ensures FirstFitIs({}, max, count, Some(0)) && !FirstFitIs({}, max, count, None)
  {
    assert forall x :: !Taken({}, x);
    assert Fits({}, max, 0, Room(count));
    FitIsDefinite({}, max, count, 0);
  }

  lemma FitIsDefinite(owned: set<Range>, max: nat, count: nat, o: nat)
    requires FirstFitIs(owned, max, count, Some(o))
    ensures !FirstFitIs(owned, max, count, None)
  {
    assert Fits(owned, max, o, Room(count));
  }

  lemma FirstFitUnique(max: nat, count: nat, o: nat)
    requires count <= max && max > 0 && FirstFitIs({}, max, count, Some(o))
    ensures o == 0
  {
    assert Fits({}, max, 0, Room(count));
  }

  lemma {:induction false} KeepsFirstTable(alg: Algorithm, states: seq<State>, ops: seq<Op>, i: nat, j: nat,
                                           key: string)
    requires IsRun(alg, states, ops) && i <= j <= |ops| && HoldsTable(states[i].services, key, FIRST_TABLE)
    requires forall k :: i <= k < j ==> ops[k].key != key
    ensures HoldsTable(states[j].services, key, FIRST_TABLE)
  {
    if i < j {
      KeepsFirstTable(alg, states, ops, i, j - 1, key);
      assert Next(alg, states[j - 1], ops[j - 1], states[j]);
      OtherServicesStay(alg, states[j - 1], ops[j - 1], states[j], key);
    }
  }

  lemma OtherServicesStay(alg: Algorithm, s: State, op: Op, s': State, key: string)
    requires Next(alg, s, op, s') && key != op.key
    ensures key in s.services <==> key in s'.services
    ensures key in s.services ==> s.services[key] == s'.services[key]
  {
    hide FirstFitIs, Placed;
  }

  /** So in every run the next operation on that service, be it a deletion or a mere
      reconcile, loses the table: from then on it is handed out and nobody has it. */
  lemma FirstTableIsLost(states: seq<State>, ops: seq<Op>, n: nat, i: nat, j: nat)
    requires IsRun(Maglev, states, ops) && n < i < j <= |ops| && NonePlacedBefore(states, ops, n)
    requires ops[n].Sync? && ops[n].backends > 0 && ops[n].backends * ops[n].ports <= MAX_BACKENDS
    requires ops[i].key == ops[n].key
    ensures Lost(states[j])
  {
    hide Next, Lost, NonePlacedBefore;
    FirstServiceHasFirstTable(states, ops, n);
    var k := NextOn(ops, n, i);
    KeepsFirstTable(Maglev, states, ops, n + 1, k, ops[n].key);
    assert GivesUpFirst(states[k], ops[k]);
    LostIffGivenUp(Maglev, states, ops, j);
  }

  /** The first operation after `n` that is on the same service. */
  ghost function NextOn(ops: seq<Op>, n: nat, i: nat): (k: nat)
    requires n < i < |ops| && ops[i].key == ops[n].key
    ensures n < k <= i && ops[k].key == ops[n].key && forall m :: n < m < k ==> ops[m].key != ops[n].key
    decreases i
  {
    if m :| n < m < i && ops[m].key == ops[n].key then NextOn(ops, n, m) else i
  }

  class Watcher {
    const allocator: SlotAllocator
    const maglevAllocator: SlotAllocator
    const defaultAlg: Algorithm
    var services: map<string, Service>

    ghost predicate Valid()
      reads this, allocator, maglevAllocator
    {
      && allocator != maglevAllocator && allocator.Valid() && maglevAllocator.Valid()
      && allocator.max == MAX_BACKENDS && maglevAllocator.max == MAX_MAGLEV
      && BackendsExact(services, allocator.owned)
      && TablesAlmostExact(services, maglevAllocator.owned)
    }

    ghost function View(): State
      reads this, allocator, maglevAllocator
    {
      State(services, allocator.owned, maglevAllocator.owned)
    }

    constructor (defaultAlg: Algorithm)
      ensures Valid() && View() == EMPTY && fresh(allocator) && fresh(maglevAllocator)
      ensures this.defaultAlg == defaultAlg && allocator.max == 65536 && maglevAllocator.max == 1048576
    {
      this.defaultAlg := defaultAlg;
      allocator := new SlotAllocator(MAX_BACKENDS);
      maglevAllocator := new SlotAllocator(MAX_MAGLEV);
      services := map[];
    }

    /** `deleteServiceLocked`: the service and its blocks go, except a Maglev table at offset
        0, which stays handed out for ever. */
    method Release(key: string)
      requires Valid()
      modifies this, allocator, maglevAllocator
      ensures Valid()
      ensures Next(defaultAlg, old(View()), Drop(key), View())
    {
      hide Slots.Partition, Canonical, BackendsExact, TablesAlmostExact, Covered, Range.Has;
      if key !in services {
        assert services - {key} == services;
        return;
      }
      ReleaseExact(services, key, allocator.owned, maglevAllocator.owned);
      HeldIsOwned(services, key, allocator.owned, maglevAllocator.owned);
      var state := services[key];
      if state.backendCount > 0 {
        allocator.Free(Range(state.backendOffset, state.backendCount));
      }
      if state.algorithm.Maglev? && state.maglevOffset > 0 {
        maglevAllocator.Free(Range(state.maglevOffset, MAGLEV_TABLE_SIZE));
      }
      services := services - {key};
      assert allocator.owned == old(allocator.owned) - BlockOf(old(services), key);
      assert maglevAllocator.owned == old(maglevAllocator.owned) - TableFreed(old(services), key);
    }

    /** `reconcileService` of a service with cluster addresses: the old resources are given
        up, then new ones taken; a service without backends, or for which no block is left,
        is dropped, and one for which no table is left falls back to random. */
    method Reconcile(key: string, backends: nat, ports: nat)
      requires Valid()
      modifies this, allocator, maglevAllocator
      ensures Valid()
      ensures Next(defaultAlg, old(View()), Sync(key, backends, ports), View())
      ensures services - {key} == old(services) - {key}
      ensures key in services ==> backends > 0 && services[key].backendCount == backends * ports
      ensures key in services && defaultAlg.Maglev? && !services[key].algorithm.Maglev? ==>
                forall o: nat :: !FreeRun(maglevAllocator.free, o, MAGLEV_TABLE_SIZE)
      ensures key !in services && backends * ports > 0 ==>
                forall o: nat :: !FreeRun(allocator.free, o, backends * ports)
    {
      hide Slots.Partition, Canonical, FreeRun, Covered, Range.Has, BackendsExact, TablesAlmostExact, FirstFitIs;
      Release(key);
      ghost var rest, blocks, tables := services, allocator.owned, maglevAllocator.owned;
      assert rest - {key} == rest;
      if backends == 0 {
        return;
      }
      var total := backends * ports;
      var offset := allocator.Alloc(total);
      if offset.None? {
        return;
      }
      var alg, maglevOff := defaultAlg, 0;
      if alg.Maglev? {
        var table := maglevAllocator.Alloc(MAGLEV_TABLE_SIZE);
        if table.None? {
          alg := Random;
        } else {
          maglevOff := table.value;
        }
      }
      var svc := Service(offset.value, total, alg, maglevOff);
      assert Placed(defaultAlg, State(rest, blocks, tables), backends * ports, svc);
      PlacedIsNew(defaultAlg, State(rest, blocks, tables), backends * ports, svc);
      FitIsDefinite(blocks, MAX_BACKENDS, backends * ports, offset.value);
      TakeExact(rest, key, svc, blocks, tables);
      services := services[key := svc];
      assert services - {key} == rest;
    }
  }
}
