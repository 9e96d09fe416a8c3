/**
 The identity allocator (internal/identity/allocator.go): label sets to 64-bit ids, with
 linear probing from a hash and reference counts.  The hash is a parameter, so every
 statement holds for FNV-1a and for the worst hash alike.
 */
module Identity {
  import opened Labels
  import opened Separators
  import Probing

  const WIDTH: nat := 0x1_0000_0000_0000_0000

  type Id = x: nat | x < WIDTH

  type Hash = string -> Id

  /** The id `k` places after `h`, with the wrap-around of a 64-bit counter. */
  function Slot(h: Id, k: nat): Id
  {
    Probing.Slot(h, 1, k, WIDTH)
  }

  /** `id++` on a 64-bit counter. */
  function Increment(id: Id): Id
  {
    if id == WIDTH - 1 then 0 else id + 1
  }

  // ------------------------------------------------------------------ probing

  /** `id` is the first free id at or cyclically after `h`, with `k` taken ids before it. */
  ghost predicate FirstFreeAt(h: Id, live: set<Id>, id: Id, k: nat)
  {
    && k <= |live| < WIDTH
    && id == Slot(h, k) && id !in live
    && forall j: nat :: j < k ==> Slot(h, j) in live
  }

  ghost predicate IsFirstFree(h: Id, live: set<Id>, id: Id)
  {
    exists k: nat :: FirstFreeAt(h, live, id, k)
  }

  /** Ids are 64-bit numbers and wrap around. */
  lemma IncrementWraps(id: Id)
    ensures Increment(id) == if id == 0xFFFF_FFFF_FFFF_FFFF then 0 else id + 1
  {}

  lemma SlotStep(h: Id, k: nat)
    ensures Slot(h, k + 1) == Increment(Slot(h, k))
    ensures Slot(h, 0) == h
  {}

  lemma OneIsCoprime()
    ensures Probing.Coprime(1, WIDTH)
  {}

  /** A run of taken ids is no longer than the number of live ids. */
  lemma ProbeBound(h: Id, live: set<Id>, k: nat)
    requires k <= WIDTH
    requires forall j: nat :: j < k ==> Slot(h, j) in live
    ensures k <= |live|
  {
    hide Probing.Slot, Probing.Coprime, Probing.Visited;
    OneIsCoprime();
    var visited := Probing.Visited(h, 1, k, WIDTH);
    forall x | x in visited
      ensures x in live
    {
      var j: nat :| j < k && x == Probing.Slot(h, 1, j, WIDTH);
      assert Slot(h, j) in live;
    }
    SubsetSize(visited, live);
  }

  lemma SubsetSize<T>(s: set<T>, t: set<T>)
    requires s <= t
    ensures |s| <= |t|
  {
    assert t == s + (t - s);
  }

  lemma FirstFreeUnique(h: Id, live: set<Id>, id: Id, id': Id)
    requires IsFirstFree(h, live, id) && IsFirstFree(h, live, id')
    ensures id == id'
  {
    var k: nat :| FirstFreeAt(h, live, id, k);
    var k': nat :| FirstFreeAt(h, live, id', k');
  }

  /** With an id to spare the probe ends, after at most `|live|` taken ids. */
  lemma FirstFreeExists(h: Id, live: set<Id>, k: nat)
    requires |live| < WIDTH && k <= |live|
    requires forall j: nat :: j < k ==> Slot(h, j) in live
    ensures exists id :: IsFirstFree(h, live, id)
    decreases |live| - k
  {
    if Slot(h, k) in live {
      ProbeBound(h, live, k + 1);
      FirstFreeExists(h, live, k + 1);
    } else {
      assert FirstFreeAt(h, live, Slot(h, k), k);
      assert IsFirstFree(h, live, Slot(h, k));
    }
  }

  ghost function FirstFree(h: Id, live: set<Id>): (id: Id)
    requires |live| < WIDTH
    ensures IsFirstFree(h, live, id) && id !in live
    ensures h !in live ==> id == h
  {
    FirstFreeExists(h, live, 0);
    var id :| IsFirstFree(h, live, id);
    assert h !in live ==> id == h by {
      var k: nat :| FirstFreeAt(h, live, id, k);
      assert k > 0 ==> Slot(h, 0) in live;
    }
    id
  }

  // ------------------------------------------------------------------ the three maps

  datatype State = State(idToLabels: map<Id, LabelMap>, refCount: map<Id, int>, labelsToID: map<string, Id>)

  const EMPTY := State(map[], map[], map[])

  /** The maps are mutually inverse through the canonical string, and exactly the live ids
      carry a positive count. */
  ghost predicate Inverse(s: State)
  {
    && (forall c :: c in s.labelsToID ==>
          s.labelsToID[c] in s.idToLabels && Canonical(s.idToLabels[s.labelsToID[c]]) == c)
    && (forall id :: id in s.idToLabels ==>
          Canonical(s.idToLabels[id]) in s.labelsToID && s.labelsToID[Canonical(s.idToLabels[id])] == id)
    && s.refCount.Keys == s.idToLabels.Keys
    && (forall id :: id in s.refCount ==> s.refCount[id] >= 1)
  }

  datatype Op = Allocate(labels: LabelMap) | Remove(id: Id)

  /** The id `AllocateIdentity` returns. */
  ghost function IdFor(hash: Hash, s: State, m: LabelMap): Id
    requires |s.idToLabels.Keys| < WIDTH
  {
    var c := Canonical(m);
    if c in s.labelsToID then s.labelsToID[c] else FirstFree(hash(c), s.idToLabels.Keys)
  }

  ghost function Allocated(hash: Hash, s: State, m: LabelMap): State
    requires |s.idToLabels.Keys| < WIDTH && Inverse(s)
  {
    var c, id := Canonical(m), IdFor(hash, s, m);
    if c in s.labelsToID then s.(refCount := s.refCount[id := s.refCount[id] + 1])
    else State(s.idToLabels[id := m], s.refCount[id := 1], s.labelsToID[c := id])
  }

  ghost function Removed(s: State, id: Id): State
    requires Inverse(s)
  {
    if id !in s.refCount then s
    else if s.refCount[id] <= 1 then
      State(s.idToLabels - {id}, s.refCount - {id}, s.labelsToID - {Canonical(s.idToLabels[id])})
    else s.(refCount := s.refCount[id := s.refCount[id] - 1])
  }

  lemma AllocatedInverse(hash: Hash, s: State, m: LabelMap)
    requires |s.idToLabels.Keys| < WIDTH && Inverse(s)
    ensures Inverse(Allocated(hash, s, m))
    ensures IdFor(hash, s, m) in Allocated(hash, s, m).idToLabels
  {
    hide Canonical;
  }

  lemma RemovedInverse(s: State, id: Id)
    requires Inverse(s)
    ensures Inverse(Removed(s, id))
  {
    hide Canonical;
  }

  /** A Go map lookup: a missing count reads as zero. */
  function CountOf(refCount: map<Id, int>, id: Id): int
  {
    if id in refCount then refCount[id] else 0
  }

  /** Allocating adds one reference to the returned id and to no other. */
  lemma CountAllocated(hash: Hash, s: State, m: LabelMap, id: Id)
    requires |s.idToLabels.Keys| < WIDTH && Inverse(s)
    ensures CountOf(Allocated(hash, s, m).refCount, id) ==
            CountOf(s.refCount, id) + if id == IdFor(hash, s, m) then 1 else 0
  {
    hide Canonical;
  }

  /** Removing a live id drops one of its references and no other. */
  lemma CountRemoved(s: State, gone: Id, id: Id)
    requires Inverse(s) && gone in s.refCount
    ensures CountOf(Removed(s, gone).refCount, id) == CountOf(s.refCount, id) - if id == gone then 1 else 0
  {
    hide Canonical;
  }

  /** Removing undoes allocating, whether the labels were live or new. */
  lemma RemoveUndoesAllocate(hash: Hash, s: State, m: LabelMap)
    requires |s.idToLabels.Keys| < WIDTH && Inverse(s) && Inverse(Allocated(hash, s, m))
    ensures Removed(Allocated(hash, s, m), IdFor(hash, s, m)) == s
  {
    hide Canonical, FirstFree, IsFirstFree, Inverse, Removed;
    var id, s' := IdFor(hash, s, m), Allocated(hash, s, m);
    if Canonical(m) in s.labelsToID {
      LiveCount(s, Canonical(m));
      DropReference(s, s', id);
    } else {
      SameKeys(s);
      DropLast(s, s', id, m);
    }
  }

  lemma DropReference(s: State, s': State, id: Id)
    requires Inverse(s') && id in s.refCount && s.refCount[id] >= 1
    requires s' == s.(refCount := s.refCount[id := s.refCount[id] + 1])
    ensures Removed(s', id) == s
  {
    hide Inverse, Canonical;
    assert s'.refCount[id := s.refCount[id]] == s.refCount;
  }

  lemma DropLast(s: State, s': State, id: Id, m: LabelMap)
    requires Inverse(s') && id !in s.idToLabels && id !in s.refCount && Canonical(m) !in s.labelsToID
    requires s' == State(s.idToLabels[id := m], s.refCount[id := 1], s.labelsToID[Canonical(m) := id])
    ensures Removed(s', id) == s
  {
    hide Inverse, Canonical;
    assert s'.idToLabels - {id} == s.idToLabels;
    assert s'.refCount - {id} == s.refCount;
    assert s'.labelsToID - {Canonical(m)} == s.labelsToID;
  }

  lemma LiveCount(s: State, c: string)
    requires Inverse(s) && c in s.labelsToID
    ensures s.labelsToID[c] in s.refCount && s.refCount[s.labelsToID[c]] >= 1
  {
    hide Canonical;
  }

  lemma SameKeys(s: State)
    requires Inverse(s)
    ensures s.refCount.Keys == s.idToLabels.Keys
  {}

  class Allocator {
    const hash: Hash
    var idToLabels: map<Id, LabelMap>
    var refCount: map<Id, int>
    var labelsToID: map<string, Id>

    ghost function View(): State
      reads this
    {
      State(idToLabels, refCount, labelsToID)
    }

    ghost predicate Valid()
      reads this
    {
      Inverse(View())
    }

    constructor (hash: Hash)
      ensures Valid() && View() == EMPTY && this.hash == hash
    {
      this.hash := hash;
      idToLabels, refCount, labelsToID := map[], map[], map[];
    }

    /** One id per canonical string: the one already live, or the first free id cyclically at
        or after the hash, found after at most as many collisions as there are live ids. */
    method AllocateIdentity(m: LabelMap) returns (id: Id)
      requires Valid() && |idToLabels.Keys| < WIDTH
      modifies this
      ensures Valid()
      ensures id == IdFor(hash, old(View()), m)
      ensures View() == Allocated(hash, old(View()), m)
    {
      hide Canonical, FirstFree, IsFirstFree;
      var canonical := Canonical(m);
      AllocatedInverse(hash, View(), m);
      if canonical in labelsToID {
        var existing := labelsToID[canonical];
        refCount := refCount[existing := refCount[existing] + 1];
        return existing;
      }
      id := Probe(canonical);
      FirstFreeUnique(hash(canonical), idToLabels.Keys, id, FirstFree(hash(canonical), idToLabels.Keys));
      if id !in idToLabels {
        idToLabels := idToLabels[id := m];
        labelsToID := labelsToID[canonical := id];
      }
      refCount := refCount[id := CountOf(refCount, id) + 1];
    }

    /** The probing loop: it stops at the first free id, after at most `|idToLabels|`
        collisions, across the wrap-around too. */
    method Probe(canonical: string) returns (id: Id)
      requires Valid() && |idToLabels.Keys| < WIDTH
      requires canonical !in labelsToID
      ensures IsFirstFree(hash(canonical), idToLabels.Keys, id)
    {
      hide Canonical, Slot;
      ghost var h, live := hash(canonical), idToLabels.Keys;
      id := hash(canonical);
      ghost var k: nat := 0;
      SlotStep(h, 0);
      while id in idToLabels && Canonical(idToLabels[id]) != canonical
        invariant k <= |live| && id == Slot(h, k)
        invariant forall j: nat :: j < k ==> Slot(h, j) in live
        decreases |live| - k
      {
        SlotStep(h, k);
        ProbeBound(h, live, k + 1);
        id := Increment(id);
        k := k + 1;
      }
      assert FirstFreeAt(h, live, id, k);
    }

    method GetIdentity(m: LabelMap) returns (found: bool, id: Id)
      requires Valid()
      ensures found <==> exists i :: i in idToLabels && Canonical(idToLabels[i]) == Canonical(m)
      ensures found ==> id in idToLabels && Canonical(idToLabels[id]) == Canonical(m)
    {
      hide Canonical;
      var canonical := Canonical(m);
      found := canonical in labelsToID;
      id := if found then labelsToID[canonical] else 0;
    }

    /** Drops one reference; the id and its labels go exactly with the last one. */
    method RemoveIdentity(id: Id)
      requires Valid()
      modifies this
      ensures Valid()
      ensures View() == Removed(old(View()), id)
      ensures id in idToLabels <==> id in old(idToLabels) && old(refCount)[id] > 1
    {
      hide Canonical;
      RemovedInverse(View(), id);
      if id in refCount {
        var count := refCount[id];
        if count <= 1 {
          if id in idToLabels {
            labelsToID := labelsToID - {Canonical(idToLabels[id])};
          }
          idToLabels := idToLabels - {id};
          refCount := refCount - {id};
        } else {
          refCount := refCount[id := count - 1];
        }
      }
    }
  }

  // ------------------------------------------------------------------ runs

  /** One operation.  A full id space is where the probe would not end; it changes nothing. */
  ghost function Step(hash: Hash, s: State, op: Op): (s': State)
    requires Inverse(s)
    ensures Inverse(s')
  {
    match op
    case Allocate(m) =>
      if |s.idToLabels.Keys| < WIDTH then
        AllocatedInverse(hash, s, m);
        Allocated(hash, s, m)
      else s
    case Remove(id) =>
      RemovedInverse(s, id);
      Removed(s, id)
  }

  /** Every run keeps the three maps mutually inverse (the postcondition). */
  ghost function Run(hash: Hash, ops: seq<Op>): (s: State)
    ensures Inverse(s)
  {
    if ops == [] then EMPTY
    else Step(hash, Run(hash, ops[..|ops| - 1]), ops[|ops| - 1])
  }

  /** In every reachable state, different canonical strings have different ids and every
      live id is reached from its own labels. */
  lemma IdsSeparateLabels(hash: Hash, ops: seq<Op>, c: string, c': string)
    requires c in Run(hash, ops).labelsToID && c' in Run(hash, ops).labelsToID
    ensures c == c' <==> Run(hash, ops).labelsToID[c] == Run(hash, ops).labelsToID[c']
  {}

  /** A canonical string keeps its id for as long as it stays live, whatever else is
      allocated or deleted, including ids earlier in its probe chain. */
  lemma {:induction false} IdIsStable(hash: Hash, ops: seq<Op>, from: nat, to: nat, c: string)
    requires from <= to <= |ops|
    requires forall k :: from <= k <= to ==> c in Run(hash, ops[..k]).labelsToID
    ensures Run(hash, ops[..from]).labelsToID[c] == Run(hash, ops[..to]).labelsToID[c]
  {
    hide Step, Inverse;
    if from < to {
      IdIsStable(hash, ops, from, to - 1, c);
      assert ops[..to][..to - 1] == ops[..to - 1];
      assert Run(hash, ops[..to]) == Step(hash, Run(hash, ops[..to - 1]), ops[to - 1]);
      StepKeepsId(hash, Run(hash, ops[..to - 1]), ops[to - 1], c);
    }
  }

  lemma StepKeepsId(hash: Hash, s: State, op: Op, c: string)
    requires Inverse(s) && c in s.labelsToID && c in Step(hash, s, op).labelsToID
    ensures Step(hash, s, op).labelsToID[c] == s.labelsToID[c]
  {
    hide Canonical, FirstFree;
  }

  // ------------------------------------------------------------------ determinism

  /** The allocations of a run use label sets from `domain` only. */
  ghost predicate Within(ops: seq<Op>, domain: set<LabelMap>)
  {
    forall i :: 0 <= i < |ops| && ops[i].Allocate? ==> ops[i].labels in domain
  }

  ghost predicate InjectiveOn(hash: Hash, domain: set<LabelMap>)
  {
    forall m, m' :: m in domain && m' in domain && hash(Canonical(m)) == hash(Canonical(m')) ==>
      Canonical(m) == Canonical(m')
  }

  /** Every live id is the hash of its labels, as `HashLabels` predicts. */
  ghost predicate IdsAreHashes(hash: Hash, s: State)
  {
    forall c :: c in s.labelsToID ==> s.labelsToID[c] == hash(c)
  }

  ghost predicate LabelsFrom(s: State, domain: set<LabelMap>)
  {
    forall id :: id in s.idToLabels ==> s.idToLabels[id] in domain
  }

  lemma {:induction false} InjectiveRun(hash: Hash, domain: set<LabelMap>, ops: seq<Op>)
    requires InjectiveOn(hash, domain) && Within(ops, domain)
    ensures IdsAreHashes(hash, Run(hash, ops)) && LabelsFrom(Run(hash, ops), domain)
  {
    hide Canonical;
    if ops != [] {
      var last := |ops| - 1;
      InjectiveRun(hash, domain, ops[..last]);
      InjectiveStep(hash, domain, Run(hash, ops[..last]), ops[last]);
    }
  }

  lemma InjectiveStep(hash: Hash, domain: set<LabelMap>, s: State, op: Op)
    requires InjectiveOn(hash, domain) && Inverse(s) && IdsAreHashes(hash, s) && LabelsFrom(s, domain)
    requires op.Allocate? ==> op.labels in domain
    ensures IdsAreHashes(hash, Step(hash, s, op)) && LabelsFrom(Step(hash, s, op), domain)
  {
    hide Canonical, IsFirstFree;
    if op.Allocate? && |s.idToLabels.Keys| < WIDTH {
      var c := Canonical(op.labels);
      assert hash(c) in s.idToLabels ==>
          var m := s.idToLabels[hash(c)]; hash(Canonical(m)) == hash(c) && Canonical(m) == c;
    }
  }

  /** The ids of every run over a family of label sets are their hashes exactly when the
      hash separates the family; otherwise two allocations already break the claim that the
      same labels always get the same id. */
  lemma DeterministicIffInjective(hash: Hash, domain: set<LabelMap>)
    ensures InjectiveOn(hash, domain) <==>
            forall ops :: Within(ops, domain) ==> IdsAreHashes(hash, Run(hash, ops))
  {
    hide Canonical, Run;
    if InjectiveOn(hash, domain) {
      forall ops | Within(ops, domain)
        ensures IdsAreHashes(hash, Run(hash, ops))
      {
        InjectiveRun(hash, domain, ops);
      }
    } else {
      var m, m' :| m in domain && m' in domain && hash(Canonical(m)) == hash(Canonical(m')) &&
          Canonical(m) != Canonical(m');
      TwoAllocations(hash, m, m');
      assert !IdsAreHashes(hash, Run(hash, [Allocate(m), Allocate(m')]));
      assert Within([Allocate(m), Allocate(m')], domain);
    }
  }

  lemma RunSnoc(hash: Hash, ops: seq<Op>, op: Op)
    ensures Run(hash, ops + [op]) == Step(hash, Run(hash, ops), op)
  {
    assert (ops + [op])[..|ops|] == ops;
  }

  /** Allocating a label set that is not live. */
  lemma AllocateNew(hash: Hash, s: State, m: LabelMap, id: Id)
    requires Inverse(s) && Canonical(m) !in s.labelsToID
    requires IsFirstFree(hash(Canonical(m)), s.idToLabels.Keys, id)
    ensures Step(hash, s, Allocate(m)) ==
            State(s.idToLabels[id := m], s.refCount[id := 1], s.labelsToID[Canonical(m) := id])
  {
    hide Canonical, Inverse;
    assert |s.idToLabels.Keys| < WIDTH by {
      var k: nat :| FirstFreeAt(hash(Canonical(m)), s.idToLabels.Keys, id, k);
    }
    FirstFreeUnique(hash(Canonical(m)), s.idToLabels.Keys, id, FirstFree(hash(Canonical(m)), s.idToLabels.Keys));
  }

  lemma RunEmpty(hash: Hash)
    ensures Run(hash, []) == EMPTY
  {}

  ghost function Single(m: LabelMap, id: Id): State
  {
    State(map[id := m], map[id := 1], map[Canonical(m) := id])
  }

  lemma OneAllocation(hash: Hash, m: LabelMap)
    ensures Run(hash, [Allocate(m)]) == Single(m, hash(Canonical(m)))
  {
    hide Canonical, Step, IsFirstFree, Inverse, Run;
    var h := hash(Canonical(m));
    AloneFirst(h);
    RunEmpty(hash);
    assert EMPTY.idToLabels.Keys == {};
    AllocateNew(hash, EMPTY, m, h);
    RunSnoc(hash, [], Allocate(m));
    assert [] + [Allocate(m)] == [Allocate(m)];
  }

  /** Two colliding label sets: the second is pushed to the next id. */
  lemma TwoAllocations(hash: Hash, m: LabelMap, m': LabelMap)
    requires hash(Canonical(m)) == hash(Canonical(m')) && Canonical(m) != Canonical(m')
    ensures var c, s := Canonical(m'), Run(hash, [Allocate(m), Allocate(m')]);
            c in s.labelsToID && s.labelsToID[c] == Increment(hash(c))
  {
    hide Canonical, Step, IsFirstFree, Inverse, Run;
    var h := hash(Canonical(m));
    OneAllocation(hash, m);
    var s1 := Run(hash, [Allocate(m)]);
    assert s1.idToLabels.Keys == {h};
    SecondNext(h);
    AllocateNew(hash, s1, m', Increment(h));
    RunSnoc(hash, [Allocate(m)], Allocate(m'));
    assert [Allocate(m)] + [Allocate(m')] == [Allocate(m), Allocate(m')];
  }

  lemma AloneFirst(h: Id)
    ensures IsFirstFree(h, {}, h)
  {
    assert FirstFreeAt(h, {}, h, 0);
  }

  lemma SecondNext(h: Id)
    ensures IsFirstFree(h, {h}, Increment(h))
  {
    SlotStep(h, 0);
    assert FirstFreeAt(h, {h}, Increment(h), 1);
  }

  /** After a collision the id depends on what else is live: the same labels get another
      id in a run that allocates them alone. */
  lemma SameLabelsTwoIds(hash: Hash, m: LabelMap, m': LabelMap)
    requires hash(Canonical(m)) == hash(Canonical(m')) && Canonical(m) != Canonical(m')
    ensures var c, alone, after := Canonical(m'), Run(hash, [Allocate(m')]), Run(hash, [Allocate(m), Allocate(m')]);
            && c in alone.labelsToID && c in after.labelsToID
            && after.labelsToID[c] == Increment(alone.labelsToID[c])
  {
    hide Canonical, Run;
    TwoAllocations(hash, m, m');
    OneAllocation(hash, m');
  }

  // ------------------------------------------------------------------ label sets and ids

  ghost predicate Live(hash: Hash, ops: seq<Op>, m: LabelMap)
  {
    Canonical(m) in Run(hash, ops).labelsToID
  }

  /** Over every run, live label sets written in these characters share an id only if they
      are equal. */
  ghost predicate SeparatesLabelSets(hash: Hash, keyChars: set<char>, valueChars: set<char>)
  {
    forall ops, m, m' ::
      && Live(hash, ops, m) && Live(hash, ops, m')
      && LabelsOver(m, keyChars, valueChars) && LabelsOver(m', keyChars, valueChars)
      && Run(hash, ops).labelsToID[Canonical(m)] == Run(hash, ops).labelsToID[Canonical(m')] ==>
        m == m'
  }

  /** Ids tell label sets apart, whatever the hash, if and only if the characters are
      separable. */
  lemma IdsSeparateLabelSetsIff(hash: Hash, keyChars: set<char>, valueChars: set<char>)
    ensures SeparatesLabelSets(hash, keyChars, valueChars) <==> Separable(keyChars, valueChars)
  {
    hide Run, Canonical, LabelsOver, Separable;
    if Separable(keyChars, valueChars) {
      forall ops, m, m' |
        && Live(hash, ops, m) && Live(hash, ops, m')
        && LabelsOver(m, keyChars, valueChars) && LabelsOver(m', keyChars, valueChars)
        && Run(hash, ops).labelsToID[Canonical(m)] == Run(hash, ops).labelsToID[Canonical(m')]
        ensures m == m'
      {
        IdsSeparateLabels(hash, ops, Canonical(m), Canonical(m'));
        SeparableIdentifies(keyChars, valueChars, m, m');
      }
    } else {
      var m, m' := Collision(keyChars, valueChars);
      OneAllocation(hash, m);
      assert Live(hash, [Allocate(m)], m) && Live(hash, [Allocate(m)], m');
    }
  }
}
