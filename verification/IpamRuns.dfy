/**
 Runs of a persistent address allocator (internal/ipam/allocator.go with a state
 directory), one file operation or bitmap update at a time, so that a crash can fall
 between any two of them.  A crash loses the bitmap; the restart reloads it from the
 directory.  Calls hold the allocator's mutex, so at most one is in progress.
 */
module IpamRuns {
  import opened Prelude
  import opened Bitmaps
  import opened Ipam

  /** Where the call that holds the mutex has got to. */
  datatype Pc =
    | Idle
    | Saving(idx: nat)       // bit set, file not yet written
    | RollingBack(idx: nat)  // write failed, bit still set
    | Removing(idx: nat)     // bit cleared, file not yet removed

  datatype Node = Node(bits: set<nat>, used: int, files: set<Address>, pc: Pc)

  datatype Event =
    | ClaimNext                        // Allocate: FindFree, Set
    | ClaimSpecific(address: Address)  // AllocateSpecific: checks, Set
    | FinishSave(outcome: Write)       // saveIP; a success returns to the caller
    | Rollback                         // Clear after a failed write
    | ReleaseCall(address: Address)    // Release: checks, Clear
    | FinishRemove(removed: bool)      // removeIP
    | CrashAndRestart                  // NewAllocatorWithStateDir on the same directory

  /** The least free index of the pool, or -1. */
  ghost function LeastFree(c: Config, bits: set<nat>): (r: int)
    ensures r >= 0 ==> IsLeastFree(c, bits, r)
    ensures r < 0 <==> Below(c.size) <= bits
  {
    if exists i: nat :: IsLeastFree(c, bits, i) then
      var i: nat :| IsLeastFree(c, bits, i); i
    else
      NoLeastNoFree(c, bits, c.size); -1
  }

  lemma NoLeastNoFree(c: Config, bits: set<nat>, n: nat)
    requires n <= c.size && forall i: nat :: !IsLeastFree(c, bits, i)
    ensures Below(n) <= bits
  {
    if n > 0 {
      NoLeastNoFree(c, bits, n - 1);
      assert !IsLeastFree(c, bits, n - 1);
    }
  }

  /** The restarted allocator: the reserved indices and those with a file. */
  ghost function Reload(c: Config, files: set<Address>): Node
    requires c.Valid()
  {
    var bits := c.Reserved() + c.Indices(files);
    Node(bits, |bits|, files, Idle)
  }

  /** One step.  An event that does not fit the program counter changes nothing. */
  ghost function Next(c: Config, n: Node, e: Event): Node
    requires c.Valid()
  {
    match e
    case ClaimNext =>
      var i := LeastFree(c, n.bits);
      if n.pc.Idle? && i >= 0 then n.(bits := n.bits + {i}, used := n.used + 1, pc := Saving(i)) else n
    case ClaimSpecific(a) =>
      if n.pc.Idle? && c.Contains(a) && 0 <= c.IndexOf(a) < c.size && c.IndexOf(a) !in n.bits then
        n.(bits := n.bits + {c.IndexOf(a)}, used := n.used + 1, pc := Saving(c.IndexOf(a)))
      else n
    case FinishSave(w) =>
      if n.pc.Saving? then
        n.(files := if w.FailedClean? then n.files else n.files + {c.AddressAt(n.pc.idx)},
           pc := if w.Written? then Idle else RollingBack(n.pc.idx))
      else n
    case Rollback =>
      if n.pc.RollingBack? then n.(bits := n.bits - {n.pc.idx}, used := n.used - 1, pc := Idle) else n
    case ReleaseCall(a) =>
      if n.pc.Idle? && Releasable(c, n, a) then
        n.(bits := n.bits - {c.IndexOf(a)}, used := n.used - 1, pc := Removing(c.IndexOf(a)))
      else n
    case FinishRemove(removed) =>
      if n.pc.Removing? then
        n.(files := if removed then n.files - {c.AddressAt(n.pc.idx)} else n.files, pc := Idle)
      else n
    case CrashAndRestart =>
      Reload(c, n.files)
  }

  ghost predicate Releasable(c: Config, n: Node, a: Address)
    requires c.Valid()
  {
    c.Contains(a) && 0 <= c.IndexOf(a) < c.size && c.IndexOf(a) in n.bits - c.Reserved()
  }

  /** The index handed to a caller by event `e`, if any. */
  ghost predicate Grants(n: Node, e: Event, idx: nat)
  {
    e == FinishSave(Written) && n.pc == Saving(idx)
  }

  ghost function After(c: Config, n: Node, events: seq<Event>): Node
    requires c.Valid()
  {
    if events == [] then n
    else Next(c, After(c, n, events[..|events| - 1]), events[|events| - 1])
  }

  /** The node before event `k` of a run. */
  ghost function At(c: Config, n: Node, events: seq<Event>, k: nat): Node
    requires c.Valid() && k <= |events|
  {
    After(c, n, events[..k])
  }

  /** Indices returned to callers and not released since. */
  ghost function Held(c: Config, n: Node, events: seq<Event>): set<nat>
    requires c.Valid()
  {
    if events == [] then {}
    else
      var last := |events| - 1;
      var before, held := After(c, n, events[..last]), Held(c, n, events[..last]);
      if events[last] == FinishSave(Written) && before.pc.Saving? then held + {before.pc.idx}
      else if events[last].ReleaseCall? && before.pc.Idle? && Releasable(c, before, events[last].address) then
        held - {c.IndexOf(events[last].address)}
      else held
  }

  // ---------------------------------------------------------------- the run invariant

  ghost predicate Consistent(c: Config, n: Node)
    requires c.Valid()
  {
    && c.Reserved() <= n.bits <= Below(c.size)
    && n.used == |n.bits|
    && (n.pc.Saving? || n.pc.RollingBack? ==> n.pc.idx in n.bits - c.Reserved())
    && (n.pc.Removing? ==> n.pc.idx in Below(c.size) - n.bits)
  }

  /** Everything held is recorded in the bitmap and on disk, and is not the index in
      progress. */
  ghost predicate Durable(c: Config, n: Node, held: set<nat>)
    requires c.Valid()
  {
    && held <= n.bits - c.Reserved()
    && held <= c.Indices(n.files)
    && (!n.pc.Idle? ==> n.pc.idx !in held)
  }

  lemma IndexOfAddress(c: Config, i: nat, files: set<Address>)
    requires i < c.size
    ensures c.IndexOf(c.AddressAt(i)) == i
    ensures c.Indices(files + {c.AddressAt(i)}) == c.Indices(files) + {i}
    ensures c.Indices(files - {c.AddressAt(i)}) == c.Indices(files) - {i}
  {
    forall j | j in Below(c.size)
      ensures c.AddressAt(j) == c.AddressAt(i) <==> j == i
    {}
  }

  lemma StepConsistent(c: Config, n: Node, e: Event)
    requires c.Valid() && Consistent(c, n)
    ensures Consistent(c, Next(c, n, e))
  {
    hide Below, Aligned, LeastFree, Config.Contains, Config.Indices;
    match e
    case ClaimNext =>
      if n.pc.Idle? && LeastFree(c, n.bits) >= 0 {
        ClaimConsistent(c, n, LeastFree(c, n.bits));
      }
    case ClaimSpecific(a) =>
      if n.pc.Idle? && 0 <= c.IndexOf(a) < c.size && c.IndexOf(a) !in n.bits {
        ClaimConsistent(c, n, c.IndexOf(a));
      }
    case Rollback =>
      if n.pc.RollingBack? {
        GiveUpConsistent(c, n, n.pc.idx);
      }
    case ReleaseCall(a) =>
      if n.pc.Idle? && Releasable(c, n, a) {
        GiveUpConsistent(c, n, c.IndexOf(a));
      }
    case CrashAndRestart => ReloadConsistent(c, n.files);
    case _ =>
  }

  lemma ClaimConsistent(c: Config, n: Node, i: nat)
    requires c.Valid() && Consistent(c, n) && i in Below(c.size) - n.bits
    ensures Consistent(c, n.(bits := n.bits + {i}, used := n.used + 1, pc := Saving(i)))
  {
    hide Below, Aligned;
    CountChange(n.bits, i);
  }

  lemma GiveUpConsistent(c: Config, n: Node, i: nat)
    requires c.Valid() && Consistent(c, n) && i in n.bits - c.Reserved()
    ensures Consistent(c, n.(bits := n.bits - {i}, used := n.used - 1, pc := Idle))
    ensures Consistent(c, n.(bits := n.bits - {i}, used := n.used - 1, pc := Removing(i)))
  {
    hide Below, Aligned;
    CountChange(n.bits, i);
  }

  lemma ReloadConsistent(c: Config, files: set<Address>)
    requires c.Valid()
    ensures Consistent(c, Reload(c, files))
  {
    ReservedCount(c);
  }

  /** The allocator's invariant over every run: the reserved indices stay set, the counter
      is the number of set bits, and every index held by a caller has its bit and its file,
      whatever writes and removes fail and wherever crashes fall. */
  lemma {:induction false} RunInvariant(c: Config, n: Node, events: seq<Event>)
    requires c.Valid() && Consistent(c, n) && n.pc.Idle?
    ensures Consistent(c, After(c, n, events))
    ensures Durable(c, After(c, n, events), Held(c, n, events))
  {
    if events != [] {
      var last := |events| - 1;
      RunInvariant(c, n, events[..last]);
      var before := After(c, n, events[..last]);
      StepConsistent(c, before, events[last]);
      StepDurable(c, before, events[last], Held(c, n, events[..last]), Held(c, n, events));
    }
  }

  lemma StepDurable(c: Config, n: Node, e: Event, held: set<nat>, held': set<nat>)
    requires c.Valid() && Consistent(c, n) && Durable(c, n, held)
    requires held' ==
             if e == FinishSave(Written) && n.pc.Saving? then held + {n.pc.idx}
             else if e.ReleaseCall? && n.pc.Idle? && Releasable(c, n, e.address) then held - {c.IndexOf(e.address)}
             else held
    ensures Durable(c, Next(c, n, e), held')
  {
    if !n.pc.Idle? {
      IndexOfAddress(c, n.pc.idx, n.files);
    }
  }

  // ---------------------------------------------------------------- main theorems

  /** Event `e` is a call that takes effect and gives index `idx` back. */
  ghost predicate Releases(c: Config, n: Node, e: Event, idx: nat)
    requires c.Valid()
  {
    e == ReleaseCall(c.AddressAt(idx)) && n.pc.Idle? && Releasable(c, n, c.AddressAt(idx))
  }

  /** Between two grants of the same index there is a call that releases it: no address is
      handed out twice while somebody holds it, across write failures, remove failures and
      crashes at any point. */
  lemma NoDoubleGrant(c: Config, files: set<Address>, events: seq<Event>, i: nat, j: nat, idx: nat)
    requires c.Valid() && i < j < |events|
    requires Grants(At(c, Reload(c, files), events, i), events[i], idx)
    requires Grants(At(c, Reload(c, files), events, j), events[j], idx)
    ensures exists k :: i < k < j && Releases(c, At(c, Reload(c, files), events, k), events[k], idx)
  {
    hide Next, Releases;
    var n := Reload(c, files);
    ReloadConsistent(c, files);
    assert events[..i + 1][..i] == events[..i];
    assert idx in Held(c, n, events[..i + 1]);
    if forall k :: i < k < j ==> !Releases(c, At(c, n, events, k), events[k], idx) {
      StaysHeld(c, n, events, i + 1, j, idx);
      RunInvariant(c, n, events[..j]);
      assert false;
    }
  }

  lemma {:induction false} StaysHeld(c: Config, n: Node, events: seq<Event>, from: nat, to: nat, idx: nat)
    requires c.Valid() && from <= to <= |events|
    requires idx in Held(c, n, events[..from])
    requires forall k :: from <= k < to ==> !Releases(c, At(c, n, events, k), events[k], idx)
    ensures idx in Held(c, n, events[..to])
  {
    hide Next;
    if from < to {
      StaysHeld(c, n, events, from, to - 1, idx);
      assert events[..to][..to - 1] == events[..to - 1];
      assert events[..to][to - 1] == events[to - 1];
      assert !Releases(c, At(c, n, events, to - 1), events[to - 1], idx);
      if events[to - 1].ReleaseCall? && c.Contains(events[to - 1].address) {
        ContainsIffIndexed(c, events[to - 1].address);
      }
    }
  }

  /** Over every run the reserved addresses stay allocated and are neither granted nor
      freed; the counter stays the number of set bits. */
  lemma ReservedForever(c: Config, files: set<Address>, events: seq<Event>, k: nat, idx: nat)
    requires c.Valid() && k < |events| && idx in c.Reserved()
    ensures idx in At(c, Reload(c, files), events, k).bits
    ensures !Grants(At(c, Reload(c, files), events, k), events[k], idx)
    ensures !Releasable(c, At(c, Reload(c, files), events, k), c.AddressAt(idx))
    ensures At(c, Reload(c, files), events, k).used == |At(c, Reload(c, files), events, k).bits|
  {
    hide Next, Aligned;
    ReservedCount(c);
    RunInvariant(c, Reload(c, files), events[..k]);
  }

  /** `Gateway()` answers index 1 for both families.  It is out of reach of callers exactly
      for IPv4: a fresh IPv6 pool hands it to its first caller. */
  lemma GatewaySafeIffIPv4(c: Config)
    requires c.Valid()
    ensures c.family.V4? <==>
            forall files, events: seq<Event>, k: nat | k < |events| ::
              !Grants(At(c, Reload(c, files), events, k), events[k], c.IndexOf(c.Gateway()))
  {
    if c.family.V4? {
      forall files, events: seq<Event>, k: nat | k < |events|
        ensures !Grants(At(c, Reload(c, files), events, k), events[k], c.IndexOf(c.Gateway()))
      {
        ReservedForever(c, files, events, k, 1);
      }
    } else {
      var events := [ClaimNext, FinishSave(Written)];
      FirstIPv6Grant(c);
      assert !(1 < |events| ==> !Grants(At(c, Reload(c, {}), events, 1), events[1], c.IndexOf(c.Gateway())));
    }
  }

  lemma FreshIPv6(c: Config)
    requires c.Valid() && c.family.V6?
    ensures Next(c, Reload(c, {}), ClaimNext).pc == Saving(1)
  {
    hide LeastFree, Aligned;
    var n := Reload(c, {});
    assert n.bits == {0};
    assert IsLeastFree(c, n.bits, 1);
    LeastFreeUnique(c, n.bits, 1);
  }

  lemma FirstIPv6Grant(c: Config)
    requires c.Valid() && c.family.V6?
    ensures Grants(At(c, Reload(c, {}), [ClaimNext, FinishSave(Written)], 1), FinishSave(Written), 1)
  {
    hide After, Next;
    var n := Reload(c, {});
    FreshIPv6(c);
    var events := [ClaimNext, FinishSave(Written)];
    AfterNothing(c, n);
    AfterSnoc(c, n, [], ClaimNext);
    assert events[..1] == [] + [ClaimNext];
  }

  // ------------------------------------------------- when a reload is exact

  /** The files that step `e` leaves behind for free indices, given those left before: a
      write that fails after creating its file, or a remove that fails.  A later successful
      save or remove of the same index, or a restart, settles them. */
  ghost function LeftBy(n: Node, e: Event, left: set<nat>): set<nat>
  {
    match e
    case FinishSave(w) =>
      if !n.pc.Saving? || w.FailedClean? then left
      else if w.Written? then left - {n.pc.idx}
      else left + {n.pc.idx}
    case FinishRemove(removed) =>
      if !n.pc.Removing? then left else if removed then left - {n.pc.idx} else left + {n.pc.idx}
    case CrashAndRestart => {}
    case _ => left
  }

  ghost function Leftover(c: Config, n: Node, events: seq<Event>): set<nat>
    requires c.Valid()
  {
    if events == [] then {}
    else
      var last := |events| - 1;
      LeftBy(After(c, n, events[..last]), events[last], Leftover(c, n, events[..last]))
  }

  /** The bitmap without the index being saved and with the one being removed. */
  ghost function Saved(n: Node): set<nat>
  {
    match n.pc
    case Idle => n.bits
    case Saving(i) => n.bits - {i}
    case RollingBack(i) => n.bits - {i}
    case Removing(i) => n.bits + {i}
  }

  /** The directory holds what is saved and, beyond it, exactly the files left behind. */
  ghost predicate Mirrors(c: Config, n: Node, left: set<nat>)
    requires c.Valid()
  {
    Saved(n) !! left && c.Reserved() + c.Indices(n.files) == Saved(n) + left
  }

  lemma StepMirrors(c: Config, n: Node, e: Event, left: set<nat>)
    requires c.Valid() && Consistent(c, n) && Mirrors(c, n, left)
    ensures Mirrors(c, Next(c, n, e), LeftBy(n, e, left))
  {
    hide Below, Aligned, LeastFree, Next, Saved, Config.Contains, Config.Indices, Config.AddressAt;
    match e
    case FinishSave(w) => SaveMirrors(c, n, w, left);
    case FinishRemove(removed) => RemoveMirrors(c, n, removed, left);
    case CrashAndRestart => RestartMirrors(c, n);
    case _ => NothingSaved(c, n, e);
  }

  lemma RestartMirrors(c: Config, n: Node)
    requires c.Valid()
    ensures Mirrors(c, Next(c, n, CrashAndRestart), {})
  {}

  /** Bitmap updates do not touch what is saved. */
  lemma NothingSaved(c: Config, n: Node, e: Event)
    requires c.Valid() && Consistent(c, n)
    requires !e.FinishSave? && !e.FinishRemove? && !e.CrashAndRestart?
    ensures Saved(Next(c, n, e)) == Saved(n) && Next(c, n, e).files == n.files
  {
    hide Below, Aligned, LeastFree, Config.Contains, Config.Indices, Config.AddressAt;
    var i := if e.ClaimNext? then LeastFree(c, n.bits) else if e.ClaimSpecific? then c.IndexOf(e.address) else -1;
    assert i >= 0 && i !in n.bits ==> n.bits + {i} - {i} == n.bits;
    if e.ReleaseCall? && Releasable(c, n, e.address) {
      assert n.bits - {c.IndexOf(e.address)} + {c.IndexOf(e.address)} == n.bits;
    }
  }

  lemma SaveMirrors(c: Config, n: Node, w: Write, left: set<nat>)
    requires c.Valid() && Consistent(c, n) && Mirrors(c, n, left)
    ensures Mirrors(c, Next(c, n, FinishSave(w)), LeftBy(n, FinishSave(w), left))
  {
    hide Below, Aligned, LeastFree, Config.Contains, Config.Indices;
    if n.pc.Saving? {
      IndexOfAddress(c, n.pc.idx, n.files);
    }
  }

  lemma RemoveMirrors(c: Config, n: Node, removed: bool, left: set<nat>)
    requires c.Valid() && Consistent(c, n) && Mirrors(c, n, left)
    ensures Mirrors(c, Next(c, n, FinishRemove(removed)), LeftBy(n, FinishRemove(removed), left))
  {
    hide Below, Aligned, LeastFree, Config.Contains, Config.Indices;
    if n.pc.Removing? {
      IndexOfAddress(c, n.pc.idx, n.files);
    }
  }

  /** Over every run, a restart between two calls keeps every allocation and brings back
      exactly the files left behind by failed writes and removes; it rebuilds the same
      bitmap and counter if and only if there are none. */
  lemma ReloadIsExact(c: Config, files: set<Address>, events: seq<Event>)
    requires c.Valid() && After(c, Reload(c, files), events).pc.Idle?
    ensures var n, left := After(c, Reload(c, files), events), Leftover(c, Reload(c, files), events);
            && n.bits !! left
            && Next(c, n, CrashAndRestart).bits == n.bits + left
            && (Next(c, n, CrashAndRestart) == n <==> left == {})
  {
    hide Below, Aligned, Config.Indices, After, Leftover;
    RunMirrors(c, files, events);
  }

  lemma {:induction false} RunMirrors(c: Config, files: set<Address>, events: seq<Event>)
    requires c.Valid()
    ensures Consistent(c, After(c, Reload(c, files), events))
    ensures Mirrors(c, After(c, Reload(c, files), events), Leftover(c, Reload(c, files), events))
  {
    hide Below, Aligned, Next, LeftBy, Config.Indices;
    var n := Reload(c, files);
    ReloadConsistent(c, files);
    if events != [] {
      var last := |events| - 1;
      var before := After(c, n, events[..last]);
      RunMirrors(c, files, events[..last]);
      StepMirrors(c, before, events[last], Leftover(c, n, events[..last]));
      StepConsistent(c, before, events[last]);
    }
  }

  lemma FreshHasRoom(c: Config)
    requires c.Valid()
    ensures LeastFree(c, Reload(c, {}).bits) >= 0
  {
    hide LeastFree, Aligned;
    ReservedCount(c);
    assert Reload(c, {}).bits == c.Reserved();
    if Below(c.size) <= c.Reserved() {
      SubsetComplement(Below(c.size), c.Reserved());
    }
  }

  lemma LeftoverSnoc(c: Config, n: Node, events: seq<Event>, e: Event)
    requires c.Valid()
    ensures Leftover(c, n, events + [e]) == LeftBy(After(c, n, events), e, Leftover(c, n, events))
  {
    assert (events + [e])[..|events|] == events;
  }

  const FAILED_WRITE := [ClaimNext, FinishSave(FailedLeavingFile), Rollback]

  /** In every fresh pool one write that fails after creating its file leaves the file behind,
      and a restart then takes the address although its caller was told of the failure. */
  lemma FailedWriteLeavesFile(c: Config)
    requires c.Valid()
    ensures var n := Reload(c, {});
            && After(c, n, FAILED_WRITE).pc.Idle? && After(c, n, FAILED_WRITE).bits == n.bits
            && Leftover(c, n, FAILED_WRITE) == {LeastFree(c, n.bits)}
            && Next(c, After(c, n, FAILED_WRITE), CrashAndRestart).bits == n.bits + {LeastFree(c, n.bits)}
  {
    hide LeastFree, Below, After, Leftover, Next, Config.Indices, Config.Reserved, Config.AddressAt;
    var n := Reload(c, {});
    FreshHasRoom(c);
    var i := LeastFree(c, n.bits);
    ClaimsLeast(c, n);
    ClaimOutcome(c, n, ClaimNext, i, FailedLeavingFile);
    FailedWriteLeft(c, n, i);
    ReloadIsExact(c, {}, FAILED_WRITE);
  }

  lemma ClaimsLeast(c: Config, n: Node)
    requires c.Valid() && n.pc.Idle? && LeastFree(c, n.bits) >= 0
    ensures var i := LeastFree(c, n.bits);
            i !in n.bits && Next(c, n, ClaimNext) == Node(n.bits + {i}, n.used + 1, n.files, Saving(i))
  {
    hide LeastFree;
  }

  lemma FailedWriteLeft(c: Config, n: Node, i: nat)
    requires c.Valid() && Next(c, n, ClaimNext).pc == Saving(i)
    ensures Leftover(c, n, FAILED_WRITE) == {i}
  {
    hide Next, After, Leftover;
    var failed := FinishSave(FailedLeavingFile);
    assert [] + [ClaimNext] == [ClaimNext] && [ClaimNext] + [failed] == [ClaimNext, failed];
    assert [ClaimNext, failed] + [Rollback] == FAILED_WRITE;
    AfterNothing(c, n);
    AfterSnoc(c, n, [], ClaimNext);
    NothingLeftYet(c, n);
    LeftoverSnoc(c, n, [], ClaimNext);
    LeftoverSnoc(c, n, [ClaimNext], failed);
    LeftoverSnoc(c, n, [ClaimNext, failed], Rollback);
  }

  lemma NothingLeftYet(c: Config, n: Node)
    requires c.Valid()
    ensures Leftover(c, n, []) == {}
  {}

  /** Crashes alone, wherever they fall, leave nothing behind. */
  lemma {:induction false} NoFailureNothingLeft(c: Config, n: Node, events: seq<Event>)
    requires c.Valid()
    requires forall k :: 0 <= k < |events| ==>
              events[k] != FinishSave(FailedLeavingFile) && events[k] != FinishRemove(false)
    ensures Leftover(c, n, events) == {}
  {
    hide Next;
    if events != [] {
      NoFailureNothingLeft(c, n, events[..|events| - 1]);
    }
  }

  // ------------------------------------------------- capacity

  /** `k` consecutive `Allocate` calls whose writes succeed. */
  ghost function Calls(k: nat): seq<Event>
  {
    if k == 0 then [] else Calls(k - 1) + [ClaimNext, FinishSave(Written)]
  }

  /** The indices that these calls hand out, in order. */
  ghost function Granted(c: Config, n: Node, k: nat): seq<nat>
    requires c.Valid()
  {
    if k == 0 then []
    else
      var claiming := After(c, n, Calls(k - 1) + [ClaimNext]);
      Granted(c, n, k - 1) + if claiming.pc.Saving? then [claiming.pc.idx] else []
  }

  ghost predicate Increasing(s: seq<nat>)
  {
    forall p, q :: 0 <= p < q < |s| ==> s[p] < s[q]
  }

  /** One call: the least free index is claimed and saved, or nothing happens. */
  lemma OneCall(c: Config, n: Node)
    requires c.Valid() && n.pc.Idle?
    ensures var i := LeastFree(c, n.bits);
            if i >= 0 then
              && Grants(Next(c, n, ClaimNext), FinishSave(Written), i)
              && Next(c, Next(c, n, ClaimNext), FinishSave(Written)) ==
                 Node(n.bits + {i}, n.used + 1, n.files + {c.AddressAt(i)}, Idle)
            else
              Next(c, n, ClaimNext) == n && Next(c, n, FinishSave(Written)) == n
  {}

  ghost predicate NoneFreeBefore(bits: set<nat>, x: nat)
  {
    forall y: nat :: y < x ==> y in bits
  }

  ghost function Elements(s: seq<nat>): set<nat>
  {
    set x | x in s
  }

  lemma ElementsSnoc(s: seq<nat>, i: nat)
    ensures Elements(s + [i]) == Elements(s) + {i}
    ensures forall x :: x in s ==> x in Elements(s)
  {}

  /** What `k` calls do from a node at rest. */
  ghost predicate Called(c: Config, n: Node, k: nat, m: Node, granted: seq<nat>)
  {
    && m.pc.Idle? && m.bits == n.bits + Elements(granted) && m.used == |m.bits|
    && |m.bits| == |n.bits| + |granted|
    && Increasing(granted)
    && (forall x :: x in granted ==> x in Below(c.size) - n.bits && NoneFreeBefore(m.bits, x))
    && (|granted| == k || m.bits == Below(c.size))
    && |granted| <= k
  }

  lemma {:induction false} CallsRun(c: Config, n: Node, k: nat)
    requires c.Valid() && Consistent(c, n) && n.pc.Idle?
    ensures Called(c, n, k, After(c, n, Calls(k)), Granted(c, n, k))
  {
    hide Next, After, LeastFree, Below, Aligned, Called;
    if k == 0 {
      AfterNothing(c, n);
      NoCalls(c, n);
    } else {
      CallsRun(c, n, k - 1);
      var m, granted := After(c, n, Calls(k - 1)), Granted(c, n, k - 1);
      AfterSnoc(c, n, Calls(k - 1), ClaimNext);
      AfterSnoc(c, n, Calls(k - 1) + [ClaimNext], FinishSave(Written));
      assert Calls(k) == Calls(k - 1) + [ClaimNext] + [FinishSave(Written)];
      assert m.pc.Idle? by { CalledIdle(c, n, k - 1, m, granted); }
      OneCall(c, m);
      assert granted + [] == granted;
      if LeastFree(c, m.bits) >= 0 {
        CalledOnce(c, n, k - 1, m, granted, LeastFree(c, m.bits));
      } else {
        CalledInVain(c, n, k - 1, m, granted);
      }
    }
  }

  lemma NoCalls(c: Config, n: Node)
    requires c.Valid() && Consistent(c, n) && n.pc.Idle?
    ensures Called(c, n, 0, n, [])
  {
    assert Elements([]) == {};
  }

  lemma CalledIdle(c: Config, n: Node, k: nat, m: Node, granted: seq<nat>)
    requires Called(c, n, k, m, granted)
    ensures m.pc.Idle?
  {}

  lemma CalledOnce(c: Config, n: Node, k: nat, m: Node, granted: seq<nat>, i: nat)
    requires c.Valid() && Called(c, n, k, m, granted) && IsLeastFree(c, m.bits, i)
    ensures Called(c, n, k + 1, Node(m.bits + {i}, m.used + 1, m.files + {c.AddressAt(i)}, Idle), granted + [i])
  {
    hide Aligned, Increasing, NoneFreeBefore, Below, Elements, Config.AddressAt;
    CountChange(m.bits, i);
    ElementsSnoc(granted, i);
    assert n.bits + (Elements(granted) + {i}) == m.bits + {i};
    forall x | x in granted
      ensures x < i && NoneFreeBefore(m.bits + {i}, x)
    {
      FreeIsLater(m.bits, i, x);
    }
    LeastIsFirst(c, m.bits, i);
    IncreasingSnoc(granted, i);
  }

  lemma IncreasingSnoc(s: seq<nat>, i: nat)
    requires Increasing(s) && forall x :: x in s ==> x < i
    ensures Increasing(s + [i])
  {
    assert forall p :: 0 <= p < |s| ==> s[p] in s;
  }

  lemma FreeIsLater(bits: set<nat>, i: nat, x: nat)
    requires i !in bits && x in bits && NoneFreeBefore(bits, x)
    ensures x < i && NoneFreeBefore(bits + {i}, x)
  {}

  lemma LeastIsFirst(c: Config, bits: set<nat>, i: nat)
    requires IsLeastFree(c, bits, i)
    ensures NoneFreeBefore(bits + {i}, i)
  {}

  lemma CalledInVain(c: Config, n: Node, k: nat, m: Node, granted: seq<nat>)
    requires c.Valid() && Consistent(c, n) && Called(c, n, k, m, granted) && Below(c.size) <= m.bits
    ensures Called(c, n, k + 1, m, granted)
  {
    hide Aligned;
    assert m.bits <= Below(c.size);
  }

  /** From every node at rest exactly `Available()` further calls succeed, with strictly
      increasing and hence distinct indices that are precisely the free ones; every call
      after that finds none. */
  lemma ExactCapacity(c: Config, n: Node, k: nat)
    requires c.Valid() && Consistent(c, n) && n.pc.Idle?
    ensures var granted, available := Granted(c, n, k), c.size - n.used;
            && |granted| == (if k <= available then k else available)
            && Increasing(granted)
            && (forall i :: i in granted ==> i in Below(c.size) - n.bits)
            && (k >= available ==> forall i :: i in Below(c.size) - n.bits ==> i in granted)
  {
    hide Aligned, After, LeastFree;
    CallsRun(c, n, k);
    var m := After(c, n, Calls(k));
    SubsetComplement(n.bits, Below(c.size));
    SubsetComplement(m.bits, Below(c.size));
  }

  // ------------------------------------------------- the class performs these runs

  ghost function View(a: Allocator): Node
    requires a.Valid() && a.dir != null
    reads a, a.bitmap.words, a.dir
  {
    Node(a.Bits(), a.used, a.Files(), Idle)
  }

  lemma AfterSnoc(c: Config, n: Node, events: seq<Event>, e: Event)
    requires c.Valid()
    ensures After(c, n, events + [e]) == Next(c, After(c, n, events), e)
  {
    assert (events + [e])[..|events|] == events;
  }

  lemma AfterNothing(c: Config, n: Node)
    requires c.Valid()
    ensures After(c, n, []) == n
  {}

  lemma After3(c: Config, n: Node, e0: Event, e1: Event, e2: Event)
    requires c.Valid()
    ensures After(c, n, [e0, e1]) == Next(c, Next(c, n, e0), e1)
    ensures After(c, n, [e0, e1, e2]) == Next(c, Next(c, Next(c, n, e0), e1), e2)
  {
    hide Next, After;
    AfterNothing(c, n);
    AfterSnoc(c, n, [], e0);
    AfterSnoc(c, n, [e0], e1);
    AfterSnoc(c, n, [e0, e1], e2);
    assert [] + [e0] == [e0] && [e0] + [e1] == [e0, e1] && [e0, e1] + [e2] == [e0, e1, e2];
  }

  lemma LeastFreeUnique(c: Config, bits: set<nat>, i: nat)
    requires IsLeastFree(c, bits, i)
    ensures LeastFree(c, bits) == i
  {
    assert i in Below(c.size);
  }

  /** Claiming index `i`, saving and rolling back: the net effect of one call. */
  lemma ClaimOutcome(c: Config, n: Node, claim: Event, i: nat, w: Write)
    requires c.Valid() && n.pc.Idle? && i !in n.bits
    requires Next(c, n, claim) == Node(n.bits + {i}, n.used + 1, n.files, Saving(i))
    ensures After(c, n, [claim, FinishSave(w), Rollback]) ==
            Node(if w.Written? then n.bits + {i} else n.bits,
                 if w.Written? then n.used + 1 else n.used,
                 if w.FailedClean? then n.files else n.files + {c.AddressAt(i)},
                 Idle)
  {
    After3(c, n, claim, FinishSave(w), Rollback);
    CountChange(n.bits, i);
  }

  /** A call whose checks fail changes nothing. */
  lemma RefusedOutcome(c: Config, n: Node, claim: Event, w: Write)
    requires c.Valid() && n.pc.Idle? && Next(c, n, claim) == n
    ensures After(c, n, [claim, FinishSave(w), Rollback]) == n
  {
    After3(c, n, claim, FinishSave(w), Rollback);
  }

  /** `Allocate` with its outcome is the run claim, save, roll back. */
  method AllocateAsRun(a: Allocator, w: Write) returns (r: Result<Address>)
    requires a.Valid() && a.dir != null
    modifies a.Repr()
    ensures a.Valid()
    ensures View(a) == After(a.cfg, old(View(a)), [ClaimNext, FinishSave(w), Rollback])
    ensures r.Ok? <==> w.Written? && Next(a.cfg, old(View(a)), ClaimNext).pc.Saving?
    ensures r.Ok? ==> r.value == a.cfg.AddressAt(Next(a.cfg, old(View(a)), ClaimNext).pc.idx)
  {
    hide Members, Below, Aligned, LeastFree, After;
    ghost var c, n := a.cfg, View(a);
    r := a.Allocate(w);
    if n.bits == Below(c.size) {
      RefusedOutcome(c, n, ClaimNext, w);
    } else {
      ghost var i: nat :| IsLeastFree(c, n.bits, i)
        && (r == if w.Written? then Ok(c.AddressAt(i)) else Err(PersistFailed))
        && a.Bits() == (if r.Ok? then n.bits + {i} else n.bits)
        && a.Files() == if w.FailedClean? then n.files else n.files + {c.AddressAt(i)};
      LeastFreeUnique(c, n.bits, i);
      CountChange(n.bits, i);
      ClaimOutcome(c, n, ClaimNext, i, w);
    }
  }

  method AllocateSpecificAsRun(a: Allocator, ip: Address, w: Write) returns (r: Result<()>)
    requires a.Valid() && a.dir != null
    modifies a.Repr()
    ensures a.Valid()
    ensures View(a) == After(a.cfg, old(View(a)), [ClaimSpecific(ip), FinishSave(w), Rollback])
    ensures r.Ok? <==> w.Written? && Next(a.cfg, old(View(a)), ClaimSpecific(ip)).pc.Saving?
  {
    hide Members, Below, Aligned, LeastFree, After;
    ghost var c, n := a.cfg, View(a);
    ContainsIffIndexed(c, ip);
    r := a.AllocateSpecific(ip, w);
    if c.Contains(ip) && c.IndexOf(ip) !in n.bits {
      CountChange(n.bits, c.IndexOf(ip));
      ClaimOutcome(c, n, ClaimSpecific(ip), c.IndexOf(ip), w);
    } else {
      RefusedOutcome(c, n, ClaimSpecific(ip), w);
    }
  }

  method ReleaseAsRun(a: Allocator, ip: Address, removed: bool) returns (r: Result<()>)
    requires a.Valid() && a.dir != null
    modifies a.Repr()
    ensures a.Valid()
    ensures View(a) == After(a.cfg, old(View(a)), [ReleaseCall(ip), FinishRemove(removed)])
    ensures r.Ok? <==> Releasable(a.cfg, old(View(a)), ip)
  {
    hide Members, Below, Aligned, LeastFree, After;
    ghost var c, n := a.cfg, View(a);
    After3(c, n, ReleaseCall(ip), FinishRemove(removed), Rollback);
    ContainsIffIndexed(c, ip);
    r := a.Release(ip, removed);
    if r.Ok? {
      CountChange(n.bits, c.IndexOf(ip));
    }
  }
}
