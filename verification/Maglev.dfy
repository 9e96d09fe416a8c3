/**
 Maglev lookup tables (internal/service/maglev.go).  In round-robin turns each backend takes
 the first empty slot of its own probe sequence; the code remembers where each backend left
 off, the reference below searches from the start.  The hash is a parameter.
 */
module Maglev {
  import opened Prelude
  import opened Probing

  type Hash = string -> nat

  const EMPTY: nat := 0xFFFF_FFFF

  function OffsetOf(h: nat, size: nat): nat
    requires size >= 2
  {
    h % size
  }

  /** The upper half of the hash, reduced to the range from 1 to `size - 1`. */
  function SkipOf(h: nat, size: nat): (r: nat)
    requires size >= 2
    ensures 1 <= r < size
  {
    (h / 0x1_0000_0000) % (size - 1) + 1
  }

  /** `(pos + skip) % size` on 32-bit unsigned numbers. */
  function Advance(pos: nat, skip: nat, size: nat): nat
    requires size > 0
  {
    ((pos + skip) % 0x1_0000_0000) % size
  }

  /** The probe sequences of the backends. */
  datatype Prefs = Prefs(offset: seq<nat>, skip: seq<nat>, size: nat) {
    ghost predicate Valid()
    {
      && |offset| == |skip| && 0 < |skip| < EMPTY && size > 0
      && (forall i :: 0 <= i < |skip| ==> offset[i] < size && Coprime(skip[i], size))
    }

    function At(i: nat, k: nat): nat
      requires i < |skip| && i < |offset| && size > 0
    {
      Slot(offset[i], skip[i], k, size)
    }
  }

  ghost function PrefsOf(hash: Hash, backends: seq<string>, size: nat): Prefs
    requires size >= 2
  {
    Prefs(seq(|backends|, i requires 0 <= i < |backends| => OffsetOf(hash(backends[i]), size)),
          seq(|backends|, i requires 0 <= i < |backends| => SkipOf(hash(backends[i]), size)),
          size)
  }

  // ------------------------------------------------------------------ the reference

  /** The `k`-th choice of backend `i` is its first that is still empty. */
  ghost predicate FirstEmpty(p: Prefs, table: seq<nat>, i: nat, k: nat)
    requires p.Valid() && i < |p.skip| && |table| == p.size
  {
    table[p.At(i, k)] == EMPTY && forall j: nat :: j < k ==> table[p.At(i, j)] != EMPTY
  }

  lemma {:induction false} FirstExists(p: Prefs, table: seq<nat>, i: nat, k: nat)
    requires p.Valid() && i < |p.skip| && |table| == p.size && table[p.At(i, k)] == EMPTY
    ensures exists j: nat :: FirstEmpty(p, table, i, j)
  {
    if j: nat :| j < k && table[p.At(i, j)] == EMPTY {
      FirstExists(p, table, i, j);
    } else {
      assert FirstEmpty(p, table, i, k);
    }
  }

  lemma ChoiceExists(p: Prefs, table: seq<nat>, i: nat)
    requires p.Valid() && i < |p.skip| && |table| == p.size && EMPTY in table
    ensures exists k: nat :: FirstEmpty(p, table, i, k)
  {
    var t :| 0 <= t < |table| && table[t] == EMPTY;
    Reaches(p.offset[i], p.skip[i], p.size, t);
    var k: nat :| k < p.size && Slot(p.offset[i], p.skip[i], k, p.size) == t;
    FirstExists(p, table, i, k);
  }

  /** The slot backend `i` takes next, searching its sequence from the start. */
  ghost function Choice(p: Prefs, table: seq<nat>, i: nat): (r: nat)
    requires p.Valid() && i < |p.skip| && |table| == p.size && EMPTY in table
    ensures r < p.size && table[r] == EMPTY
  {
    ChoiceExists(p, table, i);
    var k: nat :| FirstEmpty(p, table, i, k);
    p.At(i, k)
  }

  lemma ChoiceUnique(p: Prefs, table: seq<nat>, i: nat, k: nat)
    requires p.Valid() && i < |p.skip| && |table| == p.size && EMPTY in table && FirstEmpty(p, table, i, k)
    ensures Choice(p, table, i) == p.At(i, k)
  {
    ChoiceExists(p, table, i);
    var k': nat :| FirstEmpty(p, table, i, k') && Choice(p, table, i) == p.At(i, k');
  }

  /** The table after `t` turns of the reference. */
  ghost function Turns(p: Prefs, t: nat): (r: seq<nat>)
    requires p.Valid() && t <= p.size
    ensures |r| == p.size && multiset(r)[EMPTY] == p.size - t
  {
    if t == 0 then
      AllEmpty(p.size);
      seq(p.size, _ => EMPTY)
    else
      var before := Turns(p, t - 1);
      assert EMPTY in multiset(before);
      var i := (t - 1) % |p.skip|;
      before[Choice(p, before, i) := i]
  }

  lemma AllEmpty(n: nat)
    ensures multiset(seq(n, _ => EMPTY))[EMPTY] == n
  {
    var s := seq(n, _ => EMPTY);
    if n > 0 {
      AllEmpty(n - 1);
      assert s == seq(n - 1, _ => EMPTY) + [EMPTY];
    }
  }

  // ------------------------------------------------------------------ balance

  /** How many of `t` round-robin turns fall to backend `i` of `n`. */
  function Share(t: nat, i: nat, n: nat): nat
    requires n > 0
  {
    t / n + if i < t % n then 1 else 0
  }

  lemma ShareNext(t: nat, i: nat, n: nat)
    requires i < n
    ensures Share(t + 1, i, n) == Share(t, i, n) + if i == t % n then 1 else 0
  {
    var q, r := t / n, t % n;
    assert t == n * q + r;
    if r + 1 < n {
      DivModUnique(t + 1, n, q, r + 1);
    } else {
      assert t + 1 == n * (q + 1);
      DivModUnique(t + 1, n, q + 1, 0);
    }
  }

  /** After `t` turns each backend holds exactly its share, and nothing but backends and
      empty slots is in the table. */
  lemma {:induction false} Shares(p: Prefs, t: nat, i: nat)
    requires p.Valid() && t <= p.size && i < |p.skip|
    ensures multiset(Turns(p, t))[i] == Share(t, i, |p.skip|)
  {
    hide Share, Turns;
    if t == 0 {
      StartsUnheld(p, i);
      NoShare(i, |p.skip|);
    } else {
      Shares(p, t - 1, i);
      ShareNext(t - 1, i, |p.skip|);
      TurnAdds(p, t, i);
    }
  }

  lemma StartsUnheld(p: Prefs, i: nat)
    requires p.Valid() && i < |p.skip|
    ensures multiset(Turns(p, 0))[i] == 0
  {
    NoneHeld(p.size, i);
  }

  lemma NoShare(i: nat, n: nat)
    requires n > 0
    ensures Share(0, i, n) == 0
  {}

  lemma TurnAdds(p: Prefs, t: nat, i: nat)
    requires p.Valid() && 0 < t <= p.size && i < |p.skip|
    ensures multiset(Turns(p, t))[i] == multiset(Turns(p, t - 1))[i] + if i == (t - 1) % |p.skip| then 1 else 0
  {
    var before := Turns(p, t - 1);
    assert EMPTY in multiset(before);
    FillCount(before, Choice(p, before, (t - 1) % |p.skip|), (t - 1) % |p.skip|, i);
  }

  lemma FillCount(s: seq<nat>, x: nat, v: nat, i: nat)
    requires x < |s| && s[x] == EMPTY && v < EMPTY && i < EMPTY
    ensures multiset(s[x := v])[i] == multiset(s)[i] + if i == v then 1 else 0
  {}

  lemma NoneHeld(n: nat, i: nat)
    requires i < EMPTY
    ensures multiset(seq(n, _ => EMPTY))[i] == 0
  {
    var s := seq(n, _ => EMPTY);
    assert forall x :: x in s ==> x == EMPTY;
    assert i !in multiset(s);
  }

  lemma {:induction false} EntriesKnown(p: Prefs, t: nat, x: nat)
    requires p.Valid() && t <= p.size && x < p.size
    ensures Turns(p, t)[x] == EMPTY || Turns(p, t)[x] < |p.skip|
  {
    if t > 0 {
      EntriesKnown(p, t - 1, x);
      assert EMPTY in multiset(Turns(p, t - 1));
    }
  }

  /** A finished table: every entry is a backend, and the loads of any two backends differ by
      at most one. */
  lemma Balanced(p: Prefs, x: nat, i: nat, j: nat)
    requires p.Valid() && x < p.size && i < |p.skip| && j < |p.skip|
    ensures var table := Turns(p, p.size);
            && table[x] < |p.skip|
            && multiset(table)[i] == p.size / |p.skip| + (if i < p.size % |p.skip| then 1 else 0)
            && multiset(table)[i] <= multiset(table)[j] + 1
  {
    Shares(p, p.size, i);
    Shares(p, p.size, j);
    EntriesKnown(p, p.size, x);
    assert Turns(p, p.size)[x] in multiset(Turns(p, p.size));
  }

  // ------------------------------------------------------------------ the code

  lemma NextSlot(pos: nat, skip: nat, k: nat, size: nat)
    requires size > 0
    ensures (Slot(pos, skip, k, size) + skip) % size == Slot(pos, skip, k + 1, size)
  {
    var a := pos + k * skip;
    assert pos + (k + 1) * skip == a + skip by { assert (k + 1) * skip == k * skip + skip; }
    var q, r := a / size, a % size;
    assert a == size * q + r;
    var q', r' := (r + skip) / size, (r + skip) % size;
    assert r + skip == size * q' + r';
    assert a + skip == size * (q + q') + r' by { assert size * (q + q') == size * q + size * q'; }
    DivModUnique(a + skip, size, q + q', r');
  }

  lemma AdvanceIsNext(pos: nat, skip: nat, k: nat, size: nat)
    requires 0 < size <= 0x8000_0000 && skip < size
    ensures Advance(Slot(pos, skip, k, size), skip, size) == Slot(pos, skip, k + 1, size)
  {
    NextSlot(pos, skip, k, size);
  }

  /** Everything before position `c` of backend `i` is taken. */
  ghost predicate TakenBefore(p: Prefs, table: seq<nat>, i: nat, c: nat)
    requires p.Valid() && i < |p.skip| && |table| == p.size
  {
    forall j: nat :: j < c ==> table[p.At(i, j)] != EMPTY
  }

  /** The inner probe: from where the backend left off to its first empty slot.  It ends
      because the sequence meets every slot and one is empty. */
  method Probe(table: array<nat>, pos: nat, skip: nat, ghost p: Prefs, ghost i: nat, ghost c: nat)
    returns (r: nat, ghost k: nat)
    requires p.Valid() && i < |p.skip| && table.Length == p.size <= 0x8000_0000
    requires skip == p.skip[i] < p.size && pos == p.At(i, c)
    requires TakenBefore(p, table[..], i, c) && EMPTY in table[..]
    ensures r < p.size && r == p.At(i, k) && FirstEmpty(p, table[..], i, k)
  {
    r, k := pos, c;
    ghost var goal: nat := FirstPosition(p, table[..], i);
    while table[r] != EMPTY
      invariant r == p.At(i, k) && k <= goal && TakenBefore(p, table[..], i, k)
      decreases goal - k
    {
      AdvanceIsNext(p.offset[i], p.skip[i], k, p.size);
      r := Advance(r, skip, table.Length);
      k := k + 1;
    }
  }

  ghost function FirstPosition(p: Prefs, table: seq<nat>, i: nat): (k: nat)
    requires p.Valid() && i < |p.skip| && |table| == p.size && EMPTY in table
    ensures FirstEmpty(p, table, i, k)
  {
    ChoiceExists(p, table, i);
    var k: nat :| FirstEmpty(p, table, i, k);
    k
  }

  /** One backend's turn, together with where each backend has got to. */
  ghost predicate Resumable(p: Prefs, table: seq<nat>, next: seq<nat>, at: seq<nat>)
    requires p.Valid() && |table| == p.size
  {
    && |next| == |p.skip| && |at| == |p.skip|
    && forall i :: 0 <= i < |p.skip| ==> next[i] == p.At(i, at[i]) && TakenBefore(p, table, i, at[i])
  }

  lemma TakeSlot(p: Prefs, table: seq<nat>, next: seq<nat>, at: seq<nat>, i: nat, k: nat, next': seq<nat>)
    requires p.Valid() && |table| == p.size && Resumable(p, table, next, at)
    requires i < |p.skip| && FirstEmpty(p, table, i, k) && next' == next[i := p.At(i, k + 1)]
    ensures Resumable(p, table[p.At(i, k) := i], next', at[i := k + 1])
  {
    var table', at' := table[p.At(i, k) := i], at[i := k + 1];
    forall b | 0 <= b < |p.skip|
      ensures next'[b] == p.At(b, at'[b]) && TakenBefore(p, table', b, at'[b])
    {
      forall j: nat | j < at'[b]
        ensures table'[p.At(b, j)] != EMPTY
      {
        if b == i && j == k {
        } else {
          assert table[p.At(b, j)] != EMPTY;
        }
      }
    }
  }

  lemma TurnTaken(p: Prefs, t: nat, table: seq<nat>, i: nat, k: nat)
    requires p.Valid() && t < p.size && table == Turns(p, t) && i == t % |p.skip| && FirstEmpty(p, table, i, k)
    ensures table[p.At(i, k) := i] == Turns(p, t + 1)
  {
    assert EMPTY in multiset(table);
    ChoiceUnique(p, table, i, k);
  }

  /** One turn: probe, take the slot, remember where to go on. */
  method TakeTurn(table: array<nat>, next: array<nat>, p: Prefs, i: nat, ghost t: nat, ghost at: seq<nat>)
    returns (ghost at': seq<nat>)
    requires p.Valid() && p.size <= 0x8000_0000 && table != next && table.Length == p.size && next.Length == |p.skip|
    requires i < |p.skip| && p.skip[i] < p.size && t < p.size && i == t % |p.skip|
    requires table[..] == Turns(p, t) && Resumable(p, table[..], next[..], at)
    modifies table, next
    ensures table[..] == Turns(p, t + 1) && Resumable(p, table[..], next[..], at')
  {
    hide Turns, Prefs.At, FirstEmpty;
    ghost var before, nexts := table[..], next[..];
    assert EMPTY in multiset(before);
    var pos, k := Probe(table, next[i], p.skip[i], p, i, at[i]);
    TurnTaken(p, t, before, i, k);
    AdvanceAt(p, i, k);
    TakeSlot(p, before, nexts, at, i, k, nexts[i := p.At(i, k + 1)]);
    table[pos] := i;
    next[i] := Advance(pos, p.skip[i], table.Length);
    assert table[..] == before[pos := i];
    assert next[..] == nexts[i := p.At(i, k + 1)];
    at' := at[i := k + 1];
  }

  lemma AdvanceAt(p: Prefs, i: nat, k: nat)
    requires p.Valid() && i < |p.skip| && p.skip[i] < p.size <= 0x8000_0000
    ensures Advance(p.At(i, k), p.skip[i], p.size) == p.At(i, k + 1)
  {
    AdvanceIsNext(p.offset[i], p.skip[i], k, p.size);
  }

  /** The filling loops.  The result is the reference's table after as many turns as there
      are slots. */
  method Fill(p: Prefs) returns (table: array<nat>)
    requires p.Valid() && p.size <= 0x8000_0000 && forall i :: 0 <= i < |p.skip| ==> p.skip[i] < p.size
    ensures fresh(table) && table[..] == Turns(p, p.size)
  {
    hide Resumable, Turns, Prefs.Valid;
    ValidShape(p);
    var n, size := |p.skip|, p.size;
    table := new nat[size](_ => EMPTY);
    var next := new nat[n](i requires 0 <= i < n => p.offset[i]);
    ghost var at := seq(n, _ => 0);
    NoTurns(p, table[..]);
    StartResumable(p, table[..], next[..], at);
    var filled: nat := 0;
    while filled < size
      invariant filled <= size && table[..] == Turns(p, filled)
      invariant filled < size ==> filled % n == 0
      invariant Resumable(p, table[..], next[..], at)
      invariant fresh(table) && fresh(next)
      decreases size - filled
    {
      ghost var base := filled;
      var i: nat := 0;
      while i < n && filled < size
        invariant i <= n && filled == base + i && filled <= size
        invariant table[..] == Turns(p, filled)
        invariant Resumable(p, table[..], next[..], at)
        invariant fresh(table) && fresh(next)
        decreases n - i
      {
        RoundRobin(base, i, n);
        at := TakeTurn(table, next, p, i, filled, at);
        filled := filled + 1;
        i := i + 1;
      }
      if i == n {
        FullRound(base, n);
      }
    }
  }

  lemma StartResumable(p: Prefs, table: seq<nat>, next: seq<nat>, at: seq<nat>)
    requires p.Valid() && |table| == p.size && |next| == |at| == |p.skip|
    requires forall i :: 0 <= i < |p.skip| ==> next[i] == p.offset[i] && at[i] == 0
    ensures Resumable(p, table, next, at)
  {
    forall i | 0 <= i < |p.skip|
      ensures p.At(i, 0) == p.offset[i]
    {
      DivModUnique(p.offset[i], p.size, 0, p.offset[i]);
    }
  }

  lemma ValidShape(p: Prefs)
    requires p.Valid()
    ensures |p.offset| == |p.skip| > 0 && p.size > 0
  {}

  lemma NoTurns(p: Prefs, table: seq<nat>)
    requires p.Valid() && |table| == p.size && forall x :: 0 <= x < |table| ==> table[x] == EMPTY
    ensures table == Turns(p, 0)
  {}

  lemma RoundRobin(base: nat, i: nat, n: nat)
    requires i < n && base % n == 0
    ensures (base + i) % n == i
  {
    DivModUnique(base + i, n, base / n, i);
  }

  lemma FullRound(base: nat, n: nat)
    requires n > 0 && base % n == 0
    ensures (base + n) % n == 0
  {
    assert base + n == n * (base / n + 1);
    DivModUnique(base + n, n, base / n + 1, 0);
  }

  /** `GenerateMaglevTable`.  With no backends the table is all zeros; a size out of range
      gives none; otherwise the table is complete and balanced.  Termination needs every skip
      to be coprime to the size, which a prime size guarantees. */
  method GenerateMaglevTable(hash: Hash, backends: seq<string>, tableSize: int) returns (r: Option<seq<nat>>)
    requires |backends| < EMPTY
    requires backends == [] ==> tableSize >= 0
    requires backends != [] && 0 < tableSize <= EMPTY ==>
               && 2 <= tableSize <= 0x8000_0000
               && forall i :: 0 <= i < |backends| ==> Coprime(SkipOf(hash(backends[i]), tableSize), tableSize)
    ensures r.None? <==> backends != [] && (tableSize <= 0 || tableSize > EMPTY)
    ensures backends == [] ==> r == Some(seq(tableSize, _ => 0))
    ensures backends != [] && r.Some? ==>
              && PrefsOf(hash, backends, tableSize).Valid()
              && r.value == Turns(PrefsOf(hash, backends, tableSize), tableSize)
  {
    var n := |backends|;
    if n == 0 {
      return Some(seq(tableSize, _ => 0));
    }
    if tableSize <= 0 || tableSize > EMPTY {
      return None;
    }
    var offsets, skips := [], [];
    for i := 0 to n
      invariant |offsets| == i && |skips| == i
      invariant forall j :: 0 <= j < i ==> offsets[j] == OffsetOf(hash(backends[j]), tableSize)
      invariant forall j :: 0 <= j < i ==> skips[j] == SkipOf(hash(backends[j]), tableSize)
    {
      var h := hash(backends[i]);
      offsets := offsets + [h % tableSize];
      skips := skips + [(h / 0x1_0000_0000) % (tableSize - 1) + 1];
    }
    var p := Prefs(offsets, skips, tableSize);
    assert p == PrefsOf(hash, backends, tableSize);
    var table := Fill(p);
    return Some(table[..]);
  }

  /** The size the watcher uses satisfies the requirement for every list of backends. */
  lemma ProductionSizeTerminates(hash: Hash, backends: seq<string>)
    requires 0 < |backends| < EMPTY
    ensures PrefsOf(hash, backends, 65537).Valid()
  {
    MaglevSizeIsPrime();
    forall i | 0 <= i < |backends|
      ensures Coprime(SkipOf(hash(backends[i]), 65537), 65537)
    {
      PrimeIsCoprime(65537, SkipOf(hash(backends[i]), 65537));
    }
  }

  /** The offset is the remainder of the hash, the skip that of its upper half. */
  lemma HashSplits(hash: Hash, backends: seq<string>, size: nat, i: nat, high: nat, low: nat)
    requires size >= 2 && i < |backends|
    requires hash(backends[i]) == high * 0x1_0000_0000 + low && low < 0x1_0000_0000
    ensures var p, h := PrefsOf(hash, backends, size), hash(backends[i]);
            && p.offset[i] < size && (h - p.offset[i]) % size == 0
            && 1 <= p.skip[i] < size && (high - (p.skip[i] - 1)) % (size - 1) == 0
  {
    var h := hash(backends[i]);
    assert h / 0x1_0000_0000 == high;
    RemainderDivides(h, size);
    RemainderDivides(high, size - 1);
  }

  lemma RemainderDivides(a: nat, n: nat)
    requires n > 0
    ensures a % n < n && (a - a % n) % n == 0
  {
    MultipleIsZero(n, a / n);
    assert a - a % n == n * (a / n);
  }

  /** The first entry goes to the first backend, at the remainder of its hash. */
  lemma FirstEntry(hash: Hash, backends: seq<string>, size: nat, x: nat)
    requires size >= 2 && PrefsOf(hash, backends, size).Valid() && x < size
    ensures Turns(PrefsOf(hash, backends, size), 1)[x] == if x == hash(backends[0]) % size then 0 else EMPTY
  {
    var p := PrefsOf(hash, backends, size);
    var start := Turns(p, 0);
    assert start[0] == EMPTY;
    assert EMPTY in start;
    AtZero(p, 0);
    assert FirstEmpty(p, start, 0, 0);
    ChoiceUnique(p, start, 0, 0);
    ZeroTurn(|p.skip|);
  }

  lemma ZeroTurn(n: nat)
    requires n > 0
    ensures 0 % n == 0
  {}

  lemma AtZero(p: Prefs, i: nat)
    requires p.Valid() && i < |p.skip|
    ensures p.At(i, 0) == p.offset[i]
  {}
}
