/**
 The allocator of contiguous slots in the dataplane's flat backend array
 (internal/service/allocator.go): a list of free ranges, first fit, merged on free.
 */
module Slots {
  import opened Prelude

  datatype Range = Range(offset: nat, count: nat) {
    predicate Has(x: int)
    {
      offset <= x < offset + count
    }

    function End(): nat
    {
      offset + count
    }
  }

  ghost predicate Covered(ranges: seq<Range>, x: int)
  {
    exists i :: 0 <= i < |ranges| && ranges[i].Has(x)
  }

  /** In ascending order, none empty, and no two touching or overlapping. */
  ghost predicate Canonical(free: seq<Range>)
  {
    && (forall i :: 0 <= i < |free| ==> free[i].count > 0)
    && (forall i, j :: 0 <= i < j < |free| ==> free[i].End() < free[j].offset)
  }

  /** Ascending and not overlapping; neighbours may touch. */
  ghost predicate Ordered(ranges: seq<Range>)
  {
    && (forall i :: 0 <= i < |ranges| ==> ranges[i].count > 0)
    && (forall i, j :: 0 <= i < j < |ranges| ==> ranges[i].End() <= ranges[j].offset)
  }

  /** All of `count` slots from `o` are free. */
  ghost predicate FreeRun(free: seq<Range>, o: nat, count: nat)
  {
    forall x :: o <= x < o + count ==> Covered(free, x)
  }

  /** A run of free slots lies within one range, so first fit misses none. */
  lemma RunInOneRange(free: seq<Range>, o: nat, count: nat)
    requires Canonical(free) && count > 0 && FreeRun(free, o, count)
    ensures exists i :: 0 <= i < |free| && free[i].offset <= o && o + count <= free[i].End()
  {
    assert Covered(free, o);
    var i :| 0 <= i < |free| && free[i].Has(o);
    if free[i].End() < o + count {
      assert Covered(free, free[i].End());
    }
  }

  // ------------------------------------------------------------------ canonical form

  /** A canonical list is determined by the slots it covers. */
  lemma {:induction false} CanonicalUnique(a: seq<Range>, b: seq<Range>)
    requires Canonical(a) && Canonical(b) && forall x :: Covered(a, x) <==> Covered(b, x)
    ensures a == b
  {
    if a == [] {
      if b != [] {
        assert b[0].Has(b[0].offset);
        assert Covered(b, b[0].offset);
      }
    } else {
      assert a[0].Has(a[0].offset);
      assert Covered(a, a[0].offset);
      assert b != [];
      assert b[0].Has(b[0].offset);
      assert Covered(b, b[0].offset);
      SameFirst(a, b);
      forall x
        ensures Covered(a[1..], x) <==> Covered(b[1..], x)
      {
        TailCovered(a, x);
        TailCovered(b, x);
      }
      CanonicalUnique(a[1..], b[1..]);
    }
  }

  lemma TailCovered(a: seq<Range>, x: int)
    requires Canonical(a) && a != []
    ensures Covered(a[1..], x) <==> Covered(a, x) && !a[0].Has(x)
  {
    if Covered(a[1..], x) {
      var i :| 0 <= i < |a[1..]| && a[1..][i].Has(x);
      assert a[i + 1].Has(x);
    }
    if Covered(a, x) && !a[0].Has(x) {
      var i :| 0 <= i < |a| && a[i].Has(x);
      assert a[1..][i - 1].Has(x);
    }
  }

  lemma SameFirst(a: seq<Range>, b: seq<Range>)
    requires Canonical(a) && Canonical(b) && a != [] && b != []
    requires forall x :: Covered(a, x) <==> Covered(b, x)
    ensures a[0] == b[0]
  {
    assert a[0].Has(a[0].offset) && Covered(a, a[0].offset);
    assert b[0].Has(b[0].offset) && Covered(b, b[0].offset);
    assert a[0].offset == b[0].offset;
    NotCoveredAtEnd(a);
    NotCoveredAtEnd(b);
    var x, y := a[0].End(), b[0].End();
    assert b[0].Has(x) ==> Covered(b, x);
    assert a[0].Has(y) ==> Covered(a, y);
  }

  lemma NotCoveredAtEnd(a: seq<Range>)
    requires Canonical(a) && a != []
    ensures !Covered(a, a[0].End())
  {}

  // ------------------------------------------------------------------ sort and merge

  /** The number of ranges that start before `offset`. */
  function Position(free: seq<Range>, offset: nat): (p: nat)
    ensures p <= |free|
    ensures forall i :: 0 <= i < p ==> free[i].offset < offset
    ensures p < |free| ==> free[p].offset >= offset
  {
    if free == [] || free[0].offset >= offset then 0 else 1 + Position(free[1..], offset)
  }

  /** The list after appending `r` and sorting by offset. */
  function Inserted(free: seq<Range>, r: Range): seq<Range>
  {
    var p := Position(free, r.offset);
    free[..p] + [r] + free[p..]
  }

  ghost predicate Ascending(s: seq<Range>)
  {
    forall i, j :: 0 <= i < j < |s| ==> s[i].offset < s[j].offset
  }

  lemma SameLeast(a: seq<Range>, b: seq<Range>)
    requires a != [] && b != [] && Ascending(a) && Ascending(b) && multiset(a) == multiset(b)
    ensures a[0] == b[0]
  {
    assert a[0] in multiset(a) && b[0] in multiset(b);
    assert a[0] in b && b[0] in a;
  }

  lemma {:induction false} AscendingUnique(a: seq<Range>, b: seq<Range>)
    requires Ascending(a) && Ascending(b) && multiset(a) == multiset(b)
    ensures a == b
  {
    assert |a| == |multiset(a)| == |multiset(b)| == |b|;
    if a != [] {
      SameLeast(a, b);
      assert a == [a[0]] + a[1..] && b == [b[0]] + b[1..];
      assert multiset(a[1..]) == multiset(a) - multiset{a[0]};
      assert multiset(b[1..]) == multiset(b) - multiset{b[0]};
      AscendingUnique(a[1..], b[1..]);
    }
  }

  /** Ranges before the insertion point end before `r`, the others start after it. */
  lemma Apart(free: seq<Range>, r: Range, i: nat)
    requires Canonical(free) && r.count > 0 && (forall x :: r.Has(x) ==> !Covered(free, x)) && i < |free|
    ensures i < Position(free, r.offset) ==> free[i].End() <= r.offset
    ensures i >= Position(free, r.offset) ==> r.End() <= free[i].offset
  {
    assert r.Has(r.offset);
    assert free[i].Has(free[i].offset) && Covered(free, free[i].offset);
    assert free[i].Has(r.offset) ==> Covered(free, r.offset);
    var p := Position(free, r.offset);
    assert i > p ==> free[p].End() < free[i].offset;
  }

  lemma InsertedAt(free: seq<Range>, r: Range, i: nat)
    requires i <= |free|
    ensures |Inserted(free, r)| == |free| + 1
    ensures var p := Position(free, r.offset);
            Inserted(free, r)[i] == if i < p then free[i] else if i == p then r else free[i - 1]
  {
    hide Position;
  }

  lemma InsertedOrdered(free: seq<Range>, r: Range)
    requires Canonical(free) && r.count > 0 && forall x :: r.Has(x) ==> !Covered(free, x)
    ensures Ordered(Inserted(free, r))
  {
    hide Position, Inserted, Covered;
    var t := Inserted(free, r);
    InsertedAt(free, r, 0);
    forall i, j | 0 <= i < j < |t|
      ensures t[i].End() <= t[j].offset
    {
      InsertedAt(free, r, i);
      InsertedAt(free, r, j);
      if i < |free| {
        Apart(free, r, i);
      }
      Apart(free, r, j - 1);
    }
    forall i | 0 <= i < |t|
      ensures t[i].count > 0
    {
      InsertedAt(free, r, i);
    }
  }

  lemma InsertedCovers(free: seq<Range>, r: Range, x: int)
    ensures Covered(Inserted(free, r), x) <==> Covered(free, x) || r.Has(x)
  {
    hide Position, Range.Has;
    var p, t := Position(free, r.offset), Inserted(free, r);
    assert t[p] == r;
    if Covered(free, x) {
      var i :| 0 <= i < |free| && free[i].Has(x);
      assert t[if i < p then i else i + 1] == free[i];
    }
  }

  /** Whatever algorithm sorts the list, the result is `Inserted`. */
  lemma SortedIsInserted(free: seq<Range>, r: Range, s: seq<Range>)
    requires Canonical(free) && r.count > 0 && forall x :: r.Has(x) ==> !Covered(free, x)
    requires Ascending(s) && multiset(s) == multiset(free + [r])
    ensures s == Inserted(free, r)
  {
    hide Covered, Canonical;
    InsertedOrdered(free, r);
    OrderedAscends(Inserted(free, r));
    InsertedMultiset(free, r);
    AscendingUnique(s, Inserted(free, r));
  }

  lemma OrderedAscends(s: seq<Range>)
    requires Ordered(s)
    ensures Ascending(s)
  {}

  lemma InsertedMultiset(free: seq<Range>, r: Range)
    ensures multiset(Inserted(free, r)) == multiset(free + [r])
  {
    hide Position;
    var p := Position(free, r.offset);
    assert free == free[..p] + free[p..];
  }

  /** `merge`: joins neighbours that touch. */
  method Merge(free: seq<Range>) returns (merged: seq<Range>)
    requires Ordered(free)
    ensures Canonical(merged)
    ensures forall x :: Covered(merged, x) <==> Covered(free, x)
  {
    hide Covered;
    merged := [];
    assert forall x :: Covered(merged, x) <==> Covered(free[..0], x);
    for k := 0 to |free|
      invariant Canonical(merged)
      invariant forall i, j :: 0 <= i < |merged| && k <= j < |free| ==> merged[i].End() <= free[j].offset
      invariant forall x :: Covered(merged, x) <==> Covered(free[..k], x)
    {
      var r := free[k];
      if |merged| > 0 && merged[|merged| - 1].End() == r.offset {
        var last := merged[|merged| - 1];
        var joined := Range(last.offset, last.count + r.count);
        JoinCovers(merged, free, k, joined, merged[|merged| - 1 := joined]);
        merged := merged[|merged| - 1 := joined];
      } else {
        AppendCovers(merged, free, k);
        merged := merged + [r];
      }
    }
    assert free[..|free|] == free;
  }

  lemma SnocCovered(ranges: seq<Range>, k: nat, x: int)
    requires k < |ranges|
    ensures Covered(ranges[..k + 1], x) <==> Covered(ranges[..k], x) || ranges[k].Has(x)
  {
    if Covered(ranges[..k], x) {
      var i :| 0 <= i < k && ranges[..k][i].Has(x);
      assert ranges[..k + 1][i].Has(x);
    }
    if ranges[k].Has(x) {
      assert ranges[..k + 1][k].Has(x);
    }
  }

  lemma JoinCovers(merged: seq<Range>, free: seq<Range>, k: nat, joined: Range, out: seq<Range>)
    requires k < |free| && |merged| > 0 && merged[|merged| - 1].End() == free[k].offset
    requires joined == Range(merged[|merged| - 1].offset, merged[|merged| - 1].count + free[k].count)
    requires forall x :: Covered(merged, x) <==> Covered(free[..k], x)
    requires out == merged[|merged| - 1 := joined]
    ensures forall x :: Covered(out, x) <==> Covered(free[..k + 1], x)
  {
    var n := |merged| - 1;
    forall x
      ensures Covered(out, x) <==> Covered(free[..k + 1], x)
    {
      SnocCovered(free, k, x);
      assert joined.Has(x) <==> merged[n].Has(x) || free[k].Has(x);
      if Covered(merged, x) {
        var i :| 0 <= i <= n && merged[i].Has(x);
        assert out[i].Has(x);
      }
      if free[k].Has(x) {
        assert out[n].Has(x);
      }
      if Covered(out, x) {
        var i :| 0 <= i <= n && out[i].Has(x);
        assert i < n ==> merged[i].Has(x);
      }
    }
  }

  lemma AppendCovers(merged: seq<Range>, free: seq<Range>, k: nat)
    requires k < |free|
    requires forall x :: Covered(merged, x) <==> Covered(free[..k], x)
    ensures forall x :: Covered(merged + [free[k]], x) <==> Covered(free[..k + 1], x)
  {
    var out := merged + [free[k]];
    forall x
      ensures Covered(out, x) <==> Covered(free[..k + 1], x)
    {
      SnocCovered(free, k, x);
      assert out[..|merged|] == merged && out[..|merged| + 1] == out;
      SnocCovered(out, |merged|, x);
    }
  }

  // ------------------------------------------------------------------ the allocator

  /** Blocks handed out and not returned: disjoint, and together with the free slots all of
      the array. */
  ghost predicate Partition(free: seq<Range>, owned: set<Range>, max: nat)
  {
    && (forall b :: b in owned ==> b.count > 0 && b.End() <= max)
    && (forall b, c, x :: b in owned && c in owned && b.Has(x) && c.Has(x) ==> b == c)
    && (forall x :: Covered(free, x) <==> 0 <= x < max && !Taken(owned, x))
  }

  ghost predicate Taken(owned: set<Range>, x: int)
  {
    exists b :: b in owned && b.Has(x)
  }

  lemma NoRunBefore(free: seq<Range>, i: nat, count: nat, o: nat)
    requires Canonical(free) && count > 0 && i <= |free|
    requires forall j :: 0 <= j < i ==> free[j].count < count
    requires i < |free| ==> o < free[i].offset
    ensures !FreeRun(free, o, count)
  {
    if FreeRun(free, o, count) {
      RunInOneRange(free, o, count);
    }
  }

  lemma FirstFit(free: seq<Range>, i: nat, count: nat)
    requires Canonical(free) && count > 0 && i < |free| && free[i].count >= count
    requires forall j :: 0 <= j < i ==> free[j].count < count
    ensures FreeRun(free, free[i].offset, count)
    ensures forall o: nat :: o < free[i].offset ==> !FreeRun(free, o, count)
  {
    forall x | free[i].offset <= x < free[i].offset + count
      ensures Covered(free, x)
    {
      assert free[i].Has(x);
    }
    forall o: nat | o < free[i].offset
      ensures !FreeRun(free, o, count)
    {
      NoRunBefore(free, i, count, o);
    }
  }

  lemma NoFit(free: seq<Range>, count: nat)
    requires Canonical(free) && count > 0 && forall j :: 0 <= j < |free| ==> free[j].count < count
    ensures forall o: nat :: !FreeRun(free, o, count)
  {
    forall o: nat
      ensures !FreeRun(free, o, count)
    {
      NoRunBefore(free, |free|, count, o);
    }
  }

  /** What `Alloc` makes of the range it found. */
  ghost predicate CarvedFrom(before: seq<Range>, i: nat, count: nat, after: seq<Range>)
    requires i < |before| && before[i].count >= count
  {
    if before[i].count == count then after == before[..i] + before[i + 1..]
    else after == before[i := Range(before[i].offset + count, before[i].count - count)]
  }

  lemma Carved(before: seq<Range>, i: nat, count: nat, after: seq<Range>)
    requires Canonical(before) && i < |before| && before[i].count >= count > 0 && CarvedFrom(before, i, count, after)
    ensures Canonical(after)
    ensures forall x :: Covered(after, x) <==> Covered(before, x) && !Range(before[i].offset, count).Has(x)
  {
    forall x
      ensures Covered(after, x) <==> Covered(before, x) && !Range(before[i].offset, count).Has(x)
    {
      CarvedCovers(before, i, count, after, x);
    }
  }

  lemma CarvedCovers(before: seq<Range>, i: nat, count: nat, after: seq<Range>, x: int)
    requires Canonical(before) && i < |before| && before[i].count >= count > 0 && CarvedFrom(before, i, count, after)
    ensures Covered(after, x) <==> Covered(before, x) && !Range(before[i].offset, count).Has(x)
  {
    hide Canonical;
    var whole := before[i].count == count;
    if Covered(before, x) && !Range(before[i].offset, count).Has(x) {
      var k :| 0 <= k < |before| && before[k].Has(x);
      var k' := if whole && k > i then k - 1 else k;
      assert after[k'].Has(x);
    }
    if Covered(after, x) {
      var k :| 0 <= k < |after| && after[k].Has(x);
      var k' := if whole && k >= i then k + 1 else k;
      assert before[k'].Has(x);
      if k' != i {
        OnlyOne(before, i, k', x);
      }
    }
  }

  lemma OnlyOne(free: seq<Range>, i: nat, k: nat, x: int)
    requires Canonical(free) && i < |free| && k < |free| && i != k && free[k].Has(x)
    ensures !free[i].Has(x)
  {
    if i < k {
      assert free[i].End() < free[k].offset;
    } else {
      assert free[k].End() < free[i].offset;
    }
  }

  lemma Claimed(before: seq<Range>, owned: set<Range>, max: nat, block: Range, after: seq<Range>)
    requires Partition(before, owned, max) && block.count > 0 && FreeRun(before, block.offset, block.count)
    requires forall x :: Covered(after, x) <==> Covered(before, x) && !block.Has(x)
    ensures block !in owned && Partition(after, owned + {block}, max)
  {
    hide Covered;
    assert block.Has(block.offset) && block.Has(block.End() - 1);
    assert Covered(before, block.offset) && Covered(before, block.End() - 1);
    forall b, x | b in owned && b.Has(x)
      ensures !block.Has(x)
    {
      assert Taken(owned, x);
    }
    assert block in owned ==> Taken(owned, block.offset);
    forall x
      ensures Taken(owned + {block}, x) <==> Taken(owned, x) || block.Has(x)
    {
      if Taken(owned, x) {
        var b :| b in owned && b.Has(x);
        assert b in owned + {block};
      }
      if block.Has(x) {
        assert block in owned + {block};
      }
    }
  }

  lemma OwnedIsNotFree(free: seq<Range>, owned: set<Range>, max: nat, block: Range)
    requires Partition(free, owned, max) && block in owned
    ensures block.count > 0 && forall x :: block.Has(x) ==> !Covered(free, x)
  {
    hide Covered;
    forall x | block.Has(x)
      ensures !Covered(free, x)
    {
      assert Taken(owned, x);
    }
  }

  lemma Returned(before: seq<Range>, owned: set<Range>, max: nat, block: Range, after: seq<Range>)
    requires Partition(before, owned, max) && block in owned
    requires forall x :: Covered(after, x) <==> Covered(before, x) || block.Has(x)
    ensures Partition(after, owned - {block}, max)
  {
    hide Covered;
    forall x
      ensures Taken(owned - {block}, x) <==> Taken(owned, x) && !block.Has(x)
    {
      if Taken(owned, x) && !block.Has(x) {
        var b :| b in owned && b.Has(x);
        assert b in owned - {block};
      }
      if Taken(owned - {block}, x) {
        var b :| b in owned - {block} && b.Has(x);
        assert b in owned;
      }
    }
  }

  /** `count` slots from `o` on are in the array and not handed out. */
  ghost predicate Fits(owned: set<Range>, max: nat, o: nat, count: nat)
  {
    o + count <= max && forall x :: o <= x < o + count ==> !Taken(owned, x)
  }

  function Room(count: nat): nat
  {
    if count == 0 then 1 else count
  }

  /** What `Alloc` returns, by the blocks handed out: the least offset with room, or nothing
      exactly when there is none.  Asking for nothing still looks for one slot. */
  ghost predicate FirstFitIs(owned: set<Range>, max: nat, count: nat, r: Option<nat>)
  {
    match r
    case None => forall o: nat :: !Fits(owned, max, o, Room(count))
    case Some(offset) =>
      && Fits(owned, max, offset, Room(count))
      && forall o: nat :: o < offset ==> !Fits(owned, max, o, Room(count))
  }

  lemma FitsIffFree(free: seq<Range>, owned: set<Range>, max: nat, o: nat, count: nat)
    requires Partition(free, owned, max) && count > 0
    ensures Fits(owned, max, o, count) <==> FreeRun(free, o, count)
  {
    hide Covered, Taken, Range.Has;
    if FreeRun(free, o, count) {
      assert Covered(free, o + count - 1);
    }
    if Fits(owned, max, o, count) {
      assert forall x :: o <= x < o + count ==> Covered(free, x);
    }
  }

  lemma FirstFitByOwned(free: seq<Range>, owned: set<Range>, max: nat, count: nat, r: Option<nat>)
    requires Partition(free, owned, max)
    requires match r
             case None => forall o: nat :: !FreeRun(free, o, Room(count))
             case Some(offset) =>
               && FreeRun(free, offset, Room(count))
               && forall o: nat :: o < offset ==> !FreeRun(free, o, Room(count))
    ensures FirstFitIs(owned, max, count, r)
  {
    hide Partition, FreeRun, Fits;
    forall o: nat
      ensures Fits(owned, max, o, Room(count)) <==> FreeRun(free, o, Room(count))
    {
      FitsIffFree(free, owned, max, o, Room(count));
    }
  }

  /** An allocator without slots starts with one empty range. */
  ghost predicate NoSlots(free: seq<Range>, max: nat)
  {
    max == 0 && free == [Range(0, 0)]
  }

  lemma NothingFits(free: seq<Range>, owned: set<Range>, count: nat)
    requires Partition(free, owned, 0)
    ensures FirstFitIs(owned, 0, count, None)
    ensures count > 0 ==> forall o: nat :: !FreeRun(free, o, count)
  {
    hide Covered, Taken;
    assert forall o: nat :: count > 0 && FreeRun(free, o, count) ==> Covered(free, o);
  }

  lemma NoneToGive(free: seq<Range>, owned: set<Range>)
    requires (Canonical(free) || NoSlots(free, 0)) && Partition(free, owned, 0) && free != []
    ensures free == [Range(0, 0)] && Partition([], owned, 0)
  {
    if Canonical(free) {
      assert free[0].Has(free[0].offset);
      assert Covered(free, free[0].offset);
    }
  }

  class SlotAllocator {
    const max: nat
    var free: seq<Range>
    ghost var owned: set<Range>

    ghost predicate Valid()
      reads this
    {
      (Canonical(free) || NoSlots(free, max)) && Partition(free, owned, max)
    }

    constructor (max: nat)
      ensures Valid() && this.max == max && owned == {}
    {
      this.max := max;
      free := [Range(0, max)];
      owned := {};
      new;
      assert forall x :: 0 <= x < max ==> free[0].Has(x);
    }

    /** First fit: the block at the least offset where `count` slots are free, and an error
        exactly when no such run exists.  Asking for nothing changes nothing; it fails only
        when no slot is free.  (Without any slots, asking for nothing works once.) */
    method Alloc(count: nat) returns (r: Option<nat>)
      requires Valid()
      modifies this
      ensures Valid()
      ensures max > 0 || count > 0 ==> FirstFitIs(old(owned), max, count, r)
      ensures count == 0 || r.None? ==> owned == old(owned) && (max > 0 || r.None? ==> free == old(free))
      ensures count == 0 ==> (r.None? <==> old(free) == [])
      ensures count > 0 && r.None? ==> forall o: nat :: !FreeRun(free, o, count)
      ensures count > 0 && r.Some? ==>
                owned == old(owned) + {Range(r.value, count)} && Range(r.value, count) !in old(owned)
      ensures count > 0 && r.Some? ==>
                FreeRun(old(free), r.value, count) && forall o: nat :: o < r.value ==> !FreeRun(old(free), o, count)
      ensures count > 0 && r.Some? ==>
                forall x :: Covered(free, x) <==> Covered(old(free), x) && !Range(r.value, count).Has(x)
    {
      hide Covered, Taken, FreeRun, Range.Has, FirstFitIs;
      for i := 0 to |free|
        invariant free == old(free) && owned == old(owned)
        invariant forall j :: 0 <= j < i ==> free[j].count < count
        invariant count == 0 ==> i == 0
      {
        var range := free[i];
        if range.count >= count {
          ghost var before := free;
          if range.count == count {
            free := free[..i] + free[i + 1..];
          } else {
            free := free[i := Range(range.offset + count, range.count - count)];
          }
          if max == 0 {
            NoneToGive(before, owned);
          } else {
            FirstFit(before, i, Room(count));
            FirstFitByOwned(before, owned, max, count, Some(range.offset));
            if count > 0 {
              ghost var block := Range(range.offset, count);
              Carved(before, i, count, free);
              Claimed(before, owned, max, block, free);
              owned := owned + {block};
            } else {
              assert free == before;
            }
          }
          return Some(range.offset);
        }
      }
      if max == 0 {
        NothingFits(free, owned, count);
      } else {
        NoFit(free, Room(count));
        FirstFitByOwned(free, owned, max, count, None);
      }
      return None;
    }

    /** Returns a block that was handed out: its slots, and no others, become free. */
    method Free(block: Range)
      requires Valid() && block in owned
      modifies this
      ensures Valid()
      ensures owned == old(owned) - {block}
      ensures forall x :: Covered(free, x) <==> Covered(old(free), x) || block.Has(x)
    {
      hide Covered, Taken, Range.Has, Ordered, Inserted;
      ghost var before := free;
      OwnedIsNotFree(free, owned, max, block);
      InsertedOrdered(free, block);
      forall x
        ensures Covered(Inserted(before, block), x) <==> Covered(before, x) || block.Has(x)
      {
        InsertedCovers(before, block, x);
      }
      free := Inserted(free, block);
      free := Merge(free);
      Returned(before, owned, max, block, free);
      owned := owned - {block};
    }
  }

  /** Freeing what was just allocated restores the very same free list. */
  method AllocThenFree(a: SlotAllocator, count: nat) returns (r: Option<nat>)
    requires a.Valid() && count > 0
    modifies a
    ensures a.Valid() && a.free == old(a.free) && a.owned == old(a.owned)
  {
    hide Covered, Partition, FreeRun;
    ghost var before := a.free;
    r := a.Alloc(count);
    if r.Some? {
      ghost var middle := a.free;
      ghost var block := Range(r.value, count);
      a.Free(Range(r.value, count));
      forall x
        ensures Covered(a.free, x) <==> Covered(before, x)
      {
        RunCovers(before, block, x);
      }
      CanonicalUnique(a.free, before);
    }
  }

  lemma RunCovers(free: seq<Range>, block: Range, x: int)
    requires FreeRun(free, block.offset, block.count)
    ensures block.Has(x) ==> Covered(free, x)
  {}
}
