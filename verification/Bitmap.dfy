/**
 The compact bitset behind every address pool (internal/ipam/bitmap.go): an array of
 64-bit words, one bit per address.  The words are related to the finite set of indices
 they denote, and every operation is specified on that set.
 */
module Bitmaps {
  import opened Prelude

  /** The word with one bit set. */
  function Mask(bit: bv6): bv64
  {
    1 << bit
  }

  /** Whether bit `bit` of a word is set. */
  predicate BitOf(w: bv64, bit: bv6)
  {
    w & Mask(bit) != 0
  }

  function WithBit(w: bv64, bit: bv6): bv64
  {
    w | Mask(bit)
  }

  function WithoutBit(w: bv64, bit: bv6): bv64
  {
    w & !Mask(bit)
  }

  const ALL_ONES: bv64 := 0xFFFF_FFFF_FFFF_FFFF

  /** The position of index `i` within its word. */
  function Bit(i: nat): bv6
  {
    (i % 64) as bv6
  }

  /** Whether index `i` is set in a list of words. */
  predicate Test(words: seq<bv64>, i: nat)
    requires i < 64 * |words|
  {
    BitOf(words[i / 64], Bit(i))
  }

  /** The indices below `size` that the words denote. */
  ghost function Members(words: seq<bv64>, size: nat): set<nat>
    requires size <= 64 * |words|
  {
    set i | i in Below(size) && Test(words, i)
  }

  // ------------------------------------------------------------------ word-level facts

  lemma SetSame(w: bv64, b: bv6)
    ensures BitOf(WithBit(w, b), b)
  {}

  lemma SetOther(w: bv64, b: bv6, c: bv6)
    requires b != c
    ensures WithBit(w, b) & Mask(c) == w & Mask(c)
  {}

  lemma ClearSame(w: bv64, b: bv6)
    ensures !BitOf(WithoutBit(w, b), b)
  {}

  lemma ClearOther(w: bv64, b: bv6, c: bv6)
    requires b != c
    ensures WithoutBit(w, b) & Mask(c) == w & Mask(c)
  {}

  /** `WithBit` and `WithoutBit` change the named bit and no other. */
  lemma BitUpdates(w: bv64, b: bv6, c: bv6)
    ensures BitOf(WithBit(w, b), c) <==> b == c || BitOf(w, c)
    ensures BitOf(WithoutBit(w, b), c) <==> b != c && BitOf(w, c)
  {
    hide Mask, WithBit, WithoutBit;
    if b == c {
      SetSame(w, b);
      ClearSame(w, b);
    } else {
      SetOther(w, b, c);
      ClearOther(w, b, c);
    }
  }

  lemma AllOnes(bit: bv6)
    ensures BitOf(ALL_ONES, bit)
  {}

  lemma BitValue(i: nat)
    ensures Bit(i) as nat == i % 64
  {}

  lemma SameBitForward(i: nat, j: nat)
    requires i % 64 == j % 64
    ensures Bit(i) == Bit(j)
  {}

  lemma SameBit(i: nat, j: nat)
    ensures i % 64 == j % 64 <==> Bit(i) == Bit(j)
  {
    hide Bit;
    BitValue(i);
    BitValue(j);
    if i % 64 == j % 64 {
      SameBitForward(i, j);
    }
  }

  /** Updating one word changes membership of exactly one index. */
  lemma UpdateOneBit(words: seq<bv64>, idx: nat, i: nat)
    requires idx < 64 * |words| && i < 64 * |words|
    ensures Test(words[idx / 64 := WithBit(words[idx / 64], Bit(idx))], i) <==> i == idx || Test(words, i)
    ensures Test(words[idx / 64 := WithoutBit(words[idx / 64], Bit(idx))], i) <==> i != idx && Test(words, i)
  {
    hide BitOf, WithBit, WithoutBit, Bit;
    SameBit(idx, i);
    BitUpdates(words[idx / 64], Bit(idx), Bit(i));
  }

  class Bitmap {
    const words: array<bv64>
    const size: nat

    ghost predicate Valid()
    {
      words.Length == (size + 63) / 64
    }

    /** The set of allocated indices. */
    ghost function Contents(): (r: set<nat>)
      requires Valid()
      reads words
      ensures r <= Below(size)
    {
      Members(words[..], size)
    }

    constructor (size: nat)
      ensures Valid() && this.size == size && fresh(words)
      ensures Contents() == {}
    {
      this.size := size;
      words := new bv64[(size + 63) / 64](_ => 0);
    }

    /** Marks `idx` as allocated: the set gains exactly that index. */
    method Set(idx: nat)
      requires Valid() && idx < size
      modifies words
      ensures Contents() == old(Contents()) + {idx}
    {
      hide BitOf, WithBit, WithoutBit, Bit;
      ghost var before := words[..];
      var word, bit := idx / 64, Bit(idx);
      words[word] := WithBit(words[word], bit);
      assert words[..] == before[word := WithBit(before[word], bit)];
      forall i: nat | i < size
        ensures Test(words[..], i) <==> i == idx || Test(before, i)
      {
        UpdateOneBit(before, idx, i);
      }
    }

    /** Marks `idx` as free: the set loses exactly that index. */
    method Clear(idx: nat)
      requires Valid() && idx < size
      modifies words
      ensures Contents() == old(Contents()) - {idx}
    {
      hide BitOf, WithBit, WithoutBit, Bit;
      ghost var before := words[..];
      var word, bit := idx / 64, Bit(idx);
      words[word] := WithoutBit(words[word], bit);
      assert words[..] == before[word := WithoutBit(before[word], bit)];
      forall i: nat | i < size
        ensures Test(words[..], i) <==> i != idx && Test(before, i)
      {
        UpdateOneBit(before, idx, i);
      }
    }

    method Get(idx: nat) returns (taken: bool)
      requires Valid() && idx < size
      ensures taken <==> idx in Contents()
    {
      var word, bit := idx / 64, Bit(idx);
      taken := BitOf(words[word], bit);
      assert taken == Test(words[..], idx);
    }

    /** The least free index, or -1 exactly when every index below `size` is allocated,
        whether or not `size` is a multiple of the word width. */
    method FindFree() returns (r: int)
      requires Valid()
      ensures -1 <= r < size
      ensures r >= 0 ==> r !in Contents() && forall j: nat :: j < r ==> j in Contents()
      ensures r == -1 <==> Contents() == Below(size)
    {
      hide BitOf, Bit, Below;
      for i := 0 to words.Length
        invariant forall j: nat :: j < 64 * i && j < size ==> j in Contents()
      {
        var word := words[i];
        if word == ALL_ONES {
          forall j: nat | 64 * i <= j < 64 * (i + 1) && j < size
            ensures j in Contents()
          {
            AllOnes(Bit(j));
            assert Test(words[..], j);
          }
          continue;
        }
        for bit := 0 to 64
          invariant forall j: nat :: j < 64 * i + bit && j < size ==> j in Contents()
        {
          var idx := i * 64 + bit;
          if idx >= size {
            assert Contents() == Below(size);
            return -1;
          }
          assert idx % 64 == bit;
          SameBit(idx, bit);
          assert Test(words[..], idx) == BitOf(word, Bit(bit));
          if !BitOf(word, Bit(bit)) {
            return idx;
          }
        }
      }
      assert Contents() == Below(size);
      return -1;
    }
  }
}
