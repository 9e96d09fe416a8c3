/**
 Arithmetic of a cyclic probe sequence `pos, pos + skip, pos + 2 skip, ...` modulo the table
 size: it visits every slot exactly when skip and size have no common divisor.
 */
module Probing {
  import opened Prelude

  predicate Divides(d: nat, n: nat)
    requires d > 0
  {
    n % d == 0
  }

  ghost predicate Coprime(a: nat, b: nat)
  {
    forall d: nat :: d > 1 ==> !(Divides(d, a) && Divides(d, b))
  }

  ghost predicate Prime(p: nat)
  {
    p >= 2 && forall d: nat :: 2 <= d < p ==> !Divides(d, p)
  }

  function Slot(pos: nat, skip: nat, k: nat, size: nat): (r: nat)
    requires size > 0
    ensures r < size
  {
    (pos + k * skip) % size
  }

  // ------------------------------------------------------------------ arithmetic

  lemma MultipleIsZero(size: nat, c: int)
    requires size > 0
    ensures (size * c) % size == 0
  {
    DivModUnique(size * c, size, c, 0);
  }

  lemma DivModUnique(a: int, n: nat, q: int, r: int)
    requires n > 0 && a == n * q + r && 0 <= r < n
    ensures a / n == q && a % n == r
  {
    var d := a / n - q;
    assert a == n * (a / n) + a % n;
    assert n * d == r - a % n by {
      assert n * d == n * (a / n) - n * q;
    }
    Scaled(n, d);
  }

  lemma Scaled(n: int, d: int)
    requires n >= 0
    ensures d >= 1 ==> n * d >= n
    ensures d <= -1 ==> n * d <= -n
    ensures d <= 1 ==> n * d <= n
  {
    if d <= -1 {
      assert n * -d >= n;
      assert n * -d == -(n * d);
    }
  }

  lemma ZeroIsMultiple(a: int, n: nat)
    requires n > 0 && a % n == 0
    ensures a == n * (a / n)
  {}

  /** Equal remainders differ by a multiple. */
  lemma SameRemainder(a: nat, b: nat, n: nat)
    requires n > 0 && a <= b && a % n == b % n
    ensures (b - a) % n == 0
  {
    var c := b / n - a / n;
    assert a == n * (a / n) + a % n && b == n * (b / n) + b % n;
    assert b - a == n * c by {
      assert n * c == n * (b / n) - n * (a / n);
    }
    MultipleIsZero(n, c);
  }

  /** No proper multiple of a coprime skip is a whole number of turns. */
  lemma {:induction false} NoEarlyReturn(size: nat, skip: nat, m: nat)
    requires 0 < m < size && Coprime(skip, size)
    ensures (m * skip) % size != 0
    decreases m
  {
    if (m * skip) % size == 0 {
      var t, q, r := (m * skip) / size, size / m, size % m;
      ZeroIsMultiple(m * skip, size);
      assert size == m * q + r;
      if r == 0 {
        CommonDivisor(size, skip, m, q, t);
      } else {
        assert r * skip == size * (skip - q * t) by { Remainder(size, skip, m, q, r, t); }
        MultipleIsZero(size, skip - q * t);
        NoEarlyReturn(size, skip, r);
      }
    }
  }

  lemma Remainder(size: nat, skip: nat, m: nat, q: nat, r: nat, t: int)
    requires size == m * q + r && m * skip == size * t
    ensures r * skip == size * (skip - q * t)
  {
    calc {
      r * skip;
      (size - m * q) * skip;
      size * skip - (m * q) * skip;
      { assert (m * q) * skip == q * (m * skip); }
      size * skip - q * (size * t);
      { assert q * (size * t) == size * (q * t); }
      size * skip - size * (q * t);
      size * (skip - q * t);
    }
  }

  lemma CommonDivisor(size: nat, skip: nat, m: nat, q: nat, t: int)
    requires 0 < m < size && size == m * q && m * skip == size * t
    ensures !Coprime(skip, size)
  {
    Scaled(m, q);
    assert q > 1;
    assert m * skip == m * (q * t) by { assert (m * q) * t == m * (q * t); }
    Cancel(m, skip, q * t);
    MultipleIsZero(q, t);
    MultipleIsZero(q, m);
    assert q * m == m * q;
    assert Divides(q, skip) && Divides(q, size);
  }

  lemma Cancel(m: nat, a: int, b: int)
    requires m > 0 && m * a == m * b
    ensures a == b
  {
    assert m * (a - b) == m * a - m * b;
    Scaled(m, a - b);
  }

  // ------------------------------------------------------------------ covering the table

  lemma SlotsDistinct(pos: nat, skip: nat, j: nat, k: nat, size: nat)
    requires Coprime(skip, size) && j < k < size
    ensures Slot(pos, skip, j, size) != Slot(pos, skip, k, size)
  {
    if Slot(pos, skip, j, size) == Slot(pos, skip, k, size) {
      assert j * skip <= k * skip;
      SameRemainder(pos + j * skip, pos + k * skip, size);
      assert k * skip - j * skip == (k - j) * skip;
      NoEarlyReturn(size, skip, k - j);
    }
  }

  ghost function Visited(pos: nat, skip: nat, k: nat, size: nat): (r: set<nat>)
    requires size > 0 && k <= size && Coprime(skip, size)
    ensures forall x :: x in r <==> exists j: nat :: j < k && x == Slot(pos, skip, j, size)
    ensures |r| == k
  {
    if k == 0 then {}
    else
      assert forall j: nat :: j < k - 1 ==> Slot(pos, skip, j, size) != Slot(pos, skip, k - 1, size) by {
        forall j: nat | j < k - 1
          ensures Slot(pos, skip, j, size) != Slot(pos, skip, k - 1, size)
        {
          SlotsDistinct(pos, skip, j, k - 1, size);
        }
      }
      Visited(pos, skip, k - 1, size) + {Slot(pos, skip, k - 1, size)}
  }

  lemma EqualBySize<T>(a: set<T>, b: set<T>)
    requires a <= b && |a| == |b|
    ensures a == b
  {
    assert b == a + (b - a);
    assert |b - a| == 0;
  }

  /** With a coprime skip, every slot is met within one round. */
  lemma Reaches(pos: nat, skip: nat, size: nat, target: nat)
    requires size > 0 && target < size && Coprime(skip, size)
    ensures exists k: nat :: k < size && Slot(pos, skip, k, size) == target
  {
    var all := Visited(pos, skip, size, size);
    assert all <= Below(size);
    EqualBySize(all, Below(size));
    assert target in all;
  }

  ghost predicate Meets(pos: nat, skip: nat, size: nat, target: nat)
    requires size > 0
  {
    exists k: nat :: Slot(pos, skip, k, size) == target
  }

  /** With a common divisor some slot is never met, however long the probe goes on; so the
      probe reaches every slot exactly when skip and size are coprime. */
  lemma ReachesAllIffCoprime(pos: nat, skip: nat, size: nat)
    requires size > 0
    ensures Coprime(skip, size) <==> forall target: nat :: target < size ==> Meets(pos, skip, size, target)
  {
    if Coprime(skip, size) {
      forall target: nat | target < size
        ensures Meets(pos, skip, size, target)
      {
        Reaches(pos, skip, size, target);
      }
    } else {
      var d: nat :| d > 1 && Divides(d, skip) && Divides(d, size);
      var target := (pos + 1) % size;
      forall k: nat
        ensures Slot(pos, skip, k, size) != target
      {
        StaysInClass(pos, skip, k, size, d);
        StaysInClass(pos + 1, skip, 0, size, d);
        NextClass(pos, d);
      }
      assert !Meets(pos, skip, size, target);
    }
  }

  lemma StaysInClass(pos: nat, skip: nat, k: nat, size: nat, d: nat)
    requires size > 0 && d > 1 && Divides(d, skip) && Divides(d, size)
    ensures Slot(pos, skip, k, size) % d == pos % d
  {
    var a := pos + k * skip;
    ZeroIsMultiple(skip, d);
    ZeroIsMultiple(size, d);
    var c := k * (skip / d) - (size / d) * (a / size);
    assert a == size * (a / size) + a % size;
    assert k * skip == d * (k * (skip / d)) by { assert k * (d * (skip / d)) == d * (k * (skip / d)); }
    assert size * (a / size) == d * ((size / d) * (a / size)) by {
      assert (d * (size / d)) * (a / size) == d * ((size / d) * (a / size));
    }
    assert a % size == pos + d * c by {
      assert d * c == d * (k * (skip / d)) - d * ((size / d) * (a / size));
    }
    assert pos == d * (pos / d) + pos % d;
    assert a % size == d * (pos / d + c) + pos % d by { assert d * (pos / d + c) == d * (pos / d) + d * c; }
    DivModUnique(a % size, d, pos / d + c, pos % d);
  }

  lemma NextClass(pos: nat, d: nat)
    requires d > 1
    ensures (pos + 1) % d != pos % d
  {
    var q, r := pos / d, pos % d;
    assert pos == d * q + r;
    if r + 1 < d {
      DivModUnique(pos + 1, d, q, r + 1);
    } else {
      assert pos + 1 == d * (q + 1);
      DivModUnique(pos + 1, d, q + 1, 0);
    }
  }

  // ------------------------------------------------------------------ primes

  lemma PrimeIsCoprime(p: nat, skip: nat)
    requires Prime(p) && 1 <= skip < p
    ensures Coprime(skip, p)
  {
    forall d: nat | d > 1
      ensures !(Divides(d, skip) && Divides(d, p))
    {
      if d >= p {
        DivModUnique(skip, d, 0, skip);
      }
    }
  }

  /** No number from 2 to `d` divides 65537. */
  predicate NoDivisorUpTo(d: nat)
  {
    d < 2 || (65537 % d != 0 && NoDivisorUpTo(d - 1))
  }

  lemma {:induction false} NoDivisorAt(limit: nat, d: nat)
    requires NoDivisorUpTo(limit) && 2 <= d <= limit
    ensures 65537 % d != 0
  {
    if d < limit {
      NoDivisorAt(limit - 1, d);
    }
  }

  lemma TrialTo64()
    ensures NoDivisorUpTo(64)
  {
    assert NoDivisorUpTo(8);
    assert NoDivisorUpTo(16);
    assert NoDivisorUpTo(24);
    assert NoDivisorUpTo(32);
    assert NoDivisorUpTo(40);
    assert NoDivisorUpTo(48);
    assert NoDivisorUpTo(56);
  }

  lemma TrialTo128()
    ensures NoDivisorUpTo(128)
  {
    TrialTo64();
    assert NoDivisorUpTo(72);
    assert NoDivisorUpTo(80);
    assert NoDivisorUpTo(88);
    assert NoDivisorUpTo(96);
    assert NoDivisorUpTo(104);
    assert NoDivisorUpTo(112);
    assert NoDivisorUpTo(120);
  }

  lemma TrialTo192()
    ensures NoDivisorUpTo(192)
  {
    TrialTo128();
    assert NoDivisorUpTo(136);
    assert NoDivisorUpTo(144);
    assert NoDivisorUpTo(152);
    assert NoDivisorUpTo(160);
    assert NoDivisorUpTo(168);
    assert NoDivisorUpTo(176);
    assert NoDivisorUpTo(184);
  }

  lemma TrialTo256()
    ensures NoDivisorUpTo(256)
  {
    TrialTo192();
    assert NoDivisorUpTo(200);
    assert NoDivisorUpTo(208);
    assert NoDivisorUpTo(216);
    assert NoDivisorUpTo(224);
    assert NoDivisorUpTo(232);
    assert NoDivisorUpTo(240);
    assert NoDivisorUpTo(248);
  }

  /** The table size used for every service is prime. */
  lemma MaglevSizeIsPrime()
    ensures Prime(65537)
  {
    TrialTo256();
    forall d: nat | 2 <= d < 65537
      ensures !Divides(d, 65537)
    {
      if d <= 256 {
        NoDivisorAt(256, d);
      } else if Divides(d, 65537) {
        var e := 65537 / d;
        ZeroIsMultiple(65537, d);
        MultipleIsZero(e, d);
        assert e * d == 65537;
        NoDivisorAt(256, e);
      }
    }
  }
}
