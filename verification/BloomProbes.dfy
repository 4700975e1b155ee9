/** When the probes of a term are different positions. The comment in bloom.rs trusts an odd step for that. */
module BloomProbes {
  import opened Bloom

  /** Whatever the two hashes are, the first `k` positions are different ones. */
  ghost predicate ProbesDistinct(k: nat, m: nat)
    requires m > 0
  {
    forall h1: nat, h2: nat, i: nat, j: nat :: h1 < WORD && h2 < WORD && i < j < k ==>
      ProbeAt(h1, h2, i, m) != ProbeAt(h1, h2, j, m)
  }

  // ----- divisibility by a power of two, one halving at a time

  /** `2^n` divides `x`. */
  predicate Halves(x: int, n: nat)
    decreases n
  {
    n == 0 || (x % 2 == 0 && Halves(x / 2, n - 1))
  }

  /** The exponent of the largest power of two that divides `m`. */
  function Evenness(m: nat): nat
    requires m > 0
  {
    if m % 2 == 1 then 0 else 1 + Evenness(m / 2)
  }

  function OddPart(m: nat): (p: nat)
    requires m > 0
    ensures p % 2 == 1 && p <= m
  {
    if m % 2 == 1 then m else OddPart(m / 2)
  }

  lemma Doubled(c: int, x: int)
    ensures 2 * c * x == 2 * (c * x)
  {
  }

  lemma {:induction false} TwoTimesOdd(m: nat)
    requires m > 0
    ensures m == Power2(Evenness(m)) * OddPart(m)
  {
    if m % 2 == 0 {
      TwoTimesOdd(m / 2);
      Doubled(Power2(Evenness(m / 2)), OddPart(m / 2));
    }
  }

  lemma {:induction false} HalvesDifference(x: int, y: int, n: nat)
    requires Halves(x, n) && Halves(y, n)
    ensures Halves(x - y, n)
    decreases n
  {
    if n > 0 { HalvesDifference(x / 2, y / 2, n - 1); }
  }

  lemma {:induction false} HalvesMultiple(x: int, q: int, n: nat)
    requires Halves(x, n)
    ensures Halves(x * q, n)
    decreases n
  {
    if n > 0 {
      Doubled(x / 2, q);
      HalvesMultiple(x / 2, q, n - 1);
    }
  }

  lemma {:induction false} HalvesSelf(m: nat, n: nat)
    requires m > 0 && n <= Evenness(m)
    ensures Halves(m, n)
  {
    if n > 0 { HalvesSelf(m / 2, n - 1); }
  }

  /** An odd factor has no part in it. */
  lemma {:induction false} OddFactor(d: int, s: int, n: nat)
    requires s % 2 == 1 && Halves(d * s, n)
    ensures Halves(d, n)
    decreases n
  {
    if n > 0 {
      OddTimes(d, s);
      Doubled(d / 2, s);
      OddFactor(d / 2, s, n - 1);
    }
  }

  lemma TimesOdd(d: int, t: int)
    ensures d * (2 * t + 1) == 2 * (d * t) + d
  {
  }

  lemma SameParity(x: int, h: int, d: int)
    requires x == 2 * h + d
    ensures x % 2 == d % 2
  {
  }

  lemma OddTimes(d: int, s: int)
    requires s % 2 == 1
    ensures d * s % 2 == d % 2
  {
    var t: int := s / 2;
    assert s == 2 * t + 1;
    assert d * s == 2 * (d * t) + d by { TimesOdd(d, t); }
    SameParity(d * s, d * t, d);
  }

  lemma {:induction false} SmallDoesNotHalve(d: nat, n: nat)
    requires 0 < d < Power2(n)
    ensures !Halves(d, n)
  {
    if n > 0 && d % 2 == 0 { SmallDoesNotHalve(d / 2, n - 1); }
  }

  // ----- the word size

  lemma {:induction false} Power2Sum(a: nat, b: nat)
    ensures Power2(a + b) == Power2(a) * Power2(b)
  {
    if a > 0 {
      Power2Sum(a - 1, b);
      Doubled(Power2(a - 1), Power2(b));
    }
  }

  lemma {:induction false} Power2Evenness(n: nat)
    ensures Power2(n) > 0 && Evenness(Power2(n)) == n
  {
    if n > 0 { Power2Evenness(n - 1); }
  }

  lemma WordIsPower2()
    ensures Power2(64) == WORD
  {
    assert Power2(4) == 16;
    Power2Sum(4, 4);
    Power2Sum(8, 8);
    Power2Sum(16, 16);
    Power2Sum(32, 32);
  }

  lemma {:induction false} Power2Bound(n: nat, b: nat)
    requires Power2(n) <= Power2(b)
    ensures n <= b
  {
    if n > 0 {
      Power2Evenness(n - 1);
      if b > 0 { Power2Bound(n - 1, b - 1); }
    }
  }

  /** No table of at most `2^64` bits is more even than the word. */
  lemma WordHalves(m: nat)
    requires 0 < m <= WORD
    ensures Halves(WORD, Evenness(m)) && Halves(m, Evenness(m)) && Power2(Evenness(m)) <= m
  {
    var n := Evenness(m);
    TwoTimesOdd(m);
    Power2Evenness(n);
    AtLeastFactor(Power2(n), OddPart(m));
    WordIsPower2();
    Power2Bound(n, 64);
    Power2Evenness(64);
    HalvesSelf(WORD, n);
    HalvesSelf(m, n);
  }

  lemma AtLeastFactor(e: nat, p: nat)
    requires p > 0
    ensures e <= e * p
  {
  }

  // ----- the exact condition

  /** Two numbers that meet after both reductions differ by multiples of the two moduli. */
  lemma MeetingDiffers(x: nat, y: nat, m: nat) returns (a: int, b: int)
    requires m > 0 && x % WORD % m == y % WORD % m
    ensures y - x == WORD * a - m * b
  {
    var u, v := x % WORD, y % WORD;
    a, b := y / WORD - x / WORD, u / m - v / m;
    Division(u, m);
    Division(v, m);
    Distributes(m, u / m, v / m);
  }

  lemma Division(u: nat, m: nat)
    requires m > 0
    ensures u == m * (u / m) + u % m
  {
  }

  lemma Distributes(m: int, a: int, b: int)
    ensures m * (a - b) == m * a - m * b
  {
  }

  /** An odd step, taken fewer times than the power of two has, does not come back. */
  lemma StepsDiffer(x: nat, y: nat, d: nat, s: nat, m: nat)
    requires 0 < m <= WORD && s % 2 == 1 && 0 < d < Power2(Evenness(m)) && y - x == d * s
    ensures x % WORD % m != y % WORD % m
  {
    if x % WORD % m == y % WORD % m {
      var n := Evenness(m);
      var a, b := MeetingDiffers(x, y, m);
      WordHalves(m);
      HalvesMultiple(WORD, a, n);
      HalvesMultiple(m, b, n);
      HalvesDifference(WORD * a, m * b, n);
      OddFactor(d, s, n);
      SmallDoesNotHalve(d, n);
    }
  }

  lemma ProbeIs(h1: nat, h2: nat, i: nat, v: nat, m: nat)
    requires m > 0 && v == h1 + i * Step(h2)
    ensures ProbeAt(h1, h2, i, m) == v % WORD % m
  {
  }

  lemma ProbesDiffer(h1: nat, h2: nat, i: nat, j: nat, m: nat)
    requires 0 < m <= WORD && i < j && j - i < Power2(Evenness(m))
    ensures ProbeAt(h1, h2, i, m) != ProbeAt(h1, h2, j, m)
  {
    var s := Step(h2);
    var x: nat, y: nat := h1 + i * s, h1 + j * s;
    assert y - x == (j - i) * s by { Distributes(s, j, i); }
    assert x % WORD % m != y % WORD % m by { StepsDiffer(x, y, j - i, s, m); }
    assert ProbeAt(h1, h2, i, m) == x % WORD % m by { ProbeIs(h1, h2, i, x, m); }
    assert ProbeAt(h1, h2, j, m) == y % WORD % m by { ProbeIs(h1, h2, j, y, m); }
  }

  lemma SelfModulo(m: nat)
    requires m > 0
    ensures m % m == 0
  {
  }

  lemma SmallModulo(m: nat)
    requires m < WORD
    ensures m % WORD == m
  {
  }

  /** After as many odd steps as the power of two has, the table is gone round. */
  lemma FullTurn(e: nat, p: nat, m: nat)
    requires p % 2 == 1 && 0 < m <= WORD && m == e * p
    ensures ProbeAt(0, p, e, m) == 0
  {
    assert ProbeAt(0, p, e, m) == m % WORD % m by { ProbeIs(0, p, e, m, m); }
    if m < WORD {
      SmallModulo(m);
      SelfModulo(m);
    }
  }

  lemma StartsAtZero(p: nat, m: nat)
    requires m > 0
    ensures ProbeAt(0, p, 0, m) == 0
  {
    ProbeIs(0, p, 0, 0, m);
  }

  lemma TooMany(k: nat, e: nat, p: nat, m: nat)
    requires p % 2 == 1 && 0 < m <= WORD && m == e * p && p < WORD && 0 < e < k
    ensures !ProbesDistinct(k, m)
  {
    FullTurn(e, p, m);
    StartsAtZero(p, m);
    assert 0 < WORD && ProbeAt(0, p, 0, m) == ProbeAt(0, p, e, m);
  }

  lemma FewEnough(k: nat, m: nat)
    requires 0 < m <= WORD && k <= Power2(Evenness(m))
    ensures ProbesDistinct(k, m)
  {
    forall h1: nat, h2: nat, i: nat, j: nat | h1 < WORD && h2 < WORD && i < j < k
      ensures ProbeAt(h1, h2, i, m) != ProbeAt(h1, h2, j, m)
    {
      ProbesDiffer(h1, h2, i, j, m);
    }
  }

  /** The probes of a term are different positions for all hash values exactly when there are no more of them
      than the largest power of two that divides the table size: an odd step alone does not do it. */
  lemma ProbesDistinctIff(k: nat, m: nat)
    requires 0 < m <= WORD
    ensures ProbesDistinct(k, m) <==> k <= Power2(Evenness(m))
  {
    if k <= Power2(Evenness(m)) {
      FewEnough(k, m);
    } else {
      TwoTimesOdd(m);
      Power2Evenness(Evenness(m));
      TooMany(k, Power2(Evenness(m)), OddPart(m), m);
    }
  }

  /** As many different probes as positions: exactly when the table size is a power of two. */
  lemma AllProbesDistinctIff(m: nat)
    requires 0 < m <= WORD
    ensures ProbesDistinct(m, m) <==> exists n :: m == Power2(n)
  {
    ProbesDistinctIff(m, m);
    WordHalves(m);
    if n: nat :| m == Power2(n) {
      Power2Evenness(n);
    }
  }

  /** The smallest filter of the search engine, 9586 bits with seven probes for a thousand names, is not such a
      table. */
  lemma EngineProbesMeet()
    ensures !ProbesDistinct(7, 9586)
  {
    assert Evenness(9586) == 1 && Power2(1) == 2;
    ProbesDistinctIff(7, 9586);
  }
}
