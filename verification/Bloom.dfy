/** The Bloom filter of bloom.rs: packed 64-bit words that stand for a set of bit positions. */
module Bloom {

  type byte = x: int | 0 <= x < 256

  const WORD := 0x1_0000_0000_0000_0000
  const FNV_PRIME := 1099511628211
  const FNV_OFFSET := 14695981039346656037
  const DJB_SEED := 5381

  // ----- hashes, in 64-bit wrapping arithmetic

  /** Exclusive or with a byte reaches only the low eight bits. */
  function XorByte(h: nat, b: byte): nat {
    h / 256 * 256 + XorBytes(h % 256, b)
  }

  function XorBytes(a: byte, b: byte): byte {
    assert Power2(8) == 256 by { assert Power2(4) == 16; }
    XorBits(a, b, 8)
  }

  function Power2(n: nat): nat {
    if n == 0 then 1 else 2 * Power2(n - 1)
  }

  /** Exclusive or of the low `n` bits, one bit after the other. */
  function XorBits(a: nat, b: nat, n: nat): (r: nat)
    ensures r < Power2(n)
  {
    if n == 0 then 0 else (a + b) % 2 + 2 * XorBits(a / 2, b / 2, n - 1)
  }

  function Fnv1aFrom(data: seq<byte>, n: nat): (h: nat)
    requires n <= |data|
    ensures h < WORD
  {
    if n == 0 then FNV_OFFSET
    else XorByte(Fnv1aFrom(data, n - 1), data[n - 1]) * FNV_PRIME % WORD
  }

  function Djb2From(data: seq<byte>, n: nat): (h: nat)
    requires n <= |data|
    ensures h < WORD
  {
    if n == 0 then DJB_SEED else Times33Plus(Djb2From(data, n - 1), data[n - 1])
  }

  /** Shift left by five, then two additions, each of them wrapping. */
  function Times33Plus(h: nat, b: byte): nat {
    ((h * 32 % WORD + h) % WORD + b) % WORD
  }

  method Fnv1a(data: seq<byte>) returns (hash: nat)
    ensures hash == Fnv1aFrom(data, |data|)
  {
    hash := FNV_OFFSET;
    for i := 0 to |data|
      invariant hash == Fnv1aFrom(data, i)
    {
      hash := XorByte(hash, data[i]);
      hash := hash * FNV_PRIME % WORD;
    }
  }

  /** The base-33 polynomial of the bytes, the first byte having the highest power. */
  method Djb2(data: seq<byte>) returns (hash: nat)
    ensures hash == Djb2From(data, |data|) == (5381 * Power33(|data|) + Polynomial(data)) % 0x1_0000_0000_0000_0000
  {
    hash := DJB_SEED;
    for i := 0 to |data|
      invariant hash == Djb2From(data, i)
    {
      hash := Times33Plus(hash, data[i]);
    }
    Djb2IsPolynomial(data, |data|);
    assert data[..|data|] == data;
  }

  function Power33(n: nat): nat {
    if n == 0 then 1 else Power33(n - 1) * 33
  }

  function Polynomial(data: seq<byte>): nat {
    if data == [] then 0 else data[0] * Power33(|data| - 1) + Polynomial(data[1..])
  }

  lemma {:induction false} PolynomialSnoc(data: seq<byte>, b: byte)
    ensures Polynomial(data + [b]) == Polynomial(data) * 33 + b
  {
    var all := data + [b];
    if data == [] {
      assert all == [b] && all[1..] == [];
    } else {
      assert all[0] == data[0] && all[1..] == data[1..] + [b];
      PolynomialSnoc(data[1..], b);
    }
  }

  /** A term may be wrapped before it is added. */
  lemma WrapFirst(x: nat, y: nat)
    ensures (x % WORD + y) % WORD == (x + y) % WORD
  {
    WrapAway(x % WORD + y, x / WORD);
    assert x + y == x % WORD + y + WORD * (x / WORD);
  }

  lemma WrapAway(x: nat, q: nat)
    ensures (x + WORD * q) % WORD == x % WORD
  {
  }

  lemma WrapsAsOne(h: nat, g: nat, b: byte)
    requires h == g % WORD
    ensures Times33Plus(h, b) == (g * 33 + b) % WORD
  {
    WrapFirst(h * 32, h);
    WrapFirst(h * 33, b);
    WrapAway(h * 33 + b, g / WORD * 33);
    assert g * 33 + b == h * 33 + b + WORD * (g / WORD * 33);
  }

  lemma {:induction false} Djb2IsPolynomial(data: seq<byte>, n: nat)
    requires n <= |data|
    ensures Djb2From(data, n) == (DJB_SEED * Power33(n) + Polynomial(data[..n])) % WORD
  {
    if n > 0 {
      Djb2IsPolynomial(data, n - 1);
      WrapsAsOne(Djb2From(data, n - 1), DJB_SEED * Power33(n - 1) + Polynomial(data[..n - 1]), data[n - 1]);
      assert data[..n] == data[..n - 1] + [data[n - 1]];
      PolynomialSnoc(data[..n - 1], data[n - 1]);
    }
  }

  // ----- one changed byte changes both hashes

  /** Multiplying by a number that is invertible modulo 2^64 hides no difference. */
  lemma OddMultiply(x: nat, y: nat, p: nat, inverse: nat, w: nat)
    requires p * inverse == 1 + WORD * w && x < WORD && y < WORD && x * p % WORD == y * p % WORD
    ensures x == y
  {
    var d: int := x - y;
    var q: int := x * p / WORD - y * p / WORD;
    assert d * p == WORD * q;
    assert d * (p * inverse) == d * p * inverse;
    assert d * (1 + WORD * w) == d + WORD * (d * w);
    assert WORD * q * inverse == WORD * (q * inverse);
    assert d == WORD * (q * inverse - d * w);
  }

  lemma XorByteBounds(h: nat, b: byte)
    requires h < WORD
    ensures XorByte(h, b) < WORD
  {
    var q: nat := h / 256;
    assert q <= WORD / 256 - 1;
    assert q * 256 <= WORD - 256;
  }

  lemma {:induction false} XorBitsInjective(x: nat, y: nat, a: nat, b: nat, n: nat)
    requires x < Power2(n) && y < Power2(n) && a < Power2(n) && b < Power2(n)
    requires XorBits(x, a, n) == XorBits(y, b, n)
    ensures a == b ==> x == y
    ensures x == y ==> a == b
  {
    if n > 0 {
      LowBit((x + a) % 2, (y + b) % 2, XorBits(x / 2, a / 2, n - 1), XorBits(y / 2, b / 2, n - 1));
      XorBitsInjective(x / 2, y / 2, a / 2, b / 2, n - 1);
      ParityCancels(x, y, a, b);
    }
  }

  lemma LowBit(p: nat, q: nat, u: nat, v: nat)
    requires p + 2 * u == q + 2 * v && p < 2 && q < 2
    ensures p == q && u == v
  {
  }

  lemma ParityCancels(x: nat, y: nat, a: nat, b: nat)
    requires (x + a) % 2 == (y + b) % 2
    ensures a == b && x / 2 == y / 2 ==> x == y
    ensures x == y && a / 2 == b / 2 ==> a == b
  {
  }

  lemma XorByteInjective(h: nat, g: nat, a: byte, b: byte)
    requires XorByte(h, a) == XorByte(g, b)
    ensures a == b ==> h == g
    ensures h == g ==> a == b
  {
    var x, y := h % 256, g % 256;
    LowByte(h / 256, g / 256, XorBytes(x, a), XorBytes(y, b));
    assert Power2(8) == 256 by { assert Power2(4) == 16; }
    XorBitsInjective(x, y, a, b, 8);
    assert h == h / 256 * 256 + x && g == g / 256 * 256 + y;
  }

  lemma LowByte(x: nat, y: nat, m: nat, n: nat)
    requires x * 256 + m == y * 256 + n && m < 256 && n < 256
    ensures x == y && m == n
  {
  }

  /** Two inputs that differ in exactly one byte. */
  predicate OneByteApart(a: seq<byte>, b: seq<byte>, i: nat) {
    && i < |a| == |b| && a[i] != b[i]
    && forall j :: 0 <= j < |a| && j != i ==> a[j] == b[j]
  }

  lemma Fnv1aStep(h: nat, g: nat, a: byte, b: byte)
    requires h < WORD && g < WORD && ((h == g) == (a != b)) && (h == g || a == b)
    ensures XorByte(h, a) * FNV_PRIME % WORD != XorByte(g, b) * FNV_PRIME % WORD
  {
    XorByteBounds(h, a);
    XorByteBounds(g, b);
    if XorByte(h, a) * FNV_PRIME % WORD == XorByte(g, b) * FNV_PRIME % WORD {
      OddMultiply(XorByte(h, a), XorByte(g, b), FNV_PRIME, 14886173955864302971, 887285111055);
      XorByteInjective(h, g, a, b);
    }
  }

  lemma {:induction false} Fnv1aSeparates(a: seq<byte>, b: seq<byte>, i: nat, n: nat)
    requires OneByteApart(a, b, i) && n <= |a|
    ensures Fnv1aFrom(a, n) == Fnv1aFrom(b, n) <==> n <= i
  {
    if n > 0 {
      Fnv1aSeparates(a, b, i, n - 1);
      if n > i { Fnv1aStep(Fnv1aFrom(a, n - 1), Fnv1aFrom(b, n - 1), a[n - 1], b[n - 1]); }
    }
  }

  lemma Djb2Step(h: nat, g: nat, a: byte, b: byte)
    requires h < WORD && g < WORD && ((h == g) == (a != b)) && (h == g || a == b)
    ensures Times33Plus(h, a) != Times33Plus(g, b)
  {
    WrapsAsOne(h, h, a);
    WrapsAsOne(g, g, b);
    if Times33Plus(h, a) == Times33Plus(g, b) {
      AddCancels(h * 33, g * 33, a, b);
      OddMultiply(h, g, 33, 1117984489315730401, 2);
    }
  }

  lemma AddCancels(x: nat, y: nat, a: byte, b: byte)
    requires (x + a) % WORD == (y + b) % WORD
    ensures a == b ==> x % WORD == y % WORD
    ensures x == y ==> a == b
  {
    var q: int := (x + a) / WORD - (y + b) / WORD;
    assert x + a - (y + b) == WORD * q;
    if a == b {
      ModShift(x, y, q);
    }
  }

  lemma ModShift(x: nat, y: nat, q: int)
    requires x - y == WORD * q
    ensures x % WORD == y % WORD
  {
  }

  lemma {:induction false} Djb2Separates(a: seq<byte>, b: seq<byte>, i: nat, n: nat)
    requires OneByteApart(a, b, i) && n <= |a|
    ensures Djb2From(a, n) == Djb2From(b, n) <==> n <= i
  {
    if n > 0 {
      Djb2Separates(a, b, i, n - 1);
      if n > i { Djb2Step(Djb2From(a, n - 1), Djb2From(b, n - 1), a[n - 1], b[n - 1]); }
    }
  }

  /** The step between probes is made odd. */
  function Step(h2: nat): nat {
    if h2 % 2 == 0 then h2 + 1 else h2
  }

  /** The `i`th position for two hash values. */
  function ProbeAt(h1: nat, h2: nat, i: nat, m: nat): (pos: nat)
    requires m > 0
    ensures pos < m
  {
    (h1 + i * Step(h2)) % WORD % m
  }

  /** The first `k` positions of a term. */
  function Probes(term: seq<byte>, k: nat, m: nat): (s: set<nat>)
    requires m > 0
    ensures forall pos :: pos in s ==> pos < m
  {
    if k == 0 then {}
    else Probes(term, k - 1, m) + {ProbeAt(Fnv1aFrom(term, |term|), Djb2From(term, |term|), k - 1, m)}
  }

  // ----- bits in words

  function BitOf(pos: nat): bv6 { (pos % 64) as bv6 }

  lemma BitOfExact(pos: nat)
    ensures BitOf(pos) as nat == pos % 64
  {
  }

  predicate IsSet(w: bv64, j: bv6) { (w >> j) & 1 == 1 }

  function WithBit(w: bv64, j: bv6): bv64 { w | (1 << j) }

  lemma OrSetsOneBit(w: bv64, i: bv6, j: bv6)
    ensures IsSet(WithBit(w, i), j) <==> i == j || IsSet(w, j)
  {
  }

  lemma NoBitInZero(j: bv6)
    ensures !IsSet(0, j)
  {
  }

  /** The positions a list of words holds. */
  ghost function Members(words: seq<bv64>): set<nat> {
    set pos | 0 <= pos < 64 * |words| && IsSet(words[pos / 64], BitOf(pos))
  }

  lemma SamePlace(p: nat, q: nat)
    ensures p / 64 == q / 64 && BitOf(p) == BitOf(q) <==> p == q
  {
    BitOfExact(p);
    BitOfExact(q);
  }

  lemma SetOneMember(words: seq<bv64>, pos: nat)
    requires pos < 64 * |words|
    ensures Members(words[pos / 64 := WithBit(words[pos / 64], BitOf(pos))]) == Members(words) + {pos}
  {
    var after := words[pos / 64 := WithBit(words[pos / 64], BitOf(pos))];
    forall q: nat ensures q in Members(after) <==> q in Members(words) || q == pos {
      SamePlace(pos, q);
      if q < 64 * |words| {
        OrSetsOneBit(words[pos / 64], BitOf(pos), BitOf(q));
      }
    }
  }

  // ----- the filter

  class BloomFilter {
    const bits: array<bv64>
    const k: nat
    const m: nat

    ghost predicate Valid()
      reads this, bits
    {
      && m > 0 && bits.Length == (m + 63) / 64
      && forall pos :: pos in Members(bits[..]) ==> pos < m
    }

    constructor (m: nat, k: nat)
      requires m > 0 && k > 0
      ensures Valid() && this.m == m && this.k == k && Members(bits[..]) == {} && fresh(bits)
    {
      this.m, this.k := m, k;
      bits := new bv64[(m + 63) / 64](_ => 0);
      new;
      forall pos: nat | pos < 64 * bits.Length ensures !IsSet(bits[..][pos / 64], BitOf(pos)) {
        NoBitInZero(BitOf(pos));
      }
    }

    /** What the filter says of a term. */
    ghost predicate Claims(term: seq<byte>)
      requires m > 0
      reads this, bits
    {
      Probes(term, k, m) <= Members(bits[..])
    }

    method HashI(term: seq<byte>, i: nat) returns (pos: nat)
      requires m > 0
      ensures pos == ProbeAt(Fnv1aFrom(term, |term|), Djb2From(term, |term|), i, m)
    {
      var h1 := Fnv1a(term);
      var h2 := Djb2(term);
      pos := ProbeAt(h1, h2, i, m);
    }

    method Insert(term: seq<byte>)
      requires Valid()
      modifies bits
      ensures Valid() && Members(bits[..]) == old(Members(bits[..])) + Probes(term, k, m)
    {
      for i := 0 to k
        invariant Members(bits[..]) == old(Members(bits[..])) + Probes(term, i, m)
      {
        var pos := HashI(term, i);
        SetOneMember(bits[..], pos);
        ghost var before := bits[..];
        bits[pos / 64] := WithBit(bits[pos / 64], BitOf(pos));
        assert bits[..] == before[pos / 64 := WithBit(before[pos / 64], BitOf(pos))];
      }
    }

    /** One insert after the other. */
    method InsertAll(terms: seq<seq<byte>>)
      requires Valid()
      modifies bits
      ensures Valid() && Members(bits[..]) == old(Members(bits[..])) + AfterInserts(terms, k, m)
    {
      for n := 0 to |terms|
        invariant Valid() && Members(bits[..]) == old(Members(bits[..])) + AfterInserts(terms[..n], k, m)
      {
        Insert(terms[n]);
        assert terms[..n + 1][..n] == terms[..n];
      }
      assert terms[..|terms|] == terms;
    }

    method MayContain(term: seq<byte>) returns (r: bool)
      requires Valid()
      ensures r <==> Claims(term)
    {
      for i := 0 to k
        invariant Probes(term, i, m) <= Members(bits[..])
      {
        var pos := HashI(term, i);
        if !IsSet(bits[pos / 64], BitOf(pos)) {
          assert bits[..][pos / 64] == bits[pos / 64];
          ProbesGrow(term, i + 1, k, m);
          return false;
        }
        assert bits[..][pos / 64] == bits[pos / 64];
      }
      r := true;
    }
  }

  lemma {:induction false} ProbesGrow(term: seq<byte>, i: nat, k: nat, m: nat)
    requires m > 0 && i <= k
    ensures Probes(term, i, m) <= Probes(term, k, m)
    decreases k
  {
    if i < k { ProbesGrow(term, i, k - 1, m); }
  }

  // ----- any sequence of inserts

  /** What the words hold after inserting these terms into an empty filter. */
  ghost function AfterInserts(terms: seq<seq<byte>>, k: nat, m: nat): set<nat>
    requires m > 0
  {
    if terms == [] then {} else AfterInserts(terms[..|terms| - 1], k, m) + Probes(terms[|terms| - 1], k, m)
  }

  /** Exactly the union of the terms' positions. */
  lemma {:induction false} AfterInsertsIsUnion(terms: seq<seq<byte>>, k: nat, m: nat, pos: nat)
    requires m > 0
    ensures pos in AfterInserts(terms, k, m) <==> exists t :: t in terms && pos in Probes(t, k, m)
    ensures pos in AfterInserts(terms, k, m) ==> pos < m
  {
    if terms != [] {
      var front, last := terms[..|terms| - 1], terms[|terms| - 1];
      AfterInsertsIsUnion(front, k, m, pos);
      assert last in terms && forall t :: t in front ==> t in terms;
      if t :| t in terms && pos in Probes(t, k, m) {
        assert t in front || t == last;
      }
    }
  }

  lemma InsertOrderIrrelevant(terms: seq<seq<byte>>, others: seq<seq<byte>>, k: nat, m: nat)
    requires m > 0 && forall t :: t in terms <==> t in others
    ensures AfterInserts(terms, k, m) == AfterInserts(others, k, m)
  {
    forall pos: nat ensures pos in AfterInserts(terms, k, m) <==> pos in AfterInserts(others, k, m) {
      AfterInsertsIsUnion(terms, k, m, pos);
      AfterInsertsIsUnion(others, k, m, pos);
    }
  }

  /** Some term has this position. */
  ghost predicate Covered(pos: nat, terms: seq<seq<byte>>, k: nat, m: nat)
    requires m > 0
  {
    exists t :: t in terms && pos in Probes(t, k, m)
  }

  ghost predicate AllCovered(term: seq<byte>, terms: seq<seq<byte>>, k: nat, m: nat)
    requires m > 0
  {
    forall pos :: pos in Probes(term, k, m) ==> Covered(pos, terms, k, m)
  }

  /** A filter that was filled with these terms claims every one of them, and claims any other term
      exactly when each of its positions is one of theirs. */
  lemma InsertedTermsAreFound(f: BloomFilter, terms: seq<seq<byte>>, u: seq<byte>)
    requires f.Valid() && Members(f.bits[..]) == AfterInserts(terms, f.k, f.m)
    ensures u in terms ==> f.Claims(u)
    ensures f.Claims(u) <==> AllCovered(u, terms, f.k, f.m)
  {
    forall pos: nat ensures pos in Members(f.bits[..]) <==> Covered(pos, terms, f.k, f.m) {
      AfterInsertsIsUnion(terms, f.k, f.m, pos);
    }
  }

  /** Two filters of one size that were filled with the same terms, in any order and with any
      repetition, answer every question alike. */
  lemma SameTermsSameAnswers(f: BloomFilter, g: BloomFilter, terms: seq<seq<byte>>, others: seq<seq<byte>>)
    requires f.Valid() && g.Valid() && f.m == g.m && f.k == g.k
    requires Members(f.bits[..]) == AfterInserts(terms, f.k, f.m)
    requires Members(g.bits[..]) == AfterInserts(others, g.k, g.m)
    requires forall t :: t in terms <==> t in others
    ensures forall t :: f.Claims(t) <==> g.Claims(t)
  {
    InsertOrderIrrelevant(terms, others, f.k, f.m);
  }

  /** From an empty filter: fill it, ask it. */
  method FillAndAsk(terms: seq<seq<byte>>, term: seq<byte>, m: nat, k: nat) returns (r: bool)
    requires m > 0 && k > 0
    ensures term in terms ==> r
    ensures r <==> AllCovered(term, terms, k, m)
  {
    var f := new BloomFilter(m, k);
    f.InsertAll(terms);
    InsertedTermsAreFound(f, terms, term);
    r := f.MayContain(term);
  }

  // ----- the hashes and positions, spelled out

  /** The exclusive or of two numbers whose lowest bits are given: those bits make 1 when they differ. */
  lemma XorLowest(x: nat, p: bool, y: nat, q: bool, n: nat)
    ensures XorBits(x, y, 0) == 0
    ensures XorBits(2 * x + (if p then 1 else 0), 2 * y + (if q then 1 else 0), n + 1)
         == 2 * XorBits(x, y, n) + if p != q then 1 else 0
  {
    var u, v := 2 * x + (if p then 1 else 0), 2 * y + (if q then 1 else 0);
    assert u / 2 == x && v / 2 == y && (u + v) % 2 == if p != q then 1 else 0;
  }

  /** The hash of no bytes, and how one more byte changes it: exclusive or into the low eight bits, then one
      wrapping multiplication. */
  lemma Fnv1aIs(data: seq<byte>, b: byte)
    ensures Fnv1aFrom([], 0) == 14695981039346656037
    ensures var h := Fnv1aFrom(data, |data|);
      Fnv1aFrom(data + [b], |data| + 1)
      == (h / 256 * 256 + XorBits(h % 256, b, 8)) * 1099511628211 % 0x1_0000_0000_0000_0000
  {
    Fnv1aPrefix(data, b, |data|);
  }

  lemma {:induction false} Fnv1aPrefix(data: seq<byte>, b: byte, n: nat)
    requires n <= |data|
    ensures Fnv1aFrom(data + [b], n) == Fnv1aFrom(data, n)
  {
    if n > 0 { Fnv1aPrefix(data, b, n - 1); }
  }

  predicate IsProbe(pos: nat, h: nat, g: nat, i: nat, m: nat)
    requires m > 0
  {
    pos == (h + i * (if g % 2 == 0 then g + 1 else g)) % 0x1_0000_0000_0000_0000 % m
  }

  /** The positions of a term, for hashes h and g: h plus i times g, made odd, modulo 2^64 and the size. */
  lemma {:induction false} ProbesAre(term: seq<byte>, k: nat, m: nat, pos: nat, h: nat, g: nat)
    requires m > 0 && h == Fnv1aFrom(term, |term|) && g == Djb2From(term, |term|)
    ensures pos in Probes(term, k, m) <==> exists i: nat :: i < k && IsProbe(pos, h, g, i, m)
  {
    if k > 0 {
      ProbesAre(term, k - 1, m, pos, h, g);
      LastProbe(term, k, m, pos, h, g);
      PlaceIs(pos, h, g, k - 1, m);
    }
  }

  lemma PlaceIs(pos: nat, h: nat, g: nat, i: nat, m: nat)
    requires m > 0
    ensures IsProbe(pos, h, g, i, m) <==> pos == ProbeAt(h, g, i, m)
  {
  }

  lemma LastProbe(term: seq<byte>, k: nat, m: nat, pos: nat, h: nat, g: nat)
    requires m > 0 && k > 0 && h == Fnv1aFrom(term, |term|) && g == Djb2From(term, |term|)
    ensures pos in Probes(term, k, m) <==> pos in Probes(term, k - 1, m) || pos == ProbeAt(h, g, k - 1, m)
  {
  }
}
