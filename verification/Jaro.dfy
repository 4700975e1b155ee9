/** `jaro` and `jaro_winkler` of fuzzy.rs, over the reals.

    `Greedy` is the matching pass as a function; `Gather` lists the matched characters of one
    string in order. The score counts the matches and compares the two gathered strings. */
module Jaro {
  import opened Wrappers

  // ----- matching pass

  function MaxDist(la: nat, lb: nat): nat {
    var longer := if la < lb then lb else la;
    if longer / 2 < 1 then 0 else longer / 2 - 1
  }

  function Low(i: nat, d: nat): nat { if i < d then 0 else i - d }

  function High(i: nat, d: nat, lb: nat): nat { if i + d + 1 < lb then i + d + 1 else lb }

  /** The first unused position of `b` from `j` up to `hi` that holds `c`. */
  function Pick(c: char, b: string, used: set<nat>, j: nat, hi: nat): (r: Option<nat>)
    requires hi <= |b|
    ensures r.Some? ==> j <= r.value < hi && b[r.value] == c && r.value !in used
    ensures forall k :: j <= k < (if r.Some? then r.value else hi) ==> b[k] != c || k in used
    decreases hi - j
  {
    if j >= hi then None
    else if j !in used && c == b[j] then Some(j)
    else Pick(c, b, used, j + 1, hi)
  }

  function Used(ps: seq<Option<nat>>): set<nat> {
    set i | 0 <= i < |ps| && ps[i].Some? :: ps[i].value
  }

  /** The partner each of the first `n` characters of `a` is given. */
  function Greedy(a: string, b: string, n: nat): (ps: seq<Option<nat>>)
    requires n <= |a|
    ensures |ps| == n
  {
    if n == 0 then [] else
      var ps := Greedy(a, b, n - 1);
      var d := MaxDist(|a|, |b|);
      ps + [Pick(a[n - 1], b, Used(ps), Low(n - 1, d), High(n - 1, d, |b|))]
  }

  function FlagsA(ps: seq<Option<nat>>): (f: seq<bool>)
    ensures |f| == |ps|
  {
    seq(|ps|, i requires 0 <= i < |ps| => ps[i].Some?)
  }

  function FlagsB(ps: seq<Option<nat>>, lb: nat): (f: seq<bool>)
    ensures |f| == lb
  {
    seq(lb, j => j in Used(ps))
  }

  /** The flagged ones among the first `n` characters of `s`, in order. */
  function Gather(s: string, f: seq<bool>, n: nat): string
    requires n <= |s| == |f|
  {
    if n == 0 then [] else Gather(s, f, n - 1) + (if f[n - 1] then [s[n - 1]] else [])
  }

  function MatchedA(a: string, b: string): string {
    Gather(a, FlagsA(Greedy(a, b, |a|)), |a|)
  }

  function MatchedB(a: string, b: string): string {
    Gather(b, FlagsB(Greedy(a, b, |a|), |b|), |b|)
  }

  /** At how many of the first `n` places `p` and `q` differ. */
  function Mismatches(p: string, q: string, n: nat): (k: nat)
    requires n <= |p| && n <= |q|
    ensures k <= n
  {
    if n == 0 then 0 else Mismatches(p, q, n - 1) + (if p[n - 1] != q[n - 1] then 1 else 0)
  }

  // ----- scores

  function Formula(m: nat, transpositions: nat, la: nat, lb: nat): real
    requires la > 0 && lb > 0 && m > 0
  {
    var t := transpositions / 2;
    (m as real / la as real + m as real / lb as real + (m as real - t as real) / m as real) / 3.0
  }

  ghost function JaroScore(a: string, b: string): real {
    if a == [] && b == [] then 1.0
    else if a == [] || b == [] then 0.0
    else
      SameMatched(a, b);
      var p, q := MatchedA(a, b), MatchedB(a, b);
      if |p| == 0 then 0.0
      else Formula(|p|, Mismatches(p, q, |p|), |a|, |b|)
  }

  /** Length of the common prefix, looking at no more than `n` characters. */
  function CommonPrefix(a: string, b: string, n: nat): (k: nat)
    ensures k <= n
  {
    if n == 0 || a == [] || b == [] || a[0] != b[0] then 0
    else 1 + CommonPrefix(a[1..], b[1..], n - 1)
  }

  lemma CommonPrefixStep(a: string, b: string, i: nat, n: nat)
    requires i < |a| && i < |b| && 0 < n
    ensures CommonPrefix(a[i..], b[i..], n)
         == if a[i] == b[i] then 1 + CommonPrefix(a[i + 1..], b[i + 1..], n - 1) else 0
  {
    assert a[i..][1..] == a[i + 1..] && b[i..][1..] == b[i + 1..];
  }

  function Boosted(j: real, prefix: nat): real {
    j + prefix as real * 0.1 * (1.0 - j)
  }

  ghost function WinklerScore(a: string, b: string): real {
    Boosted(JaroScore(a, b), CommonPrefix(a, b, 4))
  }

  // ----- the matching is one-to-one between equal characters

  /** Matching pass, soundness: partners hold the same character, lie in the window and are distinct. */
  lemma {:induction false} GreedySound(a: string, b: string, n: nat)
    requires n <= |a|
    ensures forall i :: 0 <= i < n && Greedy(a, b, n)[i].Some? ==>
      var j := Greedy(a, b, n)[i].value;
      j < |b| && b[j] == a[i] && i <= j + MaxDist(|a|, |b|) && j <= i + MaxDist(|a|, |b|)
    ensures forall i, k :: 0 <= i < k < n && Greedy(a, b, n)[i].Some? && Greedy(a, b, n)[k].Some? ==>
      Greedy(a, b, n)[i].value != Greedy(a, b, n)[k].value
  {
    if n > 0 {
      GreedySound(a, b, n - 1);
      var ps := Greedy(a, b, n - 1);
      assert forall i :: 0 <= i < n - 1 && ps[i].Some? ==> ps[i].value in Used(ps);
    }
  }

  lemma {:induction false} GatherFlip(s: string, f: seq<bool>, g: seq<bool>, j: nat, n: nat)
    requires n <= |s| == |f| == |g| && j < |s|
    requires !f[j] && g == f[j := true]
    ensures multiset(Gather(s, g, n)) == multiset(Gather(s, f, n)) + (if j < n then multiset{s[j]} else multiset{})
  {
    if n > 0 {
      GatherFlip(s, f, g, j, n - 1);
    }
  }

  /** The characters matched after `n` steps, on the `a` side. */
  ghost function TakenA(a: string, b: string, n: nat): string
    requires n <= |a|
  {
    Gather(a[..n], FlagsA(Greedy(a, b, n)), n)
  }

  lemma {:induction false} TakenStep(a: string, b: string, n: nat)
    requires 0 < n <= |a|
    ensures TakenA(a, b, n)
         == TakenA(a, b, n - 1) + (if Greedy(a, b, n)[n - 1].Some? then [a[n - 1]] else [])
  {
    var f, g := FlagsA(Greedy(a, b, n)), FlagsA(Greedy(a, b, n - 1));
    assert f[..n - 1] == g;
    PrefixGather(a[..n], f, n - 1);
    assert a[..n][..n - 1] == a[..n - 1];
  }

  /** Gathering looks at no character past the first `n`. */
  lemma {:induction false} PrefixGather(s: string, f: seq<bool>, n: nat)
    requires n <= |s| == |f|
    ensures Gather(s, f, n) == Gather(s[..n], f[..n], n)
    decreases n
  {
    if n > 0 {
      PrefixGather(s, f, n - 1);
      PrefixGather(s[..n], f[..n], n - 1);
      assert s[..n][..n - 1] == s[..n - 1] && f[..n][..n - 1] == f[..n - 1];
    }
  }

  /** The characters matched after `n` steps, on the `b` side. */
  ghost function TakenB(a: string, b: string, n: nat): string
    requires n <= |a|
  {
    Gather(b, FlagsB(Greedy(a, b, n), |b|), |b|)
  }

  lemma TakenBStep(a: string, b: string, n: nat)
    requires 0 < n <= |a|
    ensures var p := Greedy(a, b, n)[n - 1];
      multiset(TakenB(a, b, n)) == multiset(TakenB(a, b, n - 1)) + (if p.Some? then multiset{a[n - 1]} else multiset{})
  {
    var ps, p := Greedy(a, b, n - 1), Greedy(a, b, n)[n - 1];
    UsedStep(ps, p);
    var f, g := FlagsB(ps, |b|), FlagsB(ps + [p], |b|);
    if p.Some? {
      assert g == f[p.value := true];
      GatherFlip(b, f, g, p.value, |b|);
    } else {
      assert g == f;
    }
  }

  lemma {:induction false} TakenSame(a: string, b: string, n: nat)
    requires n <= |a|
    ensures multiset(TakenA(a, b, n)) == multiset(TakenB(a, b, n))
  {
    if n == 0 {
      NothingTaken(b, FlagsB([], |b|), |b|);
    } else {
      TakenSame(a, b, n - 1);
      TakenStep(a, b, n);
      TakenBStep(a, b, n);
    }
  }

  lemma UsedStep(ps: seq<Option<nat>>, p: Option<nat>)
    ensures Used(ps + [p]) == Used(ps) + (if p.Some? then {p.value} else {})
  {
    var qs := ps + [p];
    assert forall i :: 0 <= i < |ps| ==> qs[i] == ps[i];
    assert qs[|ps|] == p;
    forall j ensures j in Used(qs) <==> j in Used(ps) + (if p.Some? then {p.value} else {}) {
      if j in Used(ps) {
        var i :| 0 <= i < |ps| && ps[i].Some? && ps[i].value == j;
        assert qs[i].value == j;
      }
    }
  }

  lemma {:induction false} NothingTaken(s: string, f: seq<bool>, n: nat)
    requires n <= |s| == |f| && forall i :: 0 <= i < |f| ==> !f[i]
    ensures Gather(s, f, n) == []
  {
    if n > 0 {
      NothingTaken(s, f, n - 1);
    }
  }

  /** Both strings contribute the same characters, so the two passes agree on their number. */
  lemma SameMatched(a: string, b: string)
    ensures multiset(MatchedA(a, b)) == multiset(MatchedB(a, b))
    ensures |MatchedA(a, b)| == |MatchedB(a, b)|
  {
    TakenSame(a, b, |a|);
    assert a[..|a|] == a;
    assert |multiset(MatchedA(a, b))| == |MatchedA(a, b)|;
    assert |multiset(MatchedB(a, b))| == |MatchedB(a, b)|;
  }

  // ----- the score is 1 exactly on equal strings

  lemma {:induction false} GatherLength(s: string, f: seq<bool>, n: nat)
    requires n <= |s| == |f|
    ensures |Gather(s, f, n)| <= n
    ensures |Gather(s, f, n)| == n ==> Gather(s, f, n) == s[..n]
  {
    if n > 0 {
      GatherLength(s, f, n - 1);
      assert s[..n] == s[..n - 1] + [s[n - 1]];
    }
  }

  lemma {:induction false} GatherAll(s: string, f: seq<bool>, n: nat)
    requires n <= |s| == |f| && forall i :: 0 <= i < n ==> f[i]
    ensures Gather(s, f, n) == s[..n]
  {
    if n > 0 {
      GatherAll(s, f, n - 1);
      assert s[..n] == s[..n - 1] + [s[n - 1]];
    }
  }

  /** On equal strings the greedy choice is the identity, although the window reaches back. */
  lemma {:induction false} GreedyOnEqual(a: string, n: nat)
    requires n <= |a|
    ensures forall i :: 0 <= i < n ==> Greedy(a, a, n)[i] == Some(i)
  {
    if n > 0 {
      GreedyOnEqual(a, n - 1);
      var ps := Greedy(a, a, n - 1);
      forall i | 0 <= i < n - 1 ensures i in Used(ps) {
        assert ps[i].value == i;
      }
      assert n - 1 !in Used(ps);
      assert Greedy(a, a, n)[n - 1] == Some(n - 1);
    }
  }

  lemma {:induction false} NoMismatchOnEqual(p: string, n: nat)
    requires n <= |p|
    ensures Mismatches(p, p, n) == 0
  {
    if n > 0 {
      NoMismatchOnEqual(p, n - 1);
    }
  }

  lemma {:induction false} NoMismatchMeansEqual(p: string, q: string, n: nat)
    requires n <= |p| && n <= |q| && Mismatches(p, q, n) == 0
    ensures p[..n] == q[..n]
  {
    if n > 0 {
      NoMismatchMeansEqual(p, q, n - 1);
      assert p[..n] == p[..n - 1] + [p[n - 1]] && q[..n] == q[..n - 1] + [q[n - 1]];
    }
  }

  lemma SnocBalanced(p: string, q: string, c: char, d: char)
    ensures multiset(p + [c]) == multiset(q + [c]) ==> multiset(p) == multiset(q)
    ensures c != d ==> multiset(p + [c]) != multiset(p + [d])
  {
    assert multiset(p + [c]) - multiset{c} == multiset(p) && multiset(q + [c]) - multiset{c} == multiset(q);
    assert c != d ==> multiset(p + [c])[c] == multiset(p + [d])[c] + 1;
  }

  lemma {:induction false} OneMismatchUnbalances(p: string, q: string, n: nat)
    requires n <= |p| && n <= |q| && Mismatches(p, q, n) == 1
    ensures multiset(p[..n]) != multiset(q[..n])
  {
    assert p[..n] == p[..n - 1] + [p[n - 1]] && q[..n] == q[..n - 1] + [q[n - 1]];
    SnocBalanced(p[..n - 1], q[..n - 1], p[n - 1], q[n - 1]);
    if p[n - 1] == q[n - 1] {
      OneMismatchUnbalances(p, q, n - 1);
    } else {
      NoMismatchMeansEqual(p, q, n - 1);
    }
  }

  lemma ScaleUp(q: real, y: real)
    ensures q > 1.0 && y > 0.0 ==> q * y > y
  {
    if q > 1.0 && y > 0.0 { assert (q - 1.0) * y > 0.0; }
  }

  lemma QuotientBound(x: nat, y: nat)
    requires 0 < y && x <= y
    ensures 0.0 <= x as real / y as real <= 1.0
    ensures x as real / y as real == 1.0 <==> x == y
  {
    var q := x as real / y as real;
    assert q * y as real == x as real;
    ScaleUp(q, y as real);
  }

  lemma FormulaRange(m: nat, k: nat, la: nat, lb: nat)
    requires 0 < m <= la && m <= lb && k <= m
    ensures 0.0 <= Formula(m, k, la, lb) <= 1.0
    ensures Formula(m, k, la, lb) == 1.0 <==> m == la && m == lb && k / 2 == 0
  {
    QuotientBound(m, la);
    QuotientBound(m, lb);
    QuotientBound(m - k / 2, m);
    assert (m - k / 2) as real == m as real - (k / 2) as real;
  }

  lemma JaroRange(a: string, b: string)
    ensures 0.0 <= JaroScore(a, b) <= 1.0
  {
    if a != [] && b != [] && MatchedA(a, b) != [] {
      SameMatched(a, b);
      GatherLength(a, FlagsA(Greedy(a, b, |a|)), |a|);
      GatherLength(b, FlagsB(Greedy(a, b, |a|), |b|), |b|);
      FormulaRange(|MatchedA(a, b)|, Mismatches(MatchedA(a, b), MatchedB(a, b), |MatchedA(a, b)|), |a|, |b|);
    }
  }

  lemma OneOnlyIfEqual(a: string, b: string)
    requires JaroScore(a, b) == 1.0
    ensures a == b
  {
    if a != [] || b != [] {
      SameMatched(a, b);
      var p, q := MatchedA(a, b), MatchedB(a, b);
      GatherLength(a, FlagsA(Greedy(a, b, |a|)), |a|);
      GatherLength(b, FlagsB(Greedy(a, b, |a|), |b|), |b|);
      var k := Mismatches(p, q, |p|);
      FormulaRange(|p|, k, |a|, |b|);
      assert a[..|a|] == a && b[..|b|] == b && p[..|p|] == p && q[..|q|] == q;
      assert p == a && q == b && k <= 1;
      if k == 1 {
        OneMismatchUnbalances(p, q, |p|);
      } else {
        NoMismatchMeansEqual(p, q, |p|);
      }
    }
  }

  lemma OneIfEqual(a: string)
    ensures JaroScore(a, a) == 1.0
  {
    if a != [] {
      GreedyOnEqual(a, |a|);
      var ps := Greedy(a, a, |a|);
      forall i | 0 <= i < |a| ensures FlagsA(ps)[i] && FlagsB(ps, |a|)[i] {
        assert ps[i] == Some(i);
        assert i in Used(ps);
      }
      GatherAll(a, FlagsA(ps), |a|);
      GatherAll(a, FlagsB(ps, |a|), |a|);
      assert a[..|a|] == a;
      NoMismatchOnEqual(a, |a|);
      FormulaRange(|a|, 0, |a|, |a|);
    }
  }

  /** Halving the mismatch count never hides a difference: 1 means equal, for every pair of strings. */
  lemma JaroOneIffEqual(a: string, b: string)
    ensures JaroScore(a, b) == 1.0 <==> a == b
  {
    if a == b {
      OneIfEqual(a);
    } else if JaroScore(a, b) == 1.0 {
      OneOnlyIfEqual(a, b);
    }
  }

  /** The prefix bonus keeps the score in [0, 1], never lowers it, and never creates a false 1. */
  lemma WinklerRange(a: string, b: string)
    ensures JaroScore(a, b) <= WinklerScore(a, b) <= 1.0
    ensures 0.0 <= WinklerScore(a, b)
    ensures WinklerScore(a, b) == 1.0 <==> a == b
  {
    JaroRange(a, b);
    JaroOneIffEqual(a, b);
    var j, w := JaroScore(a, b), CommonPrefix(a, b, 4) as real * 0.1;
    assert 0.0 <= w <= 0.4;
    assert WinklerScore(a, b) == j + w * (1.0 - j);
    assert 0.0 <= w * (1.0 - j) <= 0.4 * (1.0 - j) by { Scale(w, 0.4, 1.0 - j); }
  }

  lemma Scale(x: real, y: real, z: real)
    requires 0.0 <= x <= y && 0.0 <= z
    ensures 0.0 <= x * z <= y * z
  {
  }

  // ----- facts the transposition pass relies on

  lemma {:induction false} GatherPrefix(s: string, f: seq<bool>, n: nat, m: nat)
    requires n <= m <= |s| == |f|
    ensures Gather(s, f, n) <= Gather(s, f, m)
    decreases m
  {
    if n < m {
      GatherPrefix(s, f, n, m - 1);
    }
  }

  /** A flagged position is the next character of the gathered string. */
  lemma GatherNext(s: string, f: seq<bool>, n: nat)
    requires n < |s| == |f| && f[n]
    ensures |Gather(s, f, n)| < |Gather(s, f, |s|)|
    ensures Gather(s, f, |s|)[|Gather(s, f, n)|] == s[n]
  {
    GatherPrefix(s, f, n + 1, |s|);
    assert Gather(s, f, n + 1) == Gather(s, f, n) + [s[n]];
  }

  // ----- the programs

  /** The flags after the first `i` characters of `a` were given the partners `ps`. */
  ghost predicate Marked(f: seq<bool>, g: seq<bool>, ps: seq<Option<nat>>, i: nat) {
    && i == |ps| <= |f|
    && (forall k :: 0 <= k < |f| ==> f[k] == (k < i && ps[k].Some?))
    && (forall j :: 0 <= j < |g| ==> g[j] == (j in Used(ps)))
  }

  lemma MarkNext(f: seq<bool>, g: seq<bool>, ps: seq<Option<nat>>, p: Option<nat>)
    requires Marked(f, g, ps, |ps|) && |ps| < |f|
    requires p.Some? ==> p.value < |g|
    ensures p.None? ==> Marked(f, g, ps + [p], |ps| + 1)
    ensures p.Some? ==> Marked(f[|ps| := true], g[p.value := true], ps + [p], |ps| + 1)
  {
    UsedStep(ps, p);
  }

  /** The inner loop: the first free partner of one character in its window, both flagged. */
  method MatchOne(a: string, b: string, i: nat, aMatch: array<bool>, bMatch: array<bool>,
                  ghost ps: seq<Option<nat>>) returns (found: bool)
    requires aMatch.Length == |a| && bMatch.Length == |b| && aMatch != bMatch && i < |a|
    requires Marked(aMatch[..], bMatch[..], ps, i)
    modifies aMatch, bMatch
    ensures var d := MaxDist(|a|, |b|);
      var p := Pick(a[i], b, Used(ps), Low(i, d), High(i, d, |b|));
      found == p.Some? && Marked(aMatch[..], bMatch[..], ps + [p], i + 1)
  {
    var maxDist := MaxDist(|a|, |b|);
    var j, end := Low(i, maxDist), High(i, maxDist, |b|);
    ghost var f, g := aMatch[..], bMatch[..];
    ghost var p := Pick(a[i], b, Used(ps), j, end);
    MarkNext(f, g, ps, p);
    while j < end
      invariant aMatch[..] == f && bMatch[..] == g
      invariant p == Pick(a[i], b, Used(ps), j, end)
    {
      assert bMatch[j] == g[j] == (j in Used(ps));
      if !bMatch[j] && a[i] == b[j] {
        aMatch[i] := true;
        bMatch[j] := true;
        assert aMatch[..] == f[i := true] && bMatch[..] == g[j := true];
        return true;
      }
      j := j + 1;
    }
    found := false;
  }

  method MatchChars(a: string, b: string) returns (aMatch: array<bool>, bMatch: array<bool>, matches: nat)
    ensures aMatch[..] == FlagsA(Greedy(a, b, |a|))
    ensures bMatch[..] == FlagsB(Greedy(a, b, |a|), |b|)
    ensures matches == |MatchedA(a, b)|
    ensures fresh(aMatch) && fresh(bMatch)
  {
    aMatch := new bool[|a|](_ => false);
    bMatch := new bool[|b|](_ => false);
    matches := 0;
    for i := 0 to |a|
      invariant aMatch.Length == |a| && bMatch.Length == |b| && aMatch != bMatch
      invariant Marked(aMatch[..], bMatch[..], Greedy(a, b, i), i)
      invariant matches == |TakenA(a, b, i)|
    {
      TakenStep(a, b, i + 1);
      var found := MatchOne(a, b, i, aMatch, bMatch, Greedy(a, b, i));
      if found {
        matches := matches + 1;
      }
    }
    assert a[..|a|] == a;
  }

  /** Counts the mismatches; the inner scan stays inside the array because both sides hold the
      same number of flags. */
  method CountTranspositions(a: string, b: string, aMatch: array<bool>, bMatch: array<bool>)
    returns (transpositions: nat)
    requires aMatch.Length == |a| && bMatch.Length == |b|
    requires |Gather(a, aMatch[..], |a|)| == |Gather(b, bMatch[..], |b|)|
    ensures transpositions == Mismatches(Gather(a, aMatch[..], |a|), Gather(b, bMatch[..], |b|),
                                         |Gather(a, aMatch[..], |a|)|)
  {
    ghost var f, g := aMatch[..], bMatch[..];
    ghost var p, q := Gather(a, f, |a|), Gather(b, g, |b|);
    transpositions := 0;
    var k := 0;
    for i := 0 to |a|
      invariant k <= |b|
      invariant |Gather(a, f, i)| == |Gather(b, g, k)| <= |p|
      invariant transpositions == Mismatches(p, q, |Gather(a, f, i)|)
    {
      if aMatch[i] {
        GatherNext(a, f, i);
        while !bMatch[k]
          invariant k < |b|
          invariant |Gather(a, f, i)| == |Gather(b, g, k)|
          decreases |b| - k
        {
          k := k + 1;
        }
        GatherNext(b, g, k);
        if a[i] != b[k] {
          transpositions := transpositions + 1;
        }
        k := k + 1;
      }
    }
  }

  method Score(s1: string, s2: string) returns (r: real)
    ensures r == JaroScore(s1, s2)
  {
    if s1 == [] && s2 == [] {
      return 1.0;
    }
    if s1 == [] || s2 == [] {
      return 0.0;
    }
    var aMatch, bMatch, matches := MatchChars(s1, s2);
    if matches == 0 {
      return 0.0;
    }
    SameMatched(s1, s2);
    var transpositions := CountTranspositions(s1, s2, aMatch, bMatch);
    r := Formula(matches, transpositions, |s1|, |s2|);
  }

  method Winkler(s1: string, s2: string) returns (r: real)
    ensures r == WinklerScore(s1, s2)
    ensures 0.0 <= r <= 1.0 && (r == 1.0 <==> s1 == s2)
  {
    WinklerRange(s1, s2);
    var j := Score(s1, s2);
    var prefix := 0;
    var i := 0;
    var limit := if |s1| < |s2| then |s1| else |s2|;
    limit := if limit < 4 then limit else 4;
    while i < limit
      invariant prefix == i <= limit
      invariant CommonPrefix(s1, s2, 4) == i + CommonPrefix(s1[i..], s2[i..], 4 - i)
    {
      CommonPrefixStep(s1, s2, i, 4 - i);
      if s1[i] == s2[i] {
        prefix := prefix + 1;
      } else {
        break;
      }
      i := i + 1;
    }
    r := Boosted(j, prefix);
  }
}
