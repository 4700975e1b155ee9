/** What the Jaro-Winkler score of fuzzy.rs is, without its loops.

    A pairing gives some positions of `a` a position of `b`. The greedy one is determined by who could
    be paired with whom, and the score by the numbers of paired and of out-of-order characters. */
module JaroExact {
  import opened Jaro
  import opened Wrappers

  // ----- the matching

  /** Position `j` of `b` could be given to position `i` of `a`: same character, closer than half the
      longer length (or no distance at all), and not given to an earlier position. */
  ghost predicate Free(a: string, b: string, ps: seq<Option<nat>>, i: nat, j: nat)
    requires i < |a| && i <= |ps|
  {
    var longer := if |a| <= |b| then |b| else |a|;
    && j < |b| && b[j] == a[i]
    && (j == i || (j < i + longer / 2 && i < j + longer / 2))
    && (forall k :: 0 <= k < i ==> ps[k] != Some(j))
  }

  /** Every position of `a` in turn is given the first position of `b` it can have. */
  ghost predicate FirstFit(a: string, b: string, ps: seq<Option<nat>>) {
    && |ps| == |a|
    && (forall i :: 0 <= i < |a| ==> Fits(a, b, ps, i))
  }

  ghost predicate Fits(a: string, b: string, ps: seq<Option<nat>>, i: nat)
    requires i < |a| == |ps|
  {
    if ps[i].Some? then
      Free(a, b, ps, i, ps[i].value) && forall j :: 0 <= j < ps[i].value ==> !Free(a, b, ps, i, j)
    else
      forall j: nat :: !Free(a, b, ps, i, j)
  }

  lemma {:induction false} GreedyPrefix(a: string, b: string, m: nat, n: nat)
    requires m <= n <= |a|
    ensures Greedy(a, b, m) == Greedy(a, b, n)[..m]
    decreases n
  {
    if m < n {
      GreedyPrefix(a, b, m, n - 1);
      assert Greedy(a, b, n)[..n - 1] == Greedy(a, b, n - 1);
      assert Greedy(a, b, n)[..m] == Greedy(a, b, n)[..n - 1][..m];
    } else {
      assert Greedy(a, b, n)[..n] == Greedy(a, b, n);
    }
  }

  /** Free positions are those the inner loop runs over and finds unused. */
  lemma FreeIs(a: string, b: string, ps: seq<Option<nat>>, i: nat, j: nat)
    requires i < |a| && i <= |ps|
    ensures var d := MaxDist(|a|, |b|);
      Free(a, b, ps, i, j) <==>
        Low(i, d) <= j < High(i, d, |b|) && b[j] == a[i] && j !in Used(ps[..i])
  {
    var early := ps[..i];
    assert forall k :: 0 <= k < i ==> early[k] == ps[k];
    if j in Used(early) {
      var k :| 0 <= k < |early| && early[k].Some? && early[k].value == j;
      assert ps[k] == Some(j);
    } else {
      forall k | 0 <= k < i ensures ps[k] != Some(j) {
        assert early[k] == ps[k];
      }
    }
  }

  lemma GreedyFits(a: string, b: string, i: nat)
    requires i < |a|
    ensures Fits(a, b, Greedy(a, b, |a|), i)
  {
    var ps := Greedy(a, b, |a|);
    GreedyPrefix(a, b, i, |a|);
    GreedyPrefix(a, b, i + 1, |a|);
    assert ps[i] == ps[..i + 1][i];
    forall j: nat ensures Free(a, b, ps, i, j) <==> FreeIn(a, b, ps[..i], i, j) {
      FreeIs(a, b, ps, i, j);
    }
  }

  predicate FreeIn(a: string, b: string, early: seq<Option<nat>>, i: nat, j: nat)
    requires i < |a|
  {
    var d := MaxDist(|a|, |b|);
    Low(i, d) <= j < High(i, d, |b|) && b[j] == a[i] && j !in Used(early)
  }

  lemma {:induction false} FirstFitSame(a: string, b: string, ps: seq<Option<nat>>, qs: seq<Option<nat>>, n: nat)
    requires FirstFit(a, b, ps) && FirstFit(a, b, qs) && n <= |a|
    ensures ps[..n] == qs[..n]
  {
    if n > 0 {
      var i := n - 1;
      FirstFitSame(a, b, ps, qs, i);
      assert forall k :: 0 <= k < i ==> ps[..i][k] == qs[..i][k];
      assert forall j: nat :: Free(a, b, ps, i, j) <==> Free(a, b, qs, i, j);
      assert Fits(a, b, ps, i) && Fits(a, b, qs, i);
      assert ps[..n] == ps[..i] + [ps[i]] && qs[..n] == qs[..i] + [qs[i]];
    }
  }

  /** The matching pass computes the first-fit pairing, and there is only one. */
  lemma MatchingExact(a: string, b: string, ps: seq<Option<nat>>)
    ensures ps == Greedy(a, b, |a|) <==> FirstFit(a, b, ps)
  {
    var qs := Greedy(a, b, |a|);
    forall i | 0 <= i < |a| ensures Fits(a, b, qs, i) {
      GreedyFits(a, b, i);
    }
    if FirstFit(a, b, ps) {
      FirstFitSame(a, b, ps, qs, |a|);
      assert ps[..|a|] == ps && qs[..|a|] == qs;
    }
  }

  // ----- the score

  ghost predicate Increasing(s: seq<nat>) {
    forall i, j :: 0 <= i < j < |s| ==> s[i] < s[j]
  }

  ghost predicate Partner(ps: seq<Option<nat>>, j: nat) {
    exists i :: 0 <= i < |ps| && ps[i] == Some(j)
  }

  /** `p` lists in order the positions of `a` that have a partner, `q` those of `b` that are one. */
  ghost predicate Paired(a: string, b: string, ps: seq<Option<nat>>, p: seq<nat>, q: seq<nat>) {
    && FirstFit(a, b, ps) && Increasing(p) && Increasing(q)
    && (forall i: nat :: i in p <==> i < |a| && ps[i].Some?)
    && (forall j: nat :: j in q <==> Partner(ps, j))
  }

  /** A listed last position comes last in the list. */
  lemma LastListed(f: seq<bool>, p: seq<nat>, n: nat) returns (front: seq<nat>)
    requires 0 < n <= |f| && f[n - 1] && Increasing(p) && forall i: nat :: i in p <==> i < n && f[i]
    ensures p == front + [n - 1] && Increasing(front)
    ensures forall i: nat :: i in front <==> i < n - 1 && f[i]
  {
    assert n - 1 in p;
    var last := |p| - 1;
    var k :| 0 <= k < |p| && p[k] == n - 1;
    assert p[last] in p;
    front := p[..last];
    assert p == front + [p[last]];
    forall i: nat ensures i in front <==> i < n - 1 && f[i] {
      if i in front {
        var m :| 0 <= m < |front| && front[m] == i;
        assert p[m] in p && p[m] < p[last];
      } else if i in p {
        assert i == p[last];
      }
    }
  }

  lemma SomeMember(p: seq<nat>) returns (i: nat)
    requires p != []
    ensures i in p
  {
    i := p[0];
  }

  /** `g` is what stands in `s` at these places. */
  ghost predicate Reads(g: string, s: string, p: seq<nat>) {
    |g| == |p| && forall r :: 0 <= r < |p| ==> p[r] < |s| && g[r] == s[p[r]]
  }

  lemma ReadsSnoc(g: string, s: string, p: seq<nat>, i: nat)
    requires Reads(g, s, p) && i < |s|
    ensures Reads(g + [s[i]], s, p + [i])
  {
  }

  lemma {:induction false} GatherListed(s: string, f: seq<bool>, p: seq<nat>, n: nat)
    requires n <= |s| == |f| && Increasing(p)
    requires forall i: nat :: i in p <==> i < n && f[i]
    ensures Reads(Gather(s, f, n), s, p)
    decreases n
  {
    if n == 0 {
      if p != [] { var i := SomeMember(p); }
    } else if f[n - 1] {
      var front := LastListed(f, p, n);
      GatherListed(s, f, front, n - 1);
      ReadsSnoc(Gather(s, f, n - 1), s, front, n - 1);
    } else {
      GatherListed(s, f, p, n - 1);
      assert Gather(s, f, n) == Gather(s, f, n - 1);
    }
  }

  function Differing(p: string, q: string, n: nat): set<nat>
    requires n <= |p| && n <= |q|
  {
    set r | 0 <= r < n && p[r] != q[r]
  }

  lemma {:induction false} MismatchesCount(p: string, q: string, n: nat)
    requires n <= |p| && n <= |q|
    ensures Mismatches(p, q, n) == |Differing(p, q, n)|
  {
    if n > 0 {
      MismatchesCount(p, q, n - 1);
      var d := Differing(p, q, n - 1);
      assert Differing(p, q, n) == d + (if p[n - 1] != q[n - 1] then {n - 1} else {});
    }
  }

  lemma PartnerUsed(a: string, b: string, ps: seq<Option<nat>>, j: nat)
    requires FirstFit(a, b, ps)
    ensures Partner(ps, j) <==> j < |b| && j in Used(ps)
  {
    if Partner(ps, j) {
      var i :| 0 <= i < |ps| && ps[i] == Some(j);
      assert Fits(a, b, ps, i);
      assert j in Used(ps);
    }
    if j in Used(ps) {
      var i :| 0 <= i < |ps| && ps[i].Some? && ps[i].value == j;
      assert ps[i] == Some(j) && Fits(a, b, ps, i);
    }
  }

  lemma MatchedListed(a: string, b: string, ps: seq<Option<nat>>, p: seq<nat>, q: seq<nat>)
    requires Paired(a, b, ps, p, q)
    ensures |MatchedA(a, b)| == |p| == |MatchedB(a, b)| == |q|
    ensures forall r :: 0 <= r < |p| ==> p[r] < |a| && MatchedA(a, b)[r] == a[p[r]]
    ensures forall r :: 0 <= r < |q| ==> q[r] < |b| && MatchedB(a, b)[r] == b[q[r]]
  {
    MatchingExact(a, b, ps);
    GatherListed(a, FlagsA(ps), p, |a|);
    forall j: nat ensures j in q <==> j < |b| && FlagsB(ps, |b|)[j] {
      PartnerUsed(a, b, ps, j);
    }
    GatherListed(b, FlagsB(ps, |b|), q, |b|);
    SameMatched(a, b);
  }

  /** The ranks at which the two lists hold different characters. */
  ghost predicate OutOfOrder(a: string, b: string, p: seq<nat>, q: seq<nat>, out: set<nat>) {
    && |p| == |q| && (forall r :: 0 <= r < |p| ==> p[r] < |a| && q[r] < |b|)
    && (forall r: nat :: r in out <==> r < |p| && a[p[r]] != b[q[r]])
  }

  lemma OutOfOrderCount(a: string, b: string, ps: seq<Option<nat>>, p: seq<nat>, q: seq<nat>, out: set<nat>)
    requires Paired(a, b, ps, p, q) && OutOfOrder(a, b, p, q, out)
    ensures |MatchedA(a, b)| == |p| == |MatchedB(a, b)|
    ensures Mismatches(MatchedA(a, b), MatchedB(a, b), |p|) == |out|
  {
    MatchedListed(a, b, ps, p, q);
    var s, t := MatchedA(a, b), MatchedB(a, b);
    MismatchesCount(s, t, |p|);
    assert out == Differing(s, t, |p|);
  }

  /** The score, for all non-empty strings: with m paired characters, of which `out` meet another
      character at the same rank of the other string, it is (m/|a| + m/|b| + (m - out/2)/m) / 3, and
      0 when nothing is paired. */
  lemma ScoreExact(a: string, b: string, ps: seq<Option<nat>>, p: seq<nat>, q: seq<nat>, out: set<nat>)
    returns (score: real)
    requires a != [] && b != [] && Paired(a, b, ps, p, q) && OutOfOrder(a, b, p, q, out)
    ensures score == JaroScore(a, b)
    ensures var m, t := |p|, |out| / 2;
      score == if m == 0 then 0.0
        else (m as real / |a| as real + m as real / |b| as real + (m - t) as real / m as real) / 3.0
  {
    OutOfOrderCount(a, b, ps, p, q, out);
    score := JaroScore(a, b);
    if p != [] {
      FormulaIs(|p|, |out|, |a|, |b|);
    }
  }

  lemma FormulaIs(m: nat, k: nat, la: nat, lb: nat)
    requires 0 < m && 0 < la && 0 < lb
    ensures Formula(m, k, la, lb)
         == (m as real / la as real + m as real / lb as real + (m - k / 2) as real / m as real) / 3.0
  {
    assert (m - k / 2) as real == m as real - (k / 2) as real;
  }

  /** Empty strings: equal when both are, without likeness when one is. */
  lemma ScoreOfEmpty(a: string)
    ensures JaroScore("", "") == 1.0
    ensures a != "" ==> JaroScore(a, "") == 0.0 && JaroScore("", a) == 0.0
  {
  }

  lemma {:induction false} CommonPrefixIs(a: string, b: string, n: nat, k: nat)
    requires n <= k && n <= |a| && n <= |b| && a[..n] == b[..n]
    requires n == k || n == |a| || n == |b| || a[n] != b[n]
    ensures CommonPrefix(a, b, k) == n
  {
    if n > 0 {
      assert a[0] == a[..n][0] == b[..n][0] == b[0];
      assert a[1..][..n - 1] == a[..n][1..] && b[1..][..n - 1] == b[..n][1..];
      CommonPrefixIs(a[1..], b[1..], n - 1, k - 1);
    }
  }

  /** Winkler's bonus: a tenth of what is missing to 1 for each of at most four common leading characters. */
  lemma WinklerExact(a: string, b: string, n: nat) returns (j: real)
    requires n <= 4 && n <= |a| && n <= |b| && a[..n] == b[..n]
    requires n == 4 || n == |a| || n == |b| || a[n] != b[n]
    ensures j == JaroScore(a, b) && WinklerScore(a, b) == j + n as real * (1.0 - j) / 10.0
  {
    CommonPrefixIs(a, b, n, 4);
    j := WinklerOf(a, b, n);
    BoostedIs(j, n);
  }

  lemma WinklerOf(a: string, b: string, n: nat) returns (j: real)
    requires CommonPrefix(a, b, 4) == n
    ensures j == JaroScore(a, b) && WinklerScore(a, b) == Boosted(j, n)
  {
    j := JaroScore(a, b);
  }

  lemma BoostedIs(j: real, n: nat)
    ensures Boosted(j, n) == j + n as real * (1.0 - j) / 10.0
  {
    var x, y := n as real, 1.0 - j;
    assert x * 0.1 * y == x * y / 10.0;
  }

  // ----- the example of the tests

  lemma MarthaFits(i: nat)
    requires i < 6
    ensures Fits("martha", "marhta", [Some(0), Some(1), Some(2), Some(4), Some(3), Some(5)], i)
  {
  }

  lemma MarthaPaired(ps: seq<Option<nat>>, all: seq<nat>)
    requires ps == [Some(0), Some(1), Some(2), Some(4), Some(3), Some(5)] && all == [0, 1, 2, 3, 4, 5]
    ensures Paired("martha", "marhta", ps, all, all)
  {
    forall i: nat | i < 6 ensures Fits("martha", "marhta", ps, i) {
      MarthaFits(i);
    }
    assert forall i: nat :: i in all <==> i < 6;
    assert ps[0] == Some(0) && ps[1] == Some(1) && ps[2] == Some(2) && ps[4] == Some(3) && ps[3] == Some(4)
        && ps[5] == Some(5);
  }

  lemma SixWithTwoOut(a: string, b: string, ps: seq<Option<nat>>, all: seq<nat>, out: set<nat>)
    requires |a| == |b| == |all| == 6 && |out| == 2
    requires Paired(a, b, ps, all, all) && OutOfOrder(a, b, all, all, out)
    ensures JaroScore(a, b) == 17.0 / 18.0
  {
    var score := ScoreExact(a, b, ps, all, all, out);
  }

  lemma MarthaScore()
    ensures JaroScore("martha", "marhta") == 17.0 / 18.0
  {
    var ps: seq<Option<nat>> := [Some(0), Some(1), Some(2), Some(4), Some(3), Some(5)];
    var all: seq<nat> := [0, 1, 2, 3, 4, 5];
    MarthaPaired(ps, all);
    MarthaOutOfOrder(all, {3, 4});
    SixWithTwoOut("martha", "marhta", ps, all, {3, 4});
  }

  lemma MarthaOutOfOrder(all: seq<nat>, out: set<nat>)
    requires all == [0, 1, 2, 3, 4, 5] && out == {3, 4}
    ensures OutOfOrder("martha", "marhta", all, all, out) && |out| == 2
  {
  }

  /** Six pairs, of which two are out of order: 17/18, and with a common prefix of three 0.9611. */
  lemma Martha()
    ensures JaroScore("martha", "marhta") == 17.0 / 18.0
    ensures WinklerScore("martha", "marhta") == 17.0 / 18.0 + 0.3 / 18.0
    ensures 0.9611 < WinklerScore("martha", "marhta") < 0.9612
  {
    MarthaScore();
    assert "martha"[..3] == "marhta"[..3];
    var j := WinklerExact("martha", "marhta", 3);
  }
}
