/** `levenshtein` of fuzzy.rs: the two-row loop returns the least number of single-character
    insertions, deletions and substitutions that turn one string into the other. */
module Levenshtein {
  import opened Sequences

  // ----- what is promised: edit scripts

  datatype Edit =
    | InsertAt(pos: nat, c: char)
    | DeleteAt(pos: nat)
    | ReplaceAt(pos: nat, c: char)
  {
    predicate Applies(s: string) {
      if InsertAt? then pos <= |s| else pos < |s|
    }

    function Apply(s: string): string
      requires Applies(s)
    {
      match this
      case InsertAt(p, c) => s[..p] + [c] + s[p..]
      case DeleteAt(p) => s[..p] + s[p + 1..]
      case ReplaceAt(p, c) => s[..p] + [c] + s[p + 1..]
    }
  }

  ghost predicate Transforms(script: seq<Edit>, s: string, t: string) {
    if script == [] then s == t
    else script[0].Applies(s) && Transforms(script[1..], script[0].Apply(s), t)
  }

  /** `d` is the length of a shortest edit script from `s` to `t`. */
  ghost predicate IsEditDistance(s: string, t: string, d: nat) {
    && (exists script :: Transforms(script, s, t) && |script| == d)
    && (forall script :: Transforms(script, s, t) ==> d <= |script|)
  }

  // ----- the recurrence the loop tabulates

  function Min(x: nat, y: nat): nat { if x < y then x else y }

  function Max(x: nat, y: nat): nat { if x < y then y else x }

  function Cost(x: char, y: char): nat { if x == y then 0 else 1 }

  function Front(s: string): string
    requires s != []
  {
    s[..|s| - 1]
  }

  function Last(s: string): char
    requires s != []
  {
    s[|s| - 1]
  }

  function Lev(a: string, b: string): nat
    decreases |a| + |b|
  {
    if a == [] then |b|
    else if b == [] then |a|
    else Min(Min(Lev(Front(a), b) + 1, Lev(a, Front(b)) + 1),
             Lev(Front(a), Front(b)) + Cost(Last(a), Last(b)))
  }

  lemma {:induction false} LevSymmetric(a: string, b: string)
    ensures Lev(a, b) == Lev(b, a)
    decreases |a| + |b|
  {
    if a != [] && b != [] {
      LevSymmetric(Front(a), b);
      LevSymmetric(a, Front(b));
      LevSymmetric(Front(a), Front(b));
    }
  }

  lemma {:induction false} LevSelf(a: string)
    ensures Lev(a, a) == 0
  {
    if a != [] {
      LevSelf(Front(a));
    }
  }

  lemma {:induction false} LevZeroOnlyIfEqual(a: string, b: string)
    requires Lev(a, b) == 0
    ensures a == b
    decreases |a| + |b|
  {
    if a != [] && b != [] {
      LevZeroOnlyIfEqual(Front(a), Front(b));
      assert a == Front(a) + [Last(a)] && b == Front(b) + [Last(b)];
    }
  }

  /** No distance exceeds the length of the longer string. */
  lemma {:induction false} LevBound(a: string, b: string)
    ensures Lev(a, b) <= Max(|a|, |b|)
    decreases |a| + |b|
  {
    if a != [] && b != [] {
      LevBound(Front(a), Front(b));
    }
  }

  // ----- lower bound: one edit moves the distance to any target by at most one

  lemma {:induction false} AppendMoves(u: string, c: char, t: string)
    ensures Lev(u, t) <= Lev(u + [c], t) + 1
    ensures Lev(u + [c], t) <= Lev(u, t) + 1
    decreases |t|
  {
    assert Front(u + [c]) == u;
    if t != [] {
      AppendMoves(u, c, Front(t));
      GrowTarget(u, t);
    }
  }

  lemma {:induction false} GrowTarget(u: string, t: string)
    requires t != []
    ensures Lev(u, t) <= Lev(u, Front(t)) + 1
  {
  }

  lemma {:induction false} ReplaceLastMoves(u: string, c: char, d: char, t: string)
    ensures Lev(u + [c], t) <= Lev(u + [d], t) + 1
    decreases |t|
  {
    assert Front(u + [c]) == u == Front(u + [d]);
    if t != [] {
      ReplaceLastMoves(u, c, d, Front(t));
    }
  }

  /** Replacing `m` by `n`, each at most one character, inside `u + m + v`. */
  lemma {:induction false} SpliceMoves(u: string, m: string, n: string, v: string, t: string)
    requires |m| <= 1 && |n| <= 1
    ensures Lev(u + n + v, t) <= Lev(u + m + v, t) + 1
    decreases |v| + |t|
  {
    if v == [] {
      assert u + n + v == u + n && u + m + v == u + m;
      if m == [] && n == [] {
      } else if m == [] {
        assert u + m == u && n == [n[0]];
        AppendMoves(u, n[0], t);
      } else if n == [] {
        assert u + n == u && m == [m[0]];
        AppendMoves(u, m[0], t);
      } else {
        assert n == [n[0]] && m == [m[0]];
        ReplaceLastMoves(u, n[0], m[0], t);
      }
    } else {
      assert Front(u + n + v) == u + n + Front(v);
      assert Front(u + m + v) == u + m + Front(v);
      if t != [] {
        SpliceMoves(u, m, n, Front(v), t);
        SpliceMoves(u, m, n, v, Front(t));
        SpliceMoves(u, m, n, Front(v), Front(t));
      }
    }
  }

  lemma EditMoves(e: Edit, s: string, t: string)
    requires e.Applies(s)
    ensures Lev(s, t) <= Lev(e.Apply(s), t) + 1
  {
    var p := e.pos;
    var m := if e.InsertAt? then [] else [s[p]];
    var n := if e.DeleteAt? then [] else [e.c];
    var v := s[p + |m|..];
    assert s == s[..p] + m + v;
    assert e.Apply(s) == s[..p] + n + v;
    SpliceMoves(s[..p], n, m, v, t);
  }

  lemma {:induction false} ScriptAtLeastLev(script: seq<Edit>, s: string, t: string)
    requires Transforms(script, s, t)
    ensures Lev(s, t) <= |script|
    decreases |script|
  {
    if script == [] {
      LevSelf(s);
    } else {
      ScriptAtLeastLev(script[1..], script[0].Apply(s), t);
      EditMoves(script[0], s, t);
    }
  }

  // ----- upper bound: the recurrence names a script of exactly that length

  lemma {:induction false} Chain(p: seq<Edit>, q: seq<Edit>, s: string, t: string, u: string)
    requires Transforms(p, s, t) && Transforms(q, t, u)
    ensures Transforms(p + q, s, u)
    decreases |p|
  {
    if p == [] {
      assert p + q == q;
    } else {
      Chain(p[1..], q, p[0].Apply(s), t, u);
      TailOfSum(p, q);
    }
  }

  lemma ApplyBeforeLast(e: Edit, s: string, c: char)
    requires e.Applies(s)
    ensures e.Applies(s + [c]) && e.Apply(s + [c]) == e.Apply(s) + [c]
  {
  }

  /** A script keeps working when a common last character is added to both ends. */
  lemma {:induction false} Extend(p: seq<Edit>, s: string, t: string, c: char)
    requires Transforms(p, s, t)
    ensures Transforms(p, s + [c], t + [c])
    decreases |p|
  {
    if p != [] {
      ApplyBeforeLast(p[0], s, c);
      Extend(p[1..], p[0].Apply(s), t, c);
    }
  }

  lemma OneStep(e: Edit, s: string, t: string)
    requires e.Applies(s) && e.Apply(s) == t
    ensures Transforms([e], s, t)
  {
    assert [e][1..] == [];
  }

  lemma {:induction false} ShortestScript(a: string, b: string) returns (p: seq<Edit>)
    ensures Transforms(p, a, b) && |p| == Lev(a, b)
    decreases |a| + |b|
  {
    if a == [] && b == [] {
      p := [];
    } else if a != [] && Lev(a, b) == Lev(Front(a), b) + 1 {
      var q := ShortestScript(Front(a), b);
      p := DeleteLast(a, b, q);
    } else if b != [] && Lev(a, b) == Lev(a, Front(b)) + 1 {
      var q := ShortestScript(a, Front(b));
      p := InsertLast(a, b, q);
    } else {
      var q := ShortestScript(Front(a), Front(b));
      p := MatchLast(a, b, q);
    }
  }

  lemma DeleteLast(a: string, b: string, q: seq<Edit>) returns (p: seq<Edit>)
    requires a != [] && Transforms(q, Front(a), b)
    ensures Transforms(p, a, b) && |p| == |q| + 1
  {
    var e := DeleteAt(|a| - 1);
    assert e.Apply(a) == Front(a);
    OneStep(e, a, Front(a));
    p := [e] + q;
    Chain([e], q, a, Front(a), b);
  }

  lemma InsertLast(a: string, b: string, q: seq<Edit>) returns (p: seq<Edit>)
    requires b != [] && Transforms(q, a, Front(b))
    ensures Transforms(p, a, b) && |p| == |q| + 1
  {
    var e := InsertAt(|b| - 1, Last(b));
    assert e.Apply(Front(b)) == b;
    OneStep(e, Front(b), b);
    p := q + [e];
    Chain(q, [e], a, Front(b), b);
  }

  lemma MatchLast(a: string, b: string, q: seq<Edit>) returns (p: seq<Edit>)
    requires a != [] && b != [] && Transforms(q, Front(a), Front(b))
    ensures Transforms(p, a, b) && |p| == |q| + Cost(Last(a), Last(b))
  {
    assert a == Front(a) + [Last(a)] && b == Front(b) + [Last(b)];
    Extend(q, Front(a), Front(b), Last(a));
    p := if Last(a) == Last(b) then q else q + [ReplaceAt(|b| - 1, Last(b))];
    if Last(a) != Last(b) {
      ReplaceEnd(a, b, q);
    }
  }

  lemma ReplaceEnd(a: string, b: string, q: seq<Edit>)
    requires a != [] && b != [] && Transforms(q, a, Front(b) + [Last(a)])
    ensures Transforms(q + [ReplaceAt(|b| - 1, Last(b))], a, b)
  {
    var e := ReplaceAt(|b| - 1, Last(b));
    var mid := Front(b) + [Last(a)];
    assert e.Apply(mid) == b;
    OneStep(e, mid, b);
    Chain(q, [e], a, mid, b);
  }

  /** The recurrence computes the edit distance. */
  lemma LevIsEditDistance(a: string, b: string)
    ensures IsEditDistance(a, b, Lev(a, b))
  {
    var p := ShortestScript(a, b);
    assert Transforms(p, a, b) && |p| == Lev(a, b);
    forall script | Transforms(script, a, b) ensures Lev(a, b) <= |script| {
      ScriptAtLeastLev(script, a, b);
    }
  }

  lemma TriangleInequality(a: string, b: string, c: string)
    ensures Lev(a, c) <= Lev(a, b) + Lev(b, c)
  {
    var p := ShortestScript(a, b);
    var q := ShortestScript(b, c);
    Chain(p, q, a, b, c);
    ScriptAtLeastLev(p + q, a, c);
  }

  /** The edit distance is a metric on strings. */
  lemma EditDistanceIsMetric(a: string, b: string, c: string, ab: nat, ba: nat, bc: nat, ac: nat)
    requires IsEditDistance(a, b, ab) && IsEditDistance(b, a, ba)
    requires IsEditDistance(b, c, bc) && IsEditDistance(a, c, ac)
    ensures ab == 0 <==> a == b
    ensures ab == ba
    ensures ac <= ab + bc
  {
    DistanceUnique(a, b, ab);
    DistanceUnique(b, a, ba);
    DistanceUnique(b, c, bc);
    DistanceUnique(a, c, ac);
    LevSymmetric(a, b);
    TriangleInequality(a, b, c);
    LevSelf(a);
    if ab == 0 { LevZeroOnlyIfEqual(a, b); }
  }

  lemma DistanceUnique(a: string, b: string, d: nat)
    requires IsEditDistance(a, b, d)
    ensures d == Lev(a, b)
  {
    LevIsEditDistance(a, b);
    var p :| Transforms(p, a, b) && |p| == d;
    var q :| Transforms(q, a, b) && |q| == Lev(a, b);
  }

  // ----- the program

  /** `t[i][j]` is the distance between the first `i` characters of `a` and the first `j` of `b`:
      the whole table, of which the program keeps two rows. */
  ghost predicate IsTable(t: seq<seq<nat>>, a: string, b: string) {
    && |t| == |a| + 1
    && (forall i :: 0 <= i <= |a| ==> |t[i]| == |b| + 1)
    && (forall j :: 0 <= j <= |b| ==> t[0][j] == j)
    && (forall i :: 0 <= i <= |a| ==> t[i][0] == i)
    && (forall i, j :: 0 < i <= |a| && 0 < j <= |b| ==> CellAt(t, a, b, i, j))
  }

  /** A cell is determined by its left, upper and upper-left neighbours. */
  ghost predicate CellAt(t: seq<seq<nat>>, a: string, b: string, i: nat, j: nat)
    requires 0 < i <= |a| && 0 < j <= |b|
  {
    && i < |t| && j < |t[i]| && j < |t[i - 1]|
    && t[i][j] == Min(Min(t[i - 1][j] + 1, t[i][j - 1] + 1), t[i - 1][j - 1] + Cost(a[i - 1], b[j - 1]))
  }

  lemma DistanceTable(a: string, b: string) returns (t: seq<seq<nat>>)
    ensures IsTable(t, a, b) && t[|a|][|b|] == Lev(a, b)
  {
    t := seq(|a| + 1, i requires 0 <= i <= |a| => seq(|b| + 1, j requires 0 <= j <= |b| => Lev(a[..i], b[..j])));
    forall i, j | 0 < i <= |a| && 0 < j <= |b|
      ensures CellAt(t, a, b, i, j)
    {
      assert Front(a[..i]) == a[..i - 1] && Front(b[..j]) == b[..j - 1];
    }
    assert a[..|a|] == a && b[..|b|] == b;
  }

  /** fuzzy.rs `levenshtein`: the shorter string indexes the rows, and the rows are swapped after
      every character of the longer one. */
  method Distance(s1: string, s2: string) returns (d: nat)
    ensures d == Lev(s1, s2)
  {
    var a, b := s1, s2;
    if |a| < |b| {
      a, b := b, a;
      LevSymmetric(s1, s2);
    }
    if b == [] {
      return |a|;
    }
    var prev := new nat[|b| + 1](j => j);
    var curr := new nat[|b| + 1](_ => 0);
    ghost var t := DistanceTable(a, b);
    for i := 1 to |a| + 1
      invariant prev != curr && prev.Length == curr.Length == |b| + 1
      invariant fresh(prev) && fresh(curr)
      invariant forall k :: 0 <= k <= |b| ==> prev[k] == t[i - 1][k]
    {
      curr[0] := i;
      for j := 1 to |b| + 1
        invariant forall k :: 0 <= k <= |b| ==> prev[k] == t[i - 1][k]
        invariant forall k :: 0 <= k < j ==> curr[k] == t[i][k]
      {
        var cost := if a[i - 1] == b[j - 1] then 0 else 1;
        assert CellAt(t, a, b, i, j);
        curr[j] := Min(Min(prev[j] + 1, curr[j - 1] + 1), prev[j - 1] + cost);
      }
      prev, curr := curr, prev;
    }
    d := prev[|b|];
  }
}
