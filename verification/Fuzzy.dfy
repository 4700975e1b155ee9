/** `match_candidates` of fuzzy.rs: Jaro-Winkler first, Levenshtein as the fallback. */
module Fuzzy {
  import opened Wrappers
  import opened Sorting
  import Levenshtein
  import Jaro

  datatype FileRow = FileRow(name: string, path: string)

  datatype FuzzyMatch = FuzzyMatch(path: string, name: string, score: real)

  predicate ByScore(x: FuzzyMatch, y: FuzzyMatch) {
    y.score <= x.score
  }

  function Max3(x: nat, y: nat, z: nat): nat {
    Levenshtein.Max(Levenshtein.Max(x, y), z)
  }

  function Fallback(dist: nat, lq: nat, ln: nat): real {
    1.0 - dist as real / Max3(lq, ln, 1) as real
  }

  /** The score of one lowered name, or None when it is too far from the lowered query. */
  ghost function ScoreOf(q: string, name: string, threshold: real, maxDist: nat): Option<real> {
    var jw := Jaro.WinklerScore(q, name);
    var dist := Levenshtein.Lev(q, name);
    if jw >= threshold then Some(jw)
    else if dist <= maxDist then Some(Fallback(dist, |q|, |name|))
    else None
  }

  ghost function ScoreRows(q: string, rows: seq<FileRow>, threshold: real, maxDist: nat, lower: string -> string)
    : seq<FuzzyMatch>
  {
    if rows == [] then [] else
      var row := rows[|rows| - 1];
      var score := ScoreOf(q, lower(row.name), threshold, maxDist);
      ScoreRows(q, rows[..|rows| - 1], threshold, maxDist, lower)
        + (if score.Some? then [FuzzyMatch(row.path, row.name, score.value)] else [])
  }

  function Take<T>(s: seq<T>, n: nat): seq<T> {
    if |s| <= n then s else s[..n]
  }

  /** Kept rows, best first, ties in row order, at most `limit`. */
  ghost function Ranked(query: string, rows: seq<FileRow>, threshold: real, maxDist: nat, limit: nat,
                        lower: string -> string): seq<FuzzyMatch>
  {
    Take(StableSort(ScoreRows(lower(query), rows, threshold, maxDist, lower), ByScore), limit)
  }

  method MatchCandidates(query: string, rows: seq<FileRow>, threshold: real, maxDist: nat, limit: nat,
                         lower: string -> string) returns (out: seq<FuzzyMatch>)
    ensures out == Ranked(query, rows, threshold, maxDist, limit, lower)
  {
    var q := lower(query);
    out := [];
    for i := 0 to |rows|
      invariant out == ScoreRows(q, rows[..i], threshold, maxDist, lower)
    {
      var name := lower(rows[i].name);
      var jw := Jaro.Winkler(q, name);
      var score: Option<real>;
      if jw >= threshold {
        score := Some(jw);
      } else {
        var dist := Levenshtein.Distance(q, name);
        if dist <= maxDist {
          score := Some(Fallback(dist, |q|, |name|));
        } else {
          score := None;
        }
      }
      assert rows[..i + 1][..i] == rows[..i];
      if score.Some? {
        out := out + [FuzzyMatch(rows[i].path, rows[i].name, score.value)];
      }
    }
    assert rows[..|rows|] == rows;
    out := StableSort(out, ByScore);
    if limit < |out| {
      out := out[..limit];
    }
  }

  // ----- properties

  /** Both branches score in [0, 1], and the score 1 means the same name up to case. */
  lemma ScoreRange(q: string, name: string, threshold: real, maxDist: nat)
    requires ScoreOf(q, name, threshold, maxDist).Some?
    ensures 0.0 <= ScoreOf(q, name, threshold, maxDist).value <= 1.0
    ensures ScoreOf(q, name, threshold, maxDist).value == 1.0 <==> q == name
  {
    Jaro.WinklerRange(q, name);
    var dist := Levenshtein.Lev(q, name);
    Levenshtein.LevBound(q, name);
    Levenshtein.LevSelf(q);
    if dist == 0 { Levenshtein.LevZeroOnlyIfEqual(q, name); }
    FallbackRange(dist, |q|, |name|);
  }

  lemma FallbackRange(dist: nat, lq: nat, ln: nat)
    requires dist <= Levenshtein.Max(lq, ln)
    ensures 0.0 <= Fallback(dist, lq, ln) <= 1.0
    ensures Fallback(dist, lq, ln) == 1.0 <==> dist == 0
  {
    var top := Max3(lq, ln, 1);
    Jaro.QuotientBound(dist, top);
    var r := dist as real / top as real;
    assert r * top as real == dist as real;
  }

  lemma {:induction false} RowsScored(q: string, rows: seq<FileRow>, threshold: real, maxDist: nat,
                                      lower: string -> string)
    ensures forall m :: m in ScoreRows(q, rows, threshold, maxDist, lower) ==>
      && FileRow(m.name, m.path) in rows
      && ScoreOf(q, lower(m.name), threshold, maxDist) == Some(m.score)
  {
    if rows != [] {
      RowsScored(q, rows[..|rows| - 1], threshold, maxDist, lower);
    }
  }

  /** Results are rows of the input, sorted by score, all scores in [0, 1], within the limit. */
  lemma RankedSorted(query: string, rows: seq<FileRow>, threshold: real, maxDist: nat, limit: nat,
                     lower: string -> string)
    ensures var out := Ranked(query, rows, threshold, maxDist, limit, lower);
      && |out| <= limit
      && (forall i, j :: 0 <= i < j < |out| ==> out[j].score <= out[i].score)
      && (forall m :: m in out ==> FileRow(m.name, m.path) in rows && 0.0 <= m.score <= 1.0)
      && (forall m :: m in out ==> (m.score == 1.0 <==> lower(query) == lower(m.name)))
  {
    var q := lower(query);
    var kept := ScoreRows(q, rows, threshold, maxDist, lower);
    var out := Ranked(query, rows, threshold, maxDist, limit, lower);
    StableSortCorrect(kept, ByScore);
    RowsScored(q, rows, threshold, maxDist, lower);
    forall m | m in out
      ensures FileRow(m.name, m.path) in rows && 0.0 <= m.score <= 1.0
      ensures m.score == 1.0 <==> q == lower(m.name)
    {
      assert m in multiset(StableSort(kept, ByScore));
      assert m in kept;
      ScoreRange(q, lower(m.name), threshold, maxDist);
    }
  }

  /** When some row has the queried name up to case, the first such row is the first result. */
  lemma ExactNameFirst(query: string, rows: seq<FileRow>, threshold: real, maxDist: nat, limit: nat,
                       lower: string -> string, i: nat)
    requires i < |rows| && lower(rows[i].name) == lower(query) && limit > 0
    requires forall k :: 0 <= k < i ==> lower(rows[k].name) != lower(query)
    ensures var out := Ranked(query, rows, threshold, maxDist, limit, lower);
      out != [] && out[0] == FuzzyMatch(rows[i].path, rows[i].name, 1.0)
  {
    var q := lower(query);
    var best := FuzzyMatch(rows[i].path, rows[i].name, 1.0);
    var kept := ScoreRows(q, rows, threshold, maxDist, lower);
    var sorted := StableSort(kept, ByScore);
    StableSortCorrect(kept, ByScore);
    FirstPerfect(q, rows, threshold, maxDist, lower, i);
    assert ClassOf(sorted, ByScore, best)[0] == best;
    ClassMember(sorted, best);
    RankedSorted(query, rows, threshold, maxDist, |sorted|, lower);
    var k :| 0 <= k < |sorted| && sorted[k] == best;
    assert ByScore(sorted[0], best);
    assert sorted[0].score == 1.0;
    assert Equivalent(ByScore, best, sorted[0]);
  }

  lemma {:induction false} ClassMember(s: seq<FuzzyMatch>, x: FuzzyMatch)
    ensures forall m :: m in ClassOf(s, ByScore, x) ==> m in s
  {
    if s != [] {
      ClassMember(s[1..], x);
    }
  }

  /** The rows scored so far, and what the last row adds. */
  lemma ScoreLastRow(q: string, rows: seq<FileRow>, threshold: real, maxDist: nat, lower: string -> string,
                     x: FuzzyMatch)
    requires rows != []
    ensures var row := rows[|rows| - 1];
      var score := ScoreOf(q, lower(row.name), threshold, maxDist);
      ClassOf(ScoreRows(q, rows, threshold, maxDist, lower), ByScore, x)
        == ClassOf(ScoreRows(q, rows[..|rows| - 1], threshold, maxDist, lower), ByScore, x)
           + ClassOf(if score.Some? then [FuzzyMatch(row.path, row.name, score.value)] else [], ByScore, x)
  {
    var row := rows[|rows| - 1];
    var score := ScoreOf(q, lower(row.name), threshold, maxDist);
    ClassAppend(ScoreRows(q, rows[..|rows| - 1], threshold, maxDist, lower),
                if score.Some? then [FuzzyMatch(row.path, row.name, score.value)] else [], ByScore, x);
  }

  lemma ClassGrows(q: string, rows: seq<FileRow>, threshold: real, maxDist: nat, lower: string -> string,
                   x: FuzzyMatch)
    requires rows != []
    ensures ClassOf(ScoreRows(q, rows[..|rows| - 1], threshold, maxDist, lower), ByScore, x)
         <= ClassOf(ScoreRows(q, rows, threshold, maxDist, lower), ByScore, x)
  {
    ScoreLastRow(q, rows, threshold, maxDist, lower, x);
  }

  lemma PerfectScore(q: string, threshold: real, maxDist: nat)
    ensures ScoreOf(q, q, threshold, maxDist) == Some(1.0)
  {
    Jaro.WinklerRange(q, q);
    Levenshtein.LevSelf(q);
  }

  lemma {:induction false} FirstPerfect(q: string, rows: seq<FileRow>, threshold: real, maxDist: nat,
                                        lower: string -> string, i: nat)
    requires i < |rows| && lower(rows[i].name) == q
    requires forall k :: 0 <= k < i ==> lower(rows[k].name) != q
    ensures var best := FuzzyMatch(rows[i].path, rows[i].name, 1.0);
      var c := ClassOf(ScoreRows(q, rows, threshold, maxDist, lower), ByScore, best);
      c != [] && c[0] == best
  {
    var best := FuzzyMatch(rows[i].path, rows[i].name, 1.0);
    if i < |rows| - 1 {
      ClassGrows(q, rows, threshold, maxDist, lower, best);
      FirstPerfect(q, rows[..|rows| - 1], threshold, maxDist, lower, i);
    } else {
      PerfectLast(q, rows, threshold, maxDist, lower);
    }
  }

  lemma PerfectLast(q: string, rows: seq<FileRow>, threshold: real, maxDist: nat, lower: string -> string)
    requires rows != [] && lower(rows[|rows| - 1].name) == q
    requires forall k :: 0 <= k < |rows| - 1 ==> lower(rows[k].name) != q
    ensures var best := FuzzyMatch(rows[|rows| - 1].path, rows[|rows| - 1].name, 1.0);
      ClassOf(ScoreRows(q, rows, threshold, maxDist, lower), ByScore, best) == [best]
  {
    var n := |rows| - 1;
    var best := FuzzyMatch(rows[n].path, rows[n].name, 1.0);
    ScoreLastRow(q, rows, threshold, maxDist, lower, best);
    PerfectScore(q, threshold, maxDist);
    NonePerfect(q, rows[..n], threshold, maxDist, lower, best);
    Singleton(best);
    assert [] + [best] == [best];
  }

  lemma Singleton(x: FuzzyMatch)
    ensures ClassOf([x], ByScore, x) == [x]
  {
  }

  lemma {:induction false} NonePerfect(q: string, rows: seq<FileRow>, threshold: real, maxDist: nat,
                                       lower: string -> string, x: FuzzyMatch)
    requires x.score == 1.0 && forall k :: 0 <= k < |rows| ==> lower(rows[k].name) != q
    ensures ClassOf(ScoreRows(q, rows, threshold, maxDist, lower), ByScore, x) == []
  {
    if rows != [] {
      var n := |rows| - 1;
      NonePerfect(q, rows[..n], threshold, maxDist, lower, x);
      ScoreLastRow(q, rows, threshold, maxDist, lower, x);
      if ScoreOf(q, lower(rows[n].name), threshold, maxDist).Some? {
        ScoreRange(q, lower(rows[n].name), threshold, maxDist);
      }
    }
  }

  // ----- what is kept, spelled out

  /** The score from the two measures of a pair of names whose longer one has `longest` characters. */
  predicate ScoredBy(score: real, w: real, edits: nat, longest: nat, threshold: real, maxDist: nat) {
    && (w >= threshold ==> score == w)
    && (w < threshold ==> edits <= maxDist && score * longest as real == longest as real - edits as real)
  }

  function Longest(lq: nat, ln: nat): nat {
    if lq == 0 && ln == 0 then 1 else if lq < ln then ln else lq
  }

  /** `m` is the result for a row: Jaro-Winkler when it reaches the threshold, and otherwise, when no more
      than `maxDist` edits turn one name into the other, the part of the longer name that needs no edit. */
  ghost predicate ResultFor(m: FuzzyMatch, q: string, row: FileRow, threshold: real, maxDist: nat,
                            lower: string -> string) {
    var name := lower(row.name);
    && m.path == row.path && m.name == row.name
    && ScoredBy(m.score, Jaro.WinklerScore(q, name), Levenshtein.Lev(q, name), Longest(|q|, |name|), threshold, maxDist)
  }

  ghost predicate Kept(q: string, row: FileRow, threshold: real, maxDist: nat, lower: string -> string) {
    Jaro.WinklerScore(q, lower(row.name)) >= threshold || Levenshtein.Lev(q, lower(row.name)) <= maxDist
  }

  lemma FallbackIs(dist: nat, lq: nat, ln: nat) returns (score: real)
    requires dist <= Levenshtein.Max(lq, ln)
    ensures score == Fallback(dist, lq, ln)
    ensures score * Longest(lq, ln) as real == Longest(lq, ln) as real - dist as real
  {
    var longest := Max3(lq, ln, 1);
    var r := dist as real / longest as real;
    assert r * longest as real == dist as real;
    score := 1.0 - r;
  }

  lemma MeasuresScore(w: real, edits: nat, lq: nat, ln: nat, threshold: real, maxDist: nat, score: Option<real>)
    requires edits <= Levenshtein.Max(lq, ln)
    requires score == if w >= threshold then Some(w)
                      else if edits <= maxDist then Some(Fallback(edits, lq, ln)) else None
    ensures score.Some? <==> w >= threshold || edits <= maxDist
    ensures score.Some? ==> ScoredBy(score.value, w, edits, Longest(lq, ln), threshold, maxDist)
  {
    var f := FallbackIs(edits, lq, ln);
  }

  lemma ScoreIs(q: string, row: FileRow, threshold: real, maxDist: nat, lower: string -> string)
    returns (score: Option<real>)
    ensures score == ScoreOf(q, lower(row.name), threshold, maxDist)
    ensures score.Some? <==> Kept(q, row, threshold, maxDist, lower)
    ensures score.Some? ==>
      ResultFor(FuzzyMatch(row.path, row.name, score.value), q, row, threshold, maxDist, lower)
  {
    var name := lower(row.name);
    var w, edits := Jaro.WinklerScore(q, name), Levenshtein.Lev(q, name);
    score := ScoreOf(q, name, threshold, maxDist);
    Levenshtein.LevBound(q, name);
    MeasuresScore(w, edits, |q|, |name|, threshold, maxDist, score);
  }

  /** The positions in a list of flags that are set, in order. */
  ghost predicate Lists(kept: seq<nat>, flags: seq<bool>) {
    && (forall i, j :: 0 <= i < j < |kept| ==> kept[i] < kept[j])
    && (forall i: nat :: i in kept <==> i < |flags| && flags[i])
  }

  lemma ListsNext(kept: seq<nat>, flags: seq<bool>, flag: bool) returns (next: seq<nat>)
    requires Lists(kept, flags)
    ensures next == (if flag then kept + [|flags|] else kept) && Lists(next, flags + [flag])
  {
    next := if flag then kept + [|flags|] else kept;
    forall r | 0 <= r < |kept| ensures kept[r] < |flags| {
      assert kept[r] in kept;
    }
  }

  ghost function KeptFlags(q: string, rows: seq<FileRow>, threshold: real, maxDist: nat, lower: string -> string)
    : (flags: seq<bool>)
    ensures |flags| == |rows|
    ensures forall i :: 0 <= i < |rows| ==> flags[i] == Kept(q, rows[i], threshold, maxDist, lower)
  {
    if rows == [] then []
    else KeptFlags(q, rows[..|rows| - 1], threshold, maxDist, lower)
         + [Kept(q, rows[|rows| - 1], threshold, maxDist, lower)]
  }

  ghost predicate ResultsFor(out: seq<FuzzyMatch>, q: string, rows: seq<FileRow>, kept: seq<nat>, threshold: real,
                             maxDist: nat, lower: string -> string) {
    |out| == |kept| && forall r :: 0 <= r < |kept| ==>
      kept[r] < |rows| && ResultFor(out[r], q, rows[kept[r]], threshold, maxDist, lower)
  }

  lemma ResultsOfMore(out: seq<FuzzyMatch>, q: string, rows: seq<FileRow>, kept: seq<nat>, threshold: real,
                      maxDist: nat, lower: string -> string)
    requires rows != [] && ResultsFor(out, q, rows[..|rows| - 1], kept, threshold, maxDist, lower)
    ensures ResultsFor(out, q, rows, kept, threshold, maxDist, lower)
  {
    forall r | 0 <= r < |kept| ensures kept[r] < |rows| && rows[kept[r]] == rows[..|rows| - 1][kept[r]] {
    }
  }

  lemma ResultsAppend(out: seq<FuzzyMatch>, m: FuzzyMatch, q: string, rows: seq<FileRow>, kept: seq<nat>, i: nat,
                      threshold: real, maxDist: nat, lower: string -> string)
    requires ResultsFor(out, q, rows, kept, threshold, maxDist, lower)
    requires i < |rows| && ResultFor(m, q, rows[i], threshold, maxDist, lower)
    ensures ResultsFor(out + [m], q, rows, kept + [i], threshold, maxDist, lower)
  {
  }

  /** The results before sorting: the kept rows, each once, in order. */
  lemma {:induction false} ScoredRowsAre(q: string, rows: seq<FileRow>, threshold: real, maxDist: nat,
                                         lower: string -> string) returns (kept: seq<nat>, out: seq<FuzzyMatch>)
    ensures Lists(kept, KeptFlags(q, rows, threshold, maxDist, lower))
    ensures out == ScoreRows(q, rows, threshold, maxDist, lower)
    ensures ResultsFor(out, q, rows, kept, threshold, maxDist, lower)
  {
    if rows == [] {
      kept, out := [], [];
    } else {
      var n, row := |rows| - 1, rows[|rows| - 1];
      kept, out := ScoredRowsAre(q, rows[..n], threshold, maxDist, lower);
      ResultsOfMore(out, q, rows, kept, threshold, maxDist, lower);
      var score := ScoreIs(q, row, threshold, maxDist, lower);
      if score.Some? {
        ResultsAppend(out, FuzzyMatch(row.path, row.name, score.value), q, rows, kept, n, threshold, maxDist, lower);
        out := out + [FuzzyMatch(row.path, row.name, score.value)];
      } else {
        assert out + [] == out;
      }
      kept := ListsNext(kept, KeptFlags(q, rows[..n], threshold, maxDist, lower), score.Some?);
    }
  }

  /** Without a limit that cuts, the results are exactly those of the kept rows. */
  lemma KeptExact(query: string, rows: seq<FileRow>, threshold: real, maxDist: nat, limit: nat,
                  lower: string -> string) returns (kept: seq<nat>)
    ensures forall i, j :: 0 <= i < j < |kept| ==> kept[i] < kept[j]
    ensures forall i: nat :: i in kept <==> i < |rows| && Kept(lower(query), rows[i], threshold, maxDist, lower)
    ensures var out := Ranked(query, rows, threshold, maxDist, limit, lower);
      && |out| == (if |kept| < limit then |kept| else limit)
      && (forall m :: m in out ==> FromRow(m, lower(query), rows, kept, threshold, maxDist, lower))
      && (|kept| <= limit ==> forall i :: i in kept ==>
            Delivered(out, lower(query), rows[i], threshold, maxDist, lower))
  {
    var q := lower(query);
    var all;
    kept, all := ScoredRowsAre(q, rows, threshold, maxDist, lower);
    var sorted := StableSort(all, ByScore);
    StableSortCorrect(all, ByScore);
    var out := Ranked(query, rows, threshold, maxDist, limit, lower);
    assert |multiset(sorted)| == |sorted| && |multiset(all)| == |all|;
    forall m | m in out ensures FromRow(m, q, rows, kept, threshold, maxDist, lower) {
      assert m in multiset(sorted);
      var r :| 0 <= r < |all| && all[r] == m;
      assert kept[r] in kept;
    }
    if |kept| <= limit {
      forall i | i in kept ensures Delivered(out, q, rows[i], threshold, maxDist, lower) {
        var r :| 0 <= r < |kept| && kept[r] == i;
        assert all[r] in multiset(all);
        assert all[r] in out;
      }
    }
  }

  ghost predicate FromRow(m: FuzzyMatch, q: string, rows: seq<FileRow>, kept: seq<nat>, threshold: real,
                          maxDist: nat, lower: string -> string) {
    exists i :: i in kept && i < |rows| && ResultFor(m, q, rows[i], threshold, maxDist, lower)
  }

  ghost predicate Delivered(out: seq<FuzzyMatch>, q: string, row: FileRow, threshold: real, maxDist: nat,
                            lower: string -> string) {
    exists m :: m in out && ResultFor(m, q, row, threshold, maxDist, lower)
  }
}
