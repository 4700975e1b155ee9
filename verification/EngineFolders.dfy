/** The folder search of db.rs: a substring search with the LIKE operator of SQLite, which ignores the case
    of ASCII letters and of no others. */
module FolderSearch {
  import opened EngineModel
  import Fuzzy

  function AsciiLower(c: char): char {
    if 'A' <= c <= 'Z' then c - 'A' + 'a' else c
  }

  function FoldAscii(s: string): (t: string)
    ensures |t| == |s| && forall i :: 0 <= i < |s| ==> t[i] == AsciiLower(s[i])
  {
    seq(|s|, i requires 0 <= i < |s| => AsciiLower(s[i]))
  }

  /** `s LIKE p`: `%` stands for any text and `_` for any character. */
  predicate Like(p: string, s: string)
    decreases |p| + |s|
  {
    if p == [] then s == []
    else if p[0] == '%' then Like(p[1..], s) || (s != [] && Like(p, s[1..]))
    else s != [] && (p[0] == '_' || AsciiLower(p[0]) == AsciiLower(s[0])) && Like(p[1..], s[1..])
  }

  function Matching(rows: seq<Fuzzy.FileRow>, p: string): seq<Fuzzy.FileRow> {
    if rows == [] then [] else
      (if Like(p, rows[0].name) then [rows[0]] else []) + Matching(rows[1..], p)
  }

  /** `search_dirs_by_name` over the directory rows, which stand in the order of their names. */
  function DirsByName(rows: seq<Fuzzy.FileRow>, query: string, limit: nat): seq<Fuzzy.FileRow> {
    Take(Matching(rows, "%" + query + "%"), limit)
  }

  // ----- what the wildcards mean, and which rows are answered

  lemma {:induction false} SomeSuffix(p: string, s: string)
    ensures Like("%" + p, s) <==> exists i: nat :: i <= |s| && Like(p, s[i..])
    decreases |s|
  {
    var q := "%" + p;
    assert q[0] == '%' && q[1..] == p && s[0..] == s;
    if s == [] {
      assert forall i: nat :: i <= |s| ==> s[i..] == s;
    } else {
      SomeSuffix(p, s[1..]);
      assert forall i: nat :: i < |s| ==> s[1..][i..] == s[i + 1..];
      if i: nat :| i <= |s| && Like(p, s[i..]) {
        assert i > 0 ==> s[1..][i - 1..] == s[i..];
      }
    }
  }

  /** A percent sign stands for any text, an underscore for any one character, anything else for itself in
      either ASCII case. */
  lemma LikeMeans(c: char, p: string, s: string)
    ensures Like("", s) <==> s == ""
    ensures c == '%' ==> (Like([c] + p, s) <==> exists i: nat :: i <= |s| && Like(p, s[i..]))
    ensures c == '_' ==> (Like([c] + p, s) <==> s != "" && Like(p, s[1..]))
    ensures c != '%' && c != '_' ==>
      (Like([c] + p, s) <==> s != "" && AsciiLower(s[0]) == AsciiLower(c) && Like(p, s[1..]))
  {
    assert ([c] + p)[0] == c && ([c] + p)[1..] == p;
    if c == '%' { SomeSuffix(p, s); }
  }

  lemma {:induction false} MatchingPicks(rows: seq<Fuzzy.FileRow>, p: string) returns (at: seq<nat>)
    ensures Picks(at, rows, Matching(rows, p))
    ensures forall i: nat :: i in at <==> i < |rows| && Like(p, rows[i].name)
  {
    if rows == [] {
      at := [];
    } else {
      var rest := MatchingPicks(rows[1..], p);
      var first := Like(p, rows[0].name);
      at := WithFirst(first, rest);
      PicksShift(rows, first, rest, Matching(rows[1..], p));
      forall i: nat ensures i in at <==> i < |rows| && Like(p, rows[i].name) {
        WithFirstMember(first, rest, i);
      }
    }
  }

  /** The rows found are the matching ones, each once and in the order of the table, and the limit cuts them
      off at the end. */
  lemma FoldersFound(rows: seq<Fuzzy.FileRow>, query: string, limit: nat) returns (at: seq<nat>)
    ensures forall k, l :: 0 <= k < l < |at| ==> at[k] < at[l]
    ensures forall i: nat :: i in at <==> i < |rows| && Like("%" + query + "%", rows[i].name)
    ensures |DirsByName(rows, query, limit)| == if |at| < limit then |at| else limit
    ensures forall k :: 0 <= k < |DirsByName(rows, query, limit)| ==>
      at[k] < |rows| && DirsByName(rows, query, limit)[k] == rows[at[k]]
  {
    at := MatchingPicks(rows, "%" + query + "%");
  }

  // ----- the pattern may be written in any ASCII case

  lemma {:induction false} LikeIgnoresCase(p: string, r: string, s: string)
    requires FoldAscii(p) == FoldAscii(r)
    ensures Like(p, s) == Like(r, s)
    decreases |p| + |s|
  {
    if p != [] {
      assert FoldAscii(p)[0] == FoldAscii(r)[0];
      assert FoldAscii(p[1..]) == FoldAscii(p)[1..] == FoldAscii(r)[1..] == FoldAscii(r[1..]);
      if s != [] { LikeIgnoresCase(p, r, s[1..]); }
      LikeIgnoresCase(p[1..], r[1..], s);
      if s != [] { LikeIgnoresCase(p[1..], r[1..], s[1..]); }
    }
  }

  lemma {:induction false} MatchingIgnoresCase(rows: seq<Fuzzy.FileRow>, p: string, r: string)
    requires FoldAscii(p) == FoldAscii(r)
    ensures Matching(rows, p) == Matching(rows, r)
  {
    if rows != [] {
      LikeIgnoresCase(p, r, rows[0].name);
      MatchingIgnoresCase(rows[1..], p, r);
    }
  }

  lemma DirsIgnoreCase(rows: seq<Fuzzy.FileRow>, d: string, e: string, limit: nat)
    requires FoldAscii(d) == FoldAscii(e)
    ensures DirsByName(rows, d, limit) == DirsByName(rows, e, limit)
  {
    assert FoldAscii("%" + d + "%") == FoldAscii("%" + e + "%") by {
      assert FoldAscii("%" + d + "%") == "%" + FoldAscii(d) + "%";
      assert FoldAscii("%" + e + "%") == "%" + FoldAscii(e) + "%";
    }
    MatchingIgnoresCase(rows, "%" + d + "%", "%" + e + "%");
  }

  // ----- what such a search finds

  /** No character of its own meaning in a pattern. */
  predicate Plain(d: string) {
    forall i :: 0 <= i < |d| ==> d[i] != '%' && d[i] != '_'
  }

  predicate OccursAt(d: string, s: string, i: nat) {
    i + |d| <= |s| && FoldAscii(s[i..i + |d|]) == FoldAscii(d)
  }

  ghost predicate Contains(s: string, d: string) {
    exists i: nat :: OccursAt(d, s, i)
  }

  predicate StartsLike(d: string, s: string) {
    |d| <= |s| && FoldAscii(s[..|d|]) == FoldAscii(d)
  }

  lemma {:induction false} LikeAnything(s: string)
    ensures Like("%", s)
  {
    if s == [] {
      assert "%"[1..] == [];
    } else {
      LikeAnything(s[1..]);
    }
  }

  lemma {:induction false} LikeStart(d: string, s: string)
    requires Plain(d)
    ensures Like(d + "%", s) <==> StartsLike(d, s)
  {
    var p := d + "%";
    if d == [] {
      assert p == "%" && FoldAscii(s[..0]) == FoldAscii(d);
      LikeAnything(s);
    } else if s != [] {
      assert p[0] == d[0] && p[1..] == d[1..] + "%";
      LikeStart(d[1..], s[1..]);
      StartsLikeNext(d, s);
    }
  }

  lemma StartsLikeNext(d: string, s: string)
    requires d != [] && s != []
    ensures StartsLike(d, s) <==> AsciiLower(d[0]) == AsciiLower(s[0]) && StartsLike(d[1..], s[1..])
  {
    if |d| <= |s| {
      var u, v := FoldAscii(s[..|d|]), FoldAscii(d);
      assert FoldAscii(s[1..][..|d| - 1]) == u[1..] && FoldAscii(d[1..]) == v[1..];
      assert u == [u[0]] + u[1..] && v == [v[0]] + v[1..];
    }
  }

  /** For a text without wildcards, a row matches exactly when the text occurs in its name, up to the case of
      ASCII letters. */
  lemma {:induction false} LikeIsContains(d: string, s: string)
    requires Plain(d)
    ensures Like("%" + d + "%", s) <==> Contains(s, d)
  {
    var p := "%" + d + "%";
    assert p[0] == '%' && p[1..] == d + "%";
    LikeStart(d, s);
    if StartsLike(d, s) {
      assert s[0..0 + |d|] == s[..|d|];
      assert OccursAt(d, s, 0);
    }
    if s != [] {
      LikeIsContains(d, s[1..]);
      if j: nat :| OccursAt(d, s[1..], j) {
        assert s[1..][j..j + |d|] == s[j + 1..j + 1 + |d|];
        assert OccursAt(d, s, j + 1);
      }
    }
    if i: nat :| OccursAt(d, s, i) {
      if i == 0 {
        assert s[0..0 + |d|] == s[..|d|];
      } else {
        assert s[1..][i - 1..i - 1 + |d|] == s[i..i + |d|];
        assert OccursAt(d, s[1..], i - 1);
      }
    }
  }

  /** Before the limit cuts them, the rows found are those whose name contains the text. */
  lemma {:induction false} MatchingMeans(rows: seq<Fuzzy.FileRow>, d: string, row: Fuzzy.FileRow)
    requires Plain(d)
    ensures row in Matching(rows, "%" + d + "%") <==> row in rows && Contains(row.name, d)
  {
    if rows != [] {
      MatchingMeans(rows[1..], d, row);
      LikeIsContains(d, rows[0].name);
    }
  }

  // ----- and no other letters are ignored

  lemma OneRow(row: Fuzzy.FileRow, d: string, limit: nat)
    requires Plain(d) && limit > 0
    ensures DirsByName([row], d, limit) == if Contains(row.name, d) then [row] else []
  {
    LikeIsContains(d, row.name);
    var rows, p := [row], "%" + d + "%";
    assert rows[1..] == [] && Matching(rows[1..], p) == [];
  }

  /** A folder with the searched name is found; so the other text occurs in it. */
  lemma OwnName(d: string, e: string, limit: nat)
    requires Plain(d) && Plain(e) && limit > 0
    requires forall rows :: DirsByName(rows, d, limit) == DirsByName(rows, e, limit)
    ensures |e| <= |d| && (|e| == |d| ==> FoldAscii(d) == FoldAscii(e))
  {
    var row := Fuzzy.FileRow(d, "/" + d);
    assert d[0..0 + |d|] == d;
    assert OccursAt(d, d, 0) && Contains(d, d);
    OneRow(row, d, limit);
    OneRow(row, e, limit);
    var i: nat :| OccursAt(e, d, i);
    if |e| == |d| { assert d[i..i + |e|] == d; }
  }

  /** Two texts without wildcards find the same folders in every table exactly when they differ in the case
      of ASCII letters only. */
  lemma SameFoldersIff(d: string, e: string, limit: nat)
    requires Plain(d) && Plain(e) && limit > 0
    ensures (forall rows :: DirsByName(rows, d, limit) == DirsByName(rows, e, limit))
       <==> FoldAscii(d) == FoldAscii(e)
  {
    if FoldAscii(d) == FoldAscii(e) {
      forall rows ensures DirsByName(rows, d, limit) == DirsByName(rows, e, limit) {
        DirsIgnoreCase(rows, d, e, limit);
      }
    } else if forall rows :: DirsByName(rows, d, limit) == DirsByName(rows, e, limit) {
      OwnName(d, e, limit);
      OwnName(e, d, limit);
    }
  }
}
