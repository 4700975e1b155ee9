/** What a query is taken for and what its answer holds, spelled out. */
module EngineExact {
  import opened Wrappers
  import opened EngineModel
  import opened EngineProgram
  import opened EngineCache
  import opened Sequences
  import Fuzzy

  // ----- where a query goes

  /** Nothing to trim at either end. */
  predicate Bare(t: string, drop: char -> bool) {
    t != "" ==> !drop(t[0]) && !drop(t[|t| - 1])
  }

  predicate Padding(pad: string, drop: char -> bool) {
    forall c :: c in pad ==> drop(c)
  }

  lemma TrimExact(a: string, t: string, b: string, drop: char -> bool)
    requires Padding(a, drop) && Bare(t, drop) && Padding(b, drop)
    ensures Trim(a + t + b, drop) == t
  {
    TrimPad(a, t, b, drop);
    assert TrimStart(t, drop) == t;
    assert TrimEnd(t, drop) == t;
  }

  /** White space around a query means nothing. What is left is a folder search after a slash, a contains
      search when it has a star at either end, and otherwise a normal search, in lower case. */
  lemma RouteExact(a: string, t: string, b: string, x: Text)
    requires Padding(a, x.isSpace) && Bare(t, x.isSpace) && Padding(b, x.isSpace)
    ensures t == "" ==> RouteOf(a + t + b, x) == Nothing
    ensures t != "" && t[0] != '/' && t[0] != '*' && t[|t| - 1] != '*' ==> RouteOf(a + t + b, x) == Normal(x.lower(t))
  {
    TrimExact(a, t, b, x.isSpace);
  }

  lemma FolderRoute(a: string, c: string, d: string, b: string, x: Text)
    requires Padding(a, x.isSpace) && Padding(b, x.isSpace) && Padding(c, x.isSpace) && !x.isSpace('/')
    requires Bare(d, x.isSpace)
    ensures RouteOf(a + ("/" + (c + d)) + b, x) == if d == "" then Nothing else Folders(d)
  {
    var t := "/" + (c + d);
    if d == "" {
      assert a + t + b == a + "/" + (c + b);
      TrimExact(a, "/", c + b, x.isSpace);
      assert "/"[1..] == "";
    } else {
      assert t[|t| - 1] == d[|d| - 1];
      TrimExact(a, t, b, x.isSpace);
      assert t[1..] == c + d == c + d + "";
      TrimExact(c, d, "", x.isSpace);
    }
  }

  /** Stars around a text, at least one in all. */
  lemma StarRoute(a: string, l: string, u: string, r: string, b: string, x: Text)
    requires Padding(a, x.isSpace) && Padding(b, x.isSpace) && !x.isSpace('*')
    requires (forall c :: c in l + r ==> c == '*') && l + r != ""
    requires u != "" ==> u[0] != '*' && u[|u| - 1] != '*'
    requires u != "" && l == "" ==> !x.isSpace(u[0]) && u[0] != '/'
    requires u != "" && r == "" ==> !x.isSpace(u[|u| - 1])
    ensures RouteOf(a + (l + u + r) + b, x) == if x.lower(u) == "" then Nothing else Stars(x.lower(u))
  {
    var t, star := l + u + r, (c: char) => c == '*';
    assert forall c :: c in l ==> c in l + r;
    assert forall c :: c in r ==> c in l + r;
    if l != "" { assert t[0] == l[0] && l[0] in l; }
    if r != "" { assert t[|t| - 1] == r[|r| - 1] && r[|r| - 1] in r; }
    if l == "" && u == "" { assert t[0] == r[0] && r[0] in r; }
    if r == "" && u == "" { assert t[|t| - 1] == l[|l| - 1] && l[|l| - 1] in l; }
    if l == "" && u != "" { assert t[0] == u[0]; }
    if r == "" && u != "" { assert t[|t| - 1] == u[|u| - 1]; }
    TrimExact(a, t, b, x.isSpace);
    TrimExact(l, u, r, star);
  }

  // ----- what the answers hold

  /** A folder search answers with the rows found, name for name and path for path. */
  lemma FolderAnswer(s: Stores, query: string, d: string, limit: nat, x: Text)
    requires RouteOf(query, x) == Folders(d)
    ensures s.dirs(d, limit).None? ==> Answer(s, query, limit, x) == Err(DbError)
    ensures s.dirs(d, limit).Some? ==>
      var rows := s.dirs(d, limit).value;
      Answer(s, query, limit, x).Ok? && |Answer(s, query, limit, x).value| == |rows|
      && forall i :: 0 <= i < |rows| ==>
        Answer(s, query, limit, x).value[i] == SearchResult(rows[i].name, rows[i].path, None, File, 1.0, None)
  {
  }

  /** A search with stars answers with the paths of the wildcard index. */
  lemma StarAnswer(s: Stores, query: string, t: string, limit: nat, x: Text)
    requires RouteOf(query, x) == Stars(t)
    ensures s.wildcard(t, limit).None? ==> Answer(s, query, limit, x) == Err(IndexError)
    ensures s.wildcard(t, limit).Some? ==>
      Answer(s, query, limit, x).Ok? && FilesOf(Answer(s, query, limit, x).value, s.wildcard(t, limit).value, 0.65, x)
  {
  }

  /** A normal search fails exactly when an index or the database does in a stage that runs. */
  lemma NormalFails(s: Stores, q: string, limit: nat, x: Text)
    ensures Pipeline(s, q, limit, x).Err? ==>
      (s.fullText(q, limit).None? && Pipeline(s, q, limit, x).error == IndexError)
      || (s.wildcard(q, limit).None? && Pipeline(s, q, limit, x).error == IndexError)
      || (s.files(q).None? && Pipeline(s, q, limit, x).error == DbError)
  {
  }

  // ----- the cache after a search

  /** After a search a key is cached exactly when the eviction kept it and it was there before or is the key
      of this search, which succeeded; then its entry is what was there, or the answer. */
  lemma CachedAfter(st: State, query: string, limit: nat, keep: set<string>, x: Text, k: string)
    requires RouteOf(query, x).Normal?
    ensures var q := RouteOf(query, x).key;
      var before, after := st.cache, Stepped(st, DoSearch(query, limit, keep), x).cache;
      var answer := if q in before then Ok(before[q]) else Pipeline(st.stores, q, limit, x);
      && Lookup(st, query, limit, x) == answer
      && (answer.Ok? ==> (k in after <==> k in keep && (k in before || k == q)))
      && (answer.Ok? && k in after ==> after[k] == if k in before then before[k] else answer.value)
      && (answer.Err? ==> after == before)
  {
  }
}
