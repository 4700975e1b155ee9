/** What `collect`, `prefix_search` and `node_count` of trie.rs return, in terms of the stored map. */
module TrieSearch {
  import opened Wrappers
  import opened Sorting
  import opened TrieModel

  datatype Stored = Stored(key: string, entry: Entry)

  // ----- key order

  predicate KeyLess(a: string, b: string)
    decreases |a|
  {
    b != [] && (a == [] || a[0] < b[0] || (a[0] == b[0] && KeyLess(a[1..], b[1..])))
  }

  lemma {:induction false} KeyLessAsymmetric(a: string, b: string)
    requires KeyLess(a, b)
    ensures !KeyLess(b, a)
    decreases |a|
  {
    if a != [] && a[0] == b[0] {
      KeyLessAsymmetric(a[1..], b[1..]);
    }
  }

  lemma {:induction false} KeyLessPrefix(p: string, a: string, b: string)
    ensures KeyLess(p + a, p + b) == KeyLess(a, b)
    decreases |p|
  {
    if p == [] {
      assert p + a == a && p + b == b;
    } else {
      assert (p + a)[1..] == p[1..] + a && (p + b)[1..] == p[1..] + b;
      KeyLessPrefix(p[1..], a, b);
    }
  }

  // ----- the stored keys in the order `collect` meets them

  function Entries(t: Tree, path: string): seq<Stored>
    decreases t, |t.kids| + 1
  {
    (if t.isEnd && t.value.Some? then [Stored(path, Entry(t.frequency, t.value.value))] else [])
      + KidEntries(t, 0, path)
  }

  /** The entries under the children of `t` from the `i`th on. */
  function KidEntries(t: Tree, i: nat, path: string): seq<Stored>
    requires i <= |t.kids|
    decreases t, |t.kids| - i
  {
    if i == |t.kids| then []
    else Entries(t.kids[i].1, path + [t.kids[i].0]) + KidEntries(t, i + 1, path)
  }

  /** `s` lists keys in strictly increasing key order. */
  ghost predicate InKeyOrder(s: seq<Stored>) {
    forall i, j :: 0 <= i < j < |s| ==> KeyLess(s[i].key, s[j].key)
  }

  lemma {:induction false} EntriesBelow(t: Tree, path: string)
    ensures forall s :: s in Entries(t, path) ==> path <= s.key
    decreases t, |t.kids| + 1
  {
    KidEntriesBelow(t, 0, path);
  }

  /** Every key under the children extends the path by the character of one of them. */
  lemma {:induction false} KidEntriesBelow(t: Tree, i: nat, path: string)
    requires i <= |t.kids|
    ensures forall s :: s in KidEntries(t, i, path) ==>
      path < s.key && exists k :: i <= k < |t.kids| && t.kids[k].0 == s.key[|path|]
    decreases t, |t.kids| - i
  {
    if i < |t.kids| {
      EntriesBelow(t.kids[i].1, path + [t.kids[i].0]);
      KidEntriesBelow(t, i + 1, path);
      forall s | s in Entries(t.kids[i].1, path + [t.kids[i].0])
        ensures path < s.key && t.kids[i].0 == s.key[|path|]
      {
        assert path + [t.kids[i].0] <= s.key;
      }
    }
  }

  lemma OrderedAppend(s: seq<Stored>, t: seq<Stored>)
    requires InKeyOrder(s) && InKeyOrder(t)
    requires forall x, y :: x in s && y in t ==> KeyLess(x.key, y.key)
    ensures InKeyOrder(s + t)
  {
    forall i, j | 0 <= i < j < |s + t| ensures KeyLess((s + t)[i].key, (s + t)[j].key) {
      if i < |s| <= j { assert s[i] in s && t[j - |s|] in t; }
    }
  }

  /** Extensions of a path by a smaller character come first. */
  lemma ExtensionsOrdered(path: string, a: string, b: string)
    requires path < a && path < b && a[|path|] < b[|path|]
    ensures KeyLess(a, b)
  {
    assert a == path + a[|path|..] && b == path + b[|path|..];
    KeyLessPrefix(path, a[|path|..], b[|path|..]);
  }

  /** The walk meets keys in increasing order. */
  lemma {:induction false} EntriesInOrder(t: Tree, path: string)
    requires Canonical(t)
    ensures InKeyOrder(Entries(t, path))
    decreases t, |t.kids| + 1
  {
    KidEntriesInOrder(t, 0, path);
    KidEntriesBelow(t, 0, path);
    var own := Entries(t, path)[..|Entries(t, path)| - |KidEntries(t, 0, path)|];
    forall x, y | x in own && y in KidEntries(t, 0, path) ensures KeyLess(x.key, y.key) {
      assert y.key == path + y.key[|path|..] && x.key == path + [];
      KeyLessPrefix(path, [], y.key[|path|..]);
    }
    OrderedAppend(own, KidEntries(t, 0, path));
    assert Entries(t, path) == own + KidEntries(t, 0, path);
  }

  lemma {:induction false} KidEntriesInOrder(t: Tree, i: nat, path: string)
    requires Canonical(t) && i <= |t.kids|
    ensures InKeyOrder(KidEntries(t, i, path))
    decreases t, |t.kids| - i
  {
    if i < |t.kids| {
      var first, rest := Entries(t.kids[i].1, path + [t.kids[i].0]), KidEntries(t, i + 1, path);
      EntriesInOrder(t.kids[i].1, path + [t.kids[i].0]);
      KidEntriesInOrder(t, i + 1, path);
      EntriesBelow(t.kids[i].1, path + [t.kids[i].0]);
      KidEntriesBelow(t, i + 1, path);
      forall x, y | x in first && y in rest ensures KeyLess(x.key, y.key) {
        assert path + [t.kids[i].0] <= x.key && x.key[|path|] == t.kids[i].0 && path < x.key;
        ExtensionsOrdered(path, x.key, y.key);
      }
      OrderedAppend(first, rest);
    }
  }

  /** The walk meets exactly the stored keys, with their entries. */
  lemma {:induction false} EntriesExact(t: Tree, path: string, key: string, e: Entry)
    requires Canonical(t)
    ensures Stored(path + key, e) in Entries(t, path) <==> Lookup(t, key) == Some(e)
    decreases t, |t.kids| + 1
  {
    KidEntriesBelow(t, 0, path);
    if key == [] {
      assert path + key == path;
    } else {
      KidEntriesExact(t, 0, path, key, e);
      assert path + key != path by { assert |path + key| > |path|; }
    }
  }

  lemma {:induction false} KidEntriesExact(t: Tree, i: nat, path: string, key: string, e: Entry)
    requires Canonical(t) && key != [] && i <= |t.kids|
    ensures Stored(path + key, e) in KidEntries(t, i, path)
       <==> Child(t.kids, key[0]).Some? && i <= Find(t.kids, key[0])
            && Lookup(Child(t.kids, key[0]).value, key[1..]) == Some(e)
    decreases t, |t.kids| - i
  {
    if i < |t.kids| {
      var c := t.kids[i].0;
      KidEntriesExact(t, i + 1, path, key, e);
      FindAt(t.kids, i);
      if key[0] == c {
        assert path + key == path + [c] + key[1..];
        EntriesExact(t.kids[i].1, path + [c], key[1..], e);
      } else {
        EntriesBelow(t.kids[i].1, path + [c]);
        assert (path + key)[|path|] == key[0] && (path + [c])[|path|] == c;
        assert !(path + [c] <= path + key);
      }
    }
  }

  /** What `collect` pushes: counts and values in the order of the walk. */
  function Collected(t: Tree): seq<(nat, string)>
    decreases t, |t.kids| + 1
  {
    (if t.isEnd && t.value.Some? then [(t.frequency, t.value.value)] else []) + KidsCollected(t, 0)
  }

  function KidsCollected(t: Tree, i: nat): seq<(nat, string)>
    requires i <= |t.kids|
    decreases t, |t.kids| - i
  {
    if i == |t.kids| then [] else Collected(t.kids[i].1) + KidsCollected(t, i + 1)
  }

  // ----- prefix_search

  /** The subtree below `path`. */
  function NodeAt(t: Tree, path: string): Option<Tree>
    decreases |path|
  {
    if path == [] then Some(t)
    else
      var kid := Child(t.kids, path[0]);
      if kid.None? then None else NodeAt(kid.value, path[1..])
  }

  lemma {:induction false} NodeAtCanonical(t: Tree, path: string, key: string)
    requires Canonical(t)
    ensures NodeAt(t, path).Some? ==> Canonical(NodeAt(t, path).value)
    ensures Lookup(t, path + key) == if NodeAt(t, path).None? then None else Lookup(NodeAt(t, path).value, key)
    decreases |path|
  {
    if path == [] {
      assert path + key == key;
    } else {
      assert (path + key)[1..] == path[1..] + key;
      ChildCanonical(t, path[0]);
      if Child(t.kids, path[0]).Some? {
        NodeAtCanonical(Child(t.kids, path[0]).value, path[1..], key);
      }
    }
  }

  predicate ByCount(x: Stored, y: Stored) { y.entry.count <= x.entry.count }

  predicate PairByCount(x: (nat, string), y: (nat, string)) { y.0 <= x.0 }

  function Pairs(s: seq<Stored>): seq<(nat, string)> {
    if s == [] then [] else [(s[0].entry.count, s[0].entry.value)] + Pairs(s[1..])
  }

  function Values(s: seq<(nat, string)>): seq<string> {
    if s == [] then [] else [s[0].1] + Values(s[1..])
  }

  function Prefix<T>(s: seq<T>, n: nat): seq<T> {
    if |s| <= n then s else s[..n]
  }

  /** The value `prefix_search` computes. */
  function Search(t: Tree, prefix: string, limit: nat): seq<string> {
    var node := NodeAt(t, prefix);
    if node.None? then []
    else Values(Prefix(StableSort(Collected(node.value), PairByCount), limit))
  }

  /** Ranking of two stored keys: larger count first, then key order. */
  predicate Ahead(x: Stored, y: Stored) {
    x.entry.count > y.entry.count || (x.entry.count == y.entry.count && KeyLess(x.key, y.key))
  }

  /** `s` lists the stored keys with this prefix, each exactly once, in ranking order. */
  ghost predicate IsRanking(t: Tree, prefix: string, s: seq<Stored>) {
    && (forall x :: x in s <==> prefix <= x.key && Lookup(t, x.key) == Some(x.entry))
    && RankOrder(s)
  }

  lemma AheadAsymmetric(x: Stored, y: Stored)
    requires Ahead(x, y)
    ensures !Ahead(y, x)
  {
    if x.entry.count == y.entry.count { KeyLessAsymmetric(x.key, y.key); }
  }

  /** There is only one ranking. */
  lemma {:induction false} RankingUnique(p: seq<Stored>, q: seq<Stored>)
    requires forall x :: x in p <==> x in q
    requires RankOrder(p)
    requires RankOrder(q)
    ensures p == q
  {
    assert p != [] ==> p[0] in q;
    assert q != [] ==> q[0] in p;
    if p != [] && q != [] {
      HeadsAgree(p, q);
      forall x ensures x in p[1..] <==> x in q[1..] {
        TailMember(p, x);
        TailMember(q, x);
      }
      RankingUnique(p[1..], q[1..]);
      assert p == [p[0]] + p[1..] && q == [q[0]] + q[1..];
    }
  }

  lemma TailMember(p: seq<Stored>, x: Stored)
    requires p != [] && RankOrder(p)
    ensures x in p[1..] <==> x in p && x != p[0]
  {
    forall i | 1 <= i < |p| ensures p[i] != p[0] {
      AheadAsymmetric(p[0], p[i]);
    }
    if x in p && x != p[0] {
      var i :| 0 <= i < |p| && p[i] == x;
      assert p[1..][i - 1] == x;
    }
  }

  lemma HeadsAgree(p: seq<Stored>, q: seq<Stored>)
    requires p != [] && q != []
    requires forall x :: x in p <==> x in q
    requires RankOrder(p)
    requires RankOrder(q)
    ensures p[0] == q[0]
  {
    assert p[0] in q && q[0] in p;
    var i :| 0 <= i < |q| && q[i] == p[0];
    var j :| 0 <= j < |p| && p[j] == q[0];
    if i > 0 && j > 0 { AheadAsymmetric(p[0], q[0]); }
  }

  /** `s` is strictly ordered by rank. */
  ghost predicate RankOrder(s: seq<Stored>) {
    forall i, j :: 0 <= i < j < |s| ==> Ahead(s[i], s[j])
  }

  // sorting by count keeps key order inside equal counts

  lemma {:induction false} InsertRanks(x: Stored, s: seq<Stored>)
    requires RankOrder(s)
    requires forall y :: y in s ==> KeyLess(x.key, y.key)
    ensures RankOrder(Insert(x, s, ByCount))
    ensures forall y :: y in Insert(x, s, ByCount) <==> y == x || y in s
  {
    if s == [] || ByCount(x, s[0]) {
      forall j | 0 <= j < |s| ensures Ahead(x, s[j]) {
        assert s[j] in s;
        assert j > 0 ==> Ahead(s[0], s[j]);
      }
    } else {
      InsertRanks(x, s[1..]);
      var r := Insert(x, s[1..], ByCount);
      forall j | 0 <= j < |r| ensures Ahead(s[0], r[j]) {
        assert r[j] in r;
        if r[j] != x {
          var k :| 0 <= k < |s[1..]| && s[1..][k] == r[j];
          assert Ahead(s[0], s[k + 1]);
        }
      }
      assert s == [s[0]] + s[1..];
    }
  }

  lemma {:induction false} SortRanks(s: seq<Stored>)
    requires InKeyOrder(s)
    ensures RankOrder(StableSort(s, ByCount))
    ensures forall y :: y in StableSort(s, ByCount) <==> y in s
  {
    if s != [] {
      SortRanks(s[1..]);
      var r := StableSort(s[1..], ByCount);
      forall y | y in r ensures KeyLess(s[0].key, y.key) {
        var k :| 0 <= k < |s[1..]| && s[1..][k] == y;
        assert y == s[k + 1];
      }
      InsertRanks(s[0], r);
      assert s == [s[0]] + s[1..];
    }
  }

  lemma {:induction false} InsertPairs(x: Stored, s: seq<Stored>)
    ensures Pairs(Insert(x, s, ByCount)) == Insert((x.entry.count, x.entry.value), Pairs(s), PairByCount)
  {
    if s == [] || ByCount(x, s[0]) {
      assert ([x] + s)[1..] == s;
    } else {
      InsertPairs(x, s[1..]);
      assert ([s[0]] + Insert(x, s[1..], ByCount))[1..] == Insert(x, s[1..], ByCount);
      assert Pairs(s)[1..] == Pairs(s[1..]);
    }
  }

  lemma {:induction false} SortPairs(s: seq<Stored>)
    ensures Pairs(StableSort(s, ByCount)) == StableSort(Pairs(s), PairByCount)
  {
    if s != [] {
      SortPairs(s[1..]);
      InsertPairs(s[0], StableSort(s[1..], ByCount));
      assert Pairs(s)[1..] == Pairs(s[1..]);
    }
  }

  lemma {:induction false} PairsAt(s: seq<Stored>)
    ensures |Pairs(s)| == |s|
    ensures forall i :: 0 <= i < |s| ==> Pairs(s)[i] == (s[i].entry.count, s[i].entry.value)
  {
    if s != [] { PairsAt(s[1..]); }
  }

  lemma {:induction false} ValuesAt(s: seq<(nat, string)>)
    ensures |Values(s)| == |s|
    ensures forall i :: 0 <= i < |s| ==> Values(s)[i] == s[i].1
  {
    if s != [] { ValuesAt(s[1..]); }
  }

  lemma {:induction false} PairsAppend(s: seq<Stored>, t: seq<Stored>)
    ensures Pairs(s + t) == Pairs(s) + Pairs(t)
  {
    if s == [] {
      assert s + t == t;
    } else {
      assert (s + t)[0] == s[0] && (s + t)[1..] == s[1..] + t;
      PairsAppend(s[1..], t);
    }
  }

  lemma {:induction false} CollectedEntries(t: Tree, path: string)
    ensures Collected(t) == Pairs(Entries(t, path))
    decreases t, |t.kids| + 1
  {
    KidsCollectedEntries(t, 0, path);
    PairsAppend(if t.isEnd && t.value.Some? then [Stored(path, Entry(t.frequency, t.value.value))] else [],
                KidEntries(t, 0, path));
  }

  lemma {:induction false} KidsCollectedEntries(t: Tree, i: nat, path: string)
    requires i <= |t.kids|
    ensures KidsCollected(t, i) == Pairs(KidEntries(t, i, path))
    decreases t, |t.kids| - i
  {
    if i < |t.kids| {
      CollectedEntries(t.kids[i].1, path + [t.kids[i].0]);
      KidsCollectedEntries(t, i + 1, path);
      PairsAppend(Entries(t.kids[i].1, path + [t.kids[i].0]), KidEntries(t, i + 1, path));
    }
  }

  /** Adding a common path in front of every key changes neither order nor counts. */
  function Under(prefix: string, s: seq<Stored>): (r: seq<Stored>)
    ensures |r| == |s|
  {
    seq(|s|, i requires 0 <= i < |s| => Stored(prefix + s[i].key, s[i].entry))
  }

  /** prefix_search returns the values of the first `limit` keys of the ranking. */
  lemma SearchIsTopOfRanking(t: Tree, prefix: string, limit: nat) returns (ranking: seq<Stored>)
    requires Canonical(t)
    ensures IsRanking(t, prefix, ranking)
    ensures var r := Search(t, prefix, limit);
      |r| == (if |ranking| < limit then |ranking| else limit)
      && forall i :: 0 <= i < |r| ==> r[i] == ranking[i].entry.value
  {
    var node := NodeAt(t, prefix);
    NodeAtCanonical(t, prefix, []);
    if node.None? {
      ranking := [];
      forall x: Stored | prefix <= x.key ensures Lookup(t, x.key) != Some(x.entry) {
        NodeAtCanonical(t, prefix, x.key[|prefix|..]);
        assert x.key == prefix + x.key[|prefix|..];
      }
    } else {
      var s := Entries(node.value, []);
      EntriesInOrder(node.value, []);
      CollectedEntries(node.value, []);
      var sorted := StableSort(s, ByCount);
      SortRanks(s);
      SortPairs(s);
      PairsAt(sorted);
      ValuesAt(Prefix(Pairs(sorted), limit));
      ranking := Under(prefix, sorted);
      UnderRanks(t, prefix, node.value, sorted);
    }
  }

  lemma UnderRanks(t: Tree, prefix: string, node: Tree, sorted: seq<Stored>)
    requires Canonical(t) && NodeAt(t, prefix) == Some(node)
    requires forall y :: y in sorted <==> y in Entries(node, [])
    requires RankOrder(sorted)
    ensures IsRanking(t, prefix, Under(prefix, sorted))
  {
    var r := Under(prefix, sorted);
    NodeAtCanonical(t, prefix, []);
    forall i, j | 0 <= i < j < |r| ensures Ahead(r[i], r[j]) {
      assert Ahead(sorted[i], sorted[j]);
      KeyLessPrefix(prefix, sorted[i].key, sorted[j].key);
    }
    forall x ensures x in r <==> prefix <= x.key && Lookup(t, x.key) == Some(x.entry) {
      UnderMember(t, prefix, node, sorted, x);
    }
  }

  lemma UnderMember(t: Tree, prefix: string, node: Tree, sorted: seq<Stored>, x: Stored)
    requires Canonical(t) && Canonical(node) && NodeAt(t, prefix) == Some(node)
    requires forall y :: y in sorted <==> y in Entries(node, [])
    ensures x in Under(prefix, sorted) <==> prefix <= x.key && Lookup(t, x.key) == Some(x.entry)
  {
    var r := Under(prefix, sorted);
    if x in r {
      var i :| 0 <= i < |r| && r[i] == x;
      var k := sorted[i].key;
      assert sorted[i] in sorted && [] + k == k;
      EntriesExact(node, [], k, x.entry);
      NodeAtCanonical(t, prefix, k);
    }
    if prefix <= x.key && Lookup(t, x.key) == Some(x.entry) {
      var k := x.key[|prefix|..];
      assert x.key == prefix + k && [] + k == k;
      NodeAtCanonical(t, prefix, k);
      EntriesExact(node, [], k, x.entry);
      var i :| 0 <= i < |sorted| && sorted[i] == Stored(k, x.entry);
      assert r[i] == x;
    }
  }

  /** Any ranking of the stored keys predicts the result. */
  lemma SearchDetermined(t: Tree, prefix: string, limit: nat, ranking: seq<Stored>)
    requires Canonical(t) && IsRanking(t, prefix, ranking)
    ensures var r := Search(t, prefix, limit);
      |r| == (if |ranking| < limit then |ranking| else limit)
      && forall i :: 0 <= i < |r| ==> r[i] == ranking[i].entry.value
  {
    var other := SearchIsTopOfRanking(t, prefix, limit);
    RankingUnique(ranking, other);
  }

  // ----- node_count

  /** Descendants of a node, as `node_count` adds them up. */
  function Descendants(t: Tree): nat
    decreases t, |t.kids| + 1
  {
    |t.kids| + KidDescendants(t, 0)
  }

  function KidDescendants(t: Tree, i: nat): nat
    requires i <= |t.kids|
    decreases t, |t.kids| - i
  {
    if i == |t.kids| then 0 else Descendants(t.kids[i].1) + KidDescendants(t, i + 1)
  }

  /** The paths of all nodes of a tree whose root sits at `path`. */
  ghost function Paths(t: Tree, path: string): set<string>
    decreases t, |t.kids| + 1
  {
    {path} + KidPaths(t, 0, path)
  }

  ghost function KidPaths(t: Tree, i: nat, path: string): set<string>
    requires i <= |t.kids|
    decreases t, |t.kids| - i
  {
    if i == |t.kids| then {} else Paths(t.kids[i].1, path + [t.kids[i].0]) + KidPaths(t, i + 1, path)
  }

  lemma {:induction false} PathsBelow(t: Tree, path: string)
    ensures forall q :: q in Paths(t, path) ==> path <= q
    decreases t, |t.kids| + 1
  {
    KidPathsBelow(t, 0, path);
  }

  lemma {:induction false} KidPathsBelow(t: Tree, i: nat, path: string)
    requires i <= |t.kids|
    ensures forall q :: q in KidPaths(t, i, path) ==>
      path < q && exists k :: i <= k < |t.kids| && t.kids[k].0 == q[|path|]
    decreases t, |t.kids| - i
  {
    if i < |t.kids| {
      PathsBelow(t.kids[i].1, path + [t.kids[i].0]);
      KidPathsBelow(t, i + 1, path);
      forall q | q in Paths(t.kids[i].1, path + [t.kids[i].0])
        ensures path < q && t.kids[i].0 == q[|path|]
      {
        assert path + [t.kids[i].0] <= q;
      }
    }
  }

  lemma {:induction false} PathsCounted(t: Tree, path: string)
    requires Canonical(t)
    ensures |Paths(t, path)| == 1 + Descendants(t)
    decreases t, |t.kids| + 1
  {
    KidPathsCounted(t, 0, path);
    KidPathsBelow(t, 0, path);
    assert path !in KidPaths(t, 0, path);
  }

  lemma {:induction false} KidPathsCounted(t: Tree, i: nat, path: string)
    requires Canonical(t) && i <= |t.kids|
    ensures |KidPaths(t, i, path)| == |t.kids| - i + KidDescendants(t, i)
    decreases t, |t.kids| - i
  {
    if i < |t.kids| {
      var first, rest := Paths(t.kids[i].1, path + [t.kids[i].0]), KidPaths(t, i + 1, path);
      PathsCounted(t.kids[i].1, path + [t.kids[i].0]);
      KidPathsCounted(t, i + 1, path);
      PathsBelow(t.kids[i].1, path + [t.kids[i].0]);
      KidPathsBelow(t, i + 1, path);
      forall q | q in first ensures q !in rest {
        assert path + [t.kids[i].0] <= q && q[|path|] == t.kids[i].0;
      }
      assert first !! rest;
    }
  }

  lemma {:induction false} PathsAreNodes(t: Tree, path: string, q: string)
    requires Canonical(t)
    ensures path + q in Paths(t, path) <==> NodeAt(t, q).Some?
    decreases t, |t.kids| + 1
  {
    KidPathsBelow(t, 0, path);
    if q == [] {
      assert path + q == path;
    } else {
      KidPathsAreNodes(t, 0, path, q);
      assert |path + q| > |path|;
    }
  }

  lemma {:induction false} KidPathsAreNodes(t: Tree, i: nat, path: string, q: string)
    requires Canonical(t) && q != [] && i <= |t.kids|
    ensures path + q in KidPaths(t, i, path)
       <==> Child(t.kids, q[0]).Some? && i <= Find(t.kids, q[0]) && NodeAt(Child(t.kids, q[0]).value, q[1..]).Some?
    decreases t, |t.kids| - i
  {
    if i < |t.kids| {
      var c := t.kids[i].0;
      KidPathsAreNodes(t, i + 1, path, q);
      FindAt(t.kids, i);
      if q[0] == c {
        assert path + q == path + [c] + q[1..];
        PathsAreNodes(t.kids[i].1, path + [c], q[1..]);
      } else {
        PathsBelow(t.kids[i].1, path + [c]);
        assert (path + q)[|path|] == q[0] && (path + [c])[|path|] == c;
        assert !(path + [c] <= path + q);
      }
    }
  }

  lemma {:induction false} LiveNodeAt(t: Tree, q: string)
    requires Canonical(t) && q != [] && NodeAt(t, q).Some?
    ensures Canonical(NodeAt(t, q).value) && !Dead(NodeAt(t, q).value)
    decreases |q|
  {
    ChildCanonical(t, q[0]);
    if |q| > 1 { LiveNodeAt(Child(t.kids, q[0]).value, q[1..]); }
  }

  /** `q` is a prefix of some stored key. */
  ghost predicate StoredPrefix(t: Tree, q: string) {
    exists key :: q <= key && Lookup(t, key).Some?
  }

  /** In a canonical trie the nodes other than the root are the nonempty prefixes of stored keys. */
  lemma NodesArePrefixes(t: Tree, q: string)
    requires Canonical(t) && q != []
    ensures NodeAt(t, q).Some? <==> StoredPrefix(t, q)
  {
    if NodeAt(t, q).Some? {
      LiveNodeAt(t, q);
      var rest := SomeKey(NodeAt(t, q).value);
      NodeAtCanonical(t, q, rest);
      assert q <= q + rest && Lookup(t, q + rest).Some?;
    }
    if key :| q <= key && Lookup(t, key).Some? {
      assert key == q + key[|q|..];
      NodeAtCanonical(t, q, key[|q|..]);
    }
  }

  lemma PathMember(t: Tree, q: string)
    requires Canonical(t)
    ensures q in Paths(t, []) <==> q == [] || StoredPrefix(t, q)
  {
    var root: string := [];
    assert root + q == q;
    PathsAreNodes(t, root, q);
    if q != [] { NodesArePrefixes(t, q); }
  }

  /** node_count is the number of distinct prefixes of the stored keys, the empty one always counted. */
  lemma NodeCountIsPrefixCount(t: Tree, prefixes: set<string>)
    requires Canonical(t)
    requires forall q :: q in prefixes <==> q == [] || StoredPrefix(t, q)
    ensures 1 + Descendants(t) == |prefixes|
  {
    PathsCounted(t, []);
    forall q: string ensures q in Paths(t, []) <==> q in prefixes {
      PathMember(t, q);
    }
    assert Paths(t, []) == prefixes;
  }
}
