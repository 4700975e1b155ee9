/** What the search cache shows over whole runs, and exactly when it shows something stale. */
module EngineCache {
  import opened Wrappers
  import opened EngineModel
  import opened EngineProgram
  import opened FolderSearch
  import opened Sequences
  import Fuzzy

  ghost function Ran(st: State, ops: seq<Op>, x: Text): State
    decreases |ops|
  {
    if ops == [] then st else Stepped(Ran(st, ops[..|ops| - 1], x), ops[|ops| - 1], x)
  }

  /** What the cache holds for this key is what the pipeline answers for this limit. */
  ghost predicate EntrySound(st: State, q: string, limit: nat, x: Text) {
    q in st.cache ==> Pipeline(st.stores, q, limit, x) == Ok(st.cache[q])
  }

  /** A search for this key uses this limit. */
  predicate UsesLimit(op: Op, q: string, limit: nat, x: Text) {
    op.DoSearch? && RouteOf(op.query, x) == Normal(q) ==> op.limit == limit
  }

  predicate Clears(op: Op) {
    op.DoRebuild? || op.DoInvalidate?
  }

  /** Since the cache was last cleared the trie did not change and every search for the key used the
      limit. */
  predicate Settled(ops: seq<Op>, q: string, limit: nat, x: Text)
    decreases |ops|
  {
    ops == [] ||
    var op := ops[|ops| - 1];
    Clears(op) || (!op.DoChangeTrie? && UsesLimit(op, q, limit, x) && Settled(ops[..|ops| - 1], q, limit, x))
  }

  lemma StepKeepsEntry(st: State, op: Op, q: string, limit: nat, x: Text)
    requires Clears(op) || (!op.DoChangeTrie? && UsesLimit(op, q, limit, x) && EntrySound(st, q, limit, x))
    ensures EntrySound(Stepped(st, op, x), q, limit, x)
  {
  }

  lemma RanTwice(st: State, a: Op, b: Op, x: Text)
    ensures Ran(st, [a, b], x) == Stepped(Stepped(st, a, x), b, x)
  {
    assert [a, b][..1] == [a] && [a][..0] == [];
    assert Ran(st, [a], x) == Stepped(st, a, x);
  }

  lemma {:induction false} SettledIsSound(st: State, ops: seq<Op>, q: string, limit: nat, x: Text)
    requires EntrySound(st, q, limit, x) && Settled(ops, q, limit, x)
    ensures EntrySound(Ran(st, ops, x), q, limit, x)
    decreases |ops|
  {
    if ops != [] {
      var front, op := ops[..|ops| - 1], ops[|ops| - 1];
      if !Clears(op) { SettledIsSound(st, front, q, limit, x); }
      StepKeepsEntry(Ran(st, front, x), op, q, limit, x);
    }
  }

  /** After any run of searches, rebuilds, invalidations, trie changes and evictions, a query answers as
      without a cache, if since the cache was last cleared the trie stayed as it was and its key was
      searched with one limit. */
  lemma CacheNeverShows(st: State, ops: seq<Op>, query: string, limit: nat, x: Text)
    requires RouteOf(query, x).Normal? ==>
      EntrySound(st, RouteOf(query, x).key, limit, x) && Settled(ops, RouteOf(query, x).key, limit, x)
    ensures var now := Ran(st, ops, x); Lookup(now, query, limit, x) == Answer(now.stores, query, limit, x)
  {
    if RouteOf(query, x).Normal? {
      SettledIsSound(st, ops, RouteOf(query, x).key, limit, x);
    }
  }

  // ----- stores in which only the trie knows anything

  ghost predicate OnlyTrie(s: Stores) {
    && (forall q, n :: s.fullText(q, n) == Some([]))
    && (forall q, n :: s.wildcard(q, n) == Some([]))
    && (forall q :: s.apps(q) == Some([]))
    && (forall q :: s.files(q) == Some([]))
  }

  /** `n` different paths, none of them empty. */
  function Paths(n: nat): (ps: seq<string>)
    ensures |ps| == n && forall i, j :: 0 <= i < j < n ==> ps[i] != ps[j]
    ensures forall i :: 0 <= i < n ==> ps[i] != ""
  {
    var ps := seq(n, i requires 0 <= i < n => "/" + Dashes(i));
    assert forall i :: 0 <= i < n ==> |ps[i]| == i + 1;
    ps
  }

  function Dashes(n: nat): (s: string)
    ensures |s| == n
  {
    seq(n, _ => '-')
  }

  /** Stores whose trie has these `n` paths for every query, and lists no more than it is asked for. */
  ghost function Listing(n: nat): (s: Stores)
    ensures OnlyTrie(s) && forall q, limit :: s.triePrefix(q, limit) == Take(Paths(n), limit)
  {
    Stores((q, limit: nat) => Take(Paths(n), limit), (q, limit) => Some([]), (q, limit) => Some([]), q => Some([]),
           q => Some([]), (q, limit) => Some([]))
  }

  lemma {:induction false} FreshDistinct(rs: seq<SearchResult>, seen: set<string>)
    requires forall i :: 0 <= i < |rs| ==> KeyOf(rs[i]) !in seen
    requires forall i, j :: 0 <= i < j < |rs| ==> KeyOf(rs[i]) != KeyOf(rs[j])
    ensures Fresh(rs, seen) == rs
  {
    if rs != [] {
      FreshDistinct(rs[1..], seen + {KeyOf(rs[0])});
    }
  }

  lemma NoRowsNoMatches(q: string, limit: nat, x: Text)
    ensures Fuzzy.Ranked(q, [], JW_THRESHOLD, LEV_MAX_DIST, limit, x.lower) == []
  {
  }

  /** Only the trie contributes. */
  lemma OnlyTrieStages(st: Stages, s: Stores, q: string, limit: nat, x: Text)
    requires OnlyTrie(s) && AreStages(st, s, q, limit, x)
    ensures st.text == [] && st.wild == [] && st.apps == [] && st.fuzzy == []
  {
    NoRowsNoMatches(q, limit, x);
  }

  lemma OnlyTrieWorks(s: Stores, q: string, limit: nat, x: Text)
    requires OnlyTrie(s)
    ensures Pipeline(s, q, limit, x).Ok?
  {
  }

  lemma ListingAnswers(s: Stores, n: nat, q: string, limit: nat, x: Text)
    requires OnlyTrie(s) && s.triePrefix(q, limit) == Take(Paths(n), limit)
    ensures Pipeline(s, q, limit, x).Ok?
    ensures |Pipeline(s, q, limit, x).value| == if n < limit then n else limit
  {
    OnlyTrieWorks(s, q, limit, x);
    var st := PipelineOrder(s, q, limit, x);
    OnlyTrieStages(st, s, q, limit, x);
    FreshDistinct(st.trie, {});
  }

  // ----- the limit is not in the key

  /** A search with the limit `first` leaves a second search with the limit `second` right. */
  ghost predicate LimitHarmless(s: Stores, query: string, first: nat, second: nat, x: Text)
    requires RouteOf(query, x).Normal?
  {
    var st := Stepped(State(s, map[]), DoSearch(query, first, {RouteOf(query, x).key}), x);
    Lookup(st, query, second, x) == Answer(s, query, second, x)
  }

  /** With other limits the second answer has the size of the first: too short, or longer than asked for. */
  lemma LimitIsNotInTheKey(query: string, first: nat, second: nat, x: Text)
    requires RouteOf(query, x).Normal?
    ensures var s := Listing(first + second);
      var st := Stepped(State(s, map[]), DoSearch(query, first, {RouteOf(query, x).key}), x);
      && Lookup(st, query, second, x).Ok? && |Lookup(st, query, second, x).value| == first
      && Answer(s, query, second, x).Ok? && |Answer(s, query, second, x).value| == second
  {
    var q, s := RouteOf(query, x).key, Listing(first + second);
    ListingAnswers(s, first + second, q, first, x);
    ListingAnswers(s, first + second, q, second, x);
    assert q in Stepped(State(s, map[]), DoSearch(query, first, {q}), x).cache;
  }

  /** A second search is right for all stores exactly when it repeats the limit of the first. */
  lemma LimitHarmlessIff(query: string, first: nat, second: nat, x: Text)
    requires RouteOf(query, x).Normal?
    ensures (forall s :: LimitHarmless(s, query, first, second, x)) <==> first == second
  {
    if first == second {
      forall s ensures LimitHarmless(s, query, first, second, x) {
        var q := RouteOf(query, x).key;
        StepKeepsEntry(State(s, map[]), DoSearch(query, first, {q}), q, first, x);
      }
    } else {
      LimitIsNotInTheKey(query, first, second, x);
      assert !LimitHarmless(Listing(first + second), query, first, second, x);
    }
  }

  // ----- a trie change does not clear the cache

  /** After the trie changed this way, a search is right. */
  ghost predicate SeesChange(st: State, triePrefix: (string, nat) -> seq<string>, query: string, limit: nat, x: Text) {
    var now := Stepped(st, DoChangeTrie(triePrefix), x);
    Lookup(now, query, limit, x) == Answer(now.stores, query, limit, x)
  }

  lemma {:induction false} FreshShorter(rs: seq<SearchResult>, seen: set<string>)
    ensures |Fresh(rs, seen)| <= |rs|
  {
    if rs != [] {
      FreshShorter(rs[1..], if KeyOf(rs[0]) in seen then seen else seen + {KeyOf(rs[0])});
    }
  }

  /** The path of the first file of an answer. */
  function FirstFile(out: seq<SearchResult>): Option<string> {
    if out == [] then None else if out[0].kind == File then Some(out[0].path) else FirstFile(out[1..])
  }

  lemma {:induction false} FirstFileAfter(out: seq<SearchResult>, n: nat)
    requires n < |out| && out[n].kind == File && forall j :: 0 <= j < n ==> out[j].kind == App
    ensures FirstFile(out) == Some(out[n].path)
  {
    if n > 0 { FirstFileAfter(out[1..], n - 1); }
  }

  lemma FirstFileIs(apps: seq<SearchResult>, file: SearchResult, rest: seq<SearchResult>, limit: nat)
    requires (forall a :: a in apps ==> a.kind == App) && file.kind == File && |apps| < limit
    ensures FirstFile(Take(apps + ([file] + rest), limit)) == Some(file.path)
  {
    var out, n := Take(apps + ([file] + rest), limit), |apps|;
    assert out[n] == file;
    forall j | 0 <= j < n ensures out[j].kind == App {
      assert out[j] == apps[j] && apps[j] in apps;
    }
    FirstFileAfter(out, n);
  }

  /** When the trie lists one path and the apps do not fill the answer, that path is the first file. */
  lemma OnePathIsFirst(s: Stores, path: string, q: string, limit: nat, x: Text)
    requires s.triePrefix(q, limit) == [path] && |AppsOrNone(s, q)| < limit && Pipeline(s, q, limit, x).Ok?
    ensures FirstFile(Pipeline(s, q, limit, x).value) == Some(path)
  {
    var st := PipelineOrder(s, q, limit, x);
    var apps, text := Fresh(st.apps, st.SeenBeforeApps()), Fresh(st.text, st.SeenBeforeText());
    var wild, fuzzy := Fresh(st.wild, st.SeenBeforeWild()), Fresh(st.fuzzy, st.SeenBeforeFuzzy());
    FreshShorter(st.apps, st.SeenBeforeApps());
    FreshOfKind(st.apps, st.SeenBeforeApps(), App);
    OneIsFresh(st.trie);
    AssociativeFour(st.trie, text, wild, fuzzy);
    assert st.trie == [st.trie[0]];
    FirstFileIs(apps, st.trie[0], text + wild + fuzzy, limit);
  }

  lemma OneIsFresh(rs: seq<SearchResult>)
    requires |rs| == 1
    ensures Fresh(rs, {}) == rs
  {
    assert rs == [rs[0]] && rs[1..] == [];
  }

  lemma SeenMeansFirst(st: State, path: string, query: string, limit: nat, x: Text)
    requires RouteOf(query, x).Normal? && |AppsOrNone(st.stores, RouteOf(query, x).key)| < limit
    requires RouteOf(query, x).key in st.cache
    ensures SeesChange(st, Only(path), query, limit, x) ==>
      FirstFile(st.cache[RouteOf(query, x).key]) == Some(path)
  {
    if SeesChange(st, Only(path), query, limit, x) {
      OnePathIsFirst(st.stores.(triePrefix := Only(path)), path, RouteOf(query, x).key, limit, x);
    }
  }

  /** A trie that has one path for every query. */
  function Only(path: string): (string, nat) -> seq<string> {
    (k, n: nat) => Take([path], n)
  }

  /** As long as apps leave room for a file, every trie change is seen by a query exactly when its key is
      not in the cache. */
  lemma ChangeSeenIff(st: State, query: string, limit: nat, x: Text)
    requires RouteOf(query, x).Normal? && |AppsOrNone(st.stores, RouteOf(query, x).key)| < limit
    ensures (forall triePrefix :: SeesChange(st, triePrefix, query, limit, x)) <==> RouteOf(query, x).key !in st.cache
  {
    if RouteOf(query, x).key in st.cache {
      SeenMeansFirst(st, "-", query, limit, x);
      SeenMeansFirst(st, "--", query, limit, x);
      assert !SeesChange(st, Only("-"), query, limit, x) || !SeesChange(st, Only("--"), query, limit, x);
    }
  }

  /** Stores whose wildcard index is broken and whose trie is empty. */
  ghost function Failing(): Stores {
    Listing(0).(wildcard := (k, n) => None)
  }

  lemma FailingStores(q: string, limit: nat, x: Text)
    ensures Pipeline(Failing(), q, limit, x).Err?
  {
    assert |Fresh(FileResults(Failing().triePrefix(q, limit), 1.0, x), {})| == 0;
  }

  /** The same for any change of the stores that bypasses `rebuild`, whatever the apps. */
  lemma StoresSeenIff(st: State, query: string, limit: nat, x: Text)
    requires RouteOf(query, x).Normal?
    ensures (forall after: Stores :: Lookup(st.(stores := after), query, limit, x) == Answer(after, query, limit, x))
       <==> RouteOf(query, x).key !in st.cache
  {
    var q := RouteOf(query, x).key;
    if q in st.cache {
      FailingStores(q, limit, x);
      assert Lookup(st.(stores := Failing()), query, limit, x) != Answer(Failing(), query, limit, x);
    }
  }

  /** A run that shows it: a query without results, a file added to the trie, the same query again. */
  lemma TrieChangeIsNotSeen(query: string, limit: nat, x: Text)
    requires RouteOf(query, x).Normal? && limit > 0
    ensures var ops := [DoSearch(query, limit, {RouteOf(query, x).key}), DoChangeTrie(Listing(1).triePrefix)];
      var now := Ran(State(Listing(0), map[]), ops, x);
      && Lookup(now, query, limit, x) == Ok([])
      && Answer(now.stores, query, limit, x).Ok? && |Answer(now.stores, query, limit, x).value| == 1
  {
    var q := RouteOf(query, x).key;
    var start, search := State(Listing(0), map[]), DoSearch(query, limit, {q});
    RanTwice(start, search, DoChangeTrie(Listing(1).triePrefix), x);
    ListingAnswers(Listing(0), 0, q, limit, x);
    assert Stepped(start, search, x) == State(Listing(0), map[q := []]);
    ListingAnswers(Listing(0).(triePrefix := Listing(1).triePrefix), 1, q, limit, x);
  }

  // ----- case and white space

  lemma {:induction false} TrimStartPad(pre: string, s: string, drop: char -> bool)
    requires forall c :: c in pre ==> drop(c)
    ensures TrimStart(pre + s, drop) == TrimStart(s, drop)
  {
    if pre == [] {
      assert pre + s == s;
    } else {
      assert pre[0] in pre && (pre + s)[1..] == pre[1..] + s;
      TrimStartPad(pre[1..], s, drop);
    }
  }

  lemma {:induction false} TrimEndPad(s: string, post: string, drop: char -> bool)
    requires forall c :: c in post ==> drop(c)
    ensures TrimEnd(s + post, drop) == TrimEnd(s, drop)
    decreases |post|
  {
    if post == [] {
      assert s + post == s;
    } else {
      var n := |post| - 1;
      assert post[n] in post && (s + post)[..|s + post| - 1] == s + post[..n];
      TrimEndPad(s, post[..n], drop);
    }
  }

  lemma {:induction false} TrimStartAppend(s: string, post: string, drop: char -> bool)
    ensures TrimStart(s + post, drop)
         == if TrimStart(s, drop) != [] then TrimStart(s, drop) + post else TrimStart(post, drop)
  {
    if s == [] {
      assert s + post == post;
    } else if drop(s[0]) {
      assert (s + post)[1..] == s[1..] + post;
      TrimStartAppend(s[1..], post, drop);
    }
  }

  /** Trimming does not notice what is trimmed. */
  lemma TrimPad(pre: string, s: string, post: string, drop: char -> bool)
    requires (forall c :: c in pre ==> drop(c)) && (forall c :: c in post ==> drop(c))
    ensures Trim(pre + s + post, drop) == Trim(s, drop)
  {
    assert pre + s + post == pre + (s + post);
    TrimStartPad(pre, s + post, drop);
    TrimStartAppend(s, post, drop);
    if TrimStart(s, drop) != [] {
      TrimEndPad(TrimStart(s, drop), post, drop);
    } else {
      TrimStartPad(post, [], drop);
      assert post + [] == post;
    }
  }

  /** Two characters that lower-casing cannot tell apart in any place, neither of them special. */
  ghost predicate SameLetter(c: char, d: char, x: Text) {
    c == d ||
    (!x.isSpace(c) && !x.isSpace(d) && c != '/' && d != '/' && c != '*' && d != '*'
     && forall u, v :: x.lower(u + [c] + v) == x.lower(u + [d] + v))
  }

  ghost predicate CaseVariants(a: string, b: string, x: Text) {
    |a| == |b| && forall i :: 0 <= i < |a| ==> SameLetter(a[i], b[i], x)
  }

  lemma {:induction false} LowerForgetsUpTo(a: string, b: string, x: Text, n: nat)
    requires CaseVariants(a, b, x) && n <= |a|
    ensures x.lower(b[..n] + a[n..]) == x.lower(a)
  {
    if n == 0 {
      assert b[..0] + a[0..] == a;
    } else {
      LowerForgetsUpTo(a, b, x, n - 1);
      var u, v := b[..n - 1], a[n..];
      assert b[..n - 1] + a[n - 1..] == u + [a[n - 1]] + v;
      assert b[..n] + a[n..] == u + [b[n - 1]] + v;
      assert SameLetter(a[n - 1], b[n - 1], x);
    }
  }

  lemma LowerForgets(a: string, b: string, x: Text)
    requires CaseVariants(a, b, x)
    ensures x.lower(b) == x.lower(a)
  {
    LowerForgetsUpTo(a, b, x, |a|);
    assert b[..|a|] + a[|a|..] == b;
  }

  lemma {:induction false} TrimStartAt(s: string, drop: char -> bool) returns (n: nat)
    ensures n <= |s| && TrimStart(s, drop) == s[n..]
    ensures (forall i :: 0 <= i < n ==> drop(s[i])) && (n < |s| ==> !drop(s[n]))
  {
    if s != [] && drop(s[0]) {
      var m := TrimStartAt(s[1..], drop);
      n := m + 1;
      assert s[1..][m..] == s[n..];
    } else {
      n := 0;
    }
  }

  lemma {:induction false} TrimEndAt(s: string, drop: char -> bool) returns (n: nat)
    ensures n <= |s| && TrimEnd(s, drop) == s[..n]
    ensures (forall i :: n <= i < |s| ==> drop(s[i])) && (n > 0 ==> !drop(s[n - 1]))
    decreases |s|
  {
    n := |s|;
    if s != [] && drop(s[|s| - 1]) {
      n := TrimEndAt(s[..|s| - 1], drop);
      assert s[..|s| - 1][..n] == s[..n];
    } else {
      assert s[..|s|] == s;
    }
  }

  /** Trimming cuts at the same places when the same places are dropped. */
  lemma TrimSame(a: string, b: string, drop: char -> bool) returns (lo: nat, hi: nat)
    requires |a| == |b| && forall i :: 0 <= i < |a| ==> drop(a[i]) == drop(b[i])
    ensures lo <= hi <= |a| && Trim(a, drop) == a[lo..hi] && Trim(b, drop) == b[lo..hi]
  {
    lo := TrimStartAt(a, drop);
    var n := TrimStartAt(b, drop);
    assert lo == n;
    var c, d := a[lo..], b[lo..];
    assert forall i :: 0 <= i < |c| ==> drop(c[i]) == drop(d[i]);
    var k := TrimEndAt(c, drop);
    var l := TrimEndAt(d, drop);
    assert k == l;
    hi := lo + k;
    assert c[..k] == a[lo..hi] && d[..k] == b[lo..hi];
  }

  /** So it cuts case variants to case variants. */
  lemma TrimVariants(a: string, b: string, x: Text, drop: char -> bool)
    requires CaseVariants(a, b, x)
    requires forall c, d :: SameLetter(c, d, x) ==> drop(c) == drop(d)
    ensures CaseVariants(Trim(a, drop), Trim(b, drop), x)
  {
    var lo, hi := TrimSame(a, b, drop);
    forall i | 0 <= i < hi - lo ensures SameLetter(a[lo..hi][i], b[lo..hi][i], x) {
      assert SameLetter(a[lo + i], b[lo + i], x);
    }
  }

  predicate AllSpaces(s: string, x: Text) {
    forall c :: c in s ==> x.isSpace(c)
  }

  /** Space around a query never matters. */
  lemma PaddingAgrees(pre: string, query: string, post: string, x: Text)
    requires AllSpaces(pre, x) && AllSpaces(post, x)
    ensures RouteOf(pre + query + post, x) == RouteOf(query, x)
  {
    TrimPad(pre, query, post, x.isSpace);
  }

  lemma TailVariants(t: string, u: string, x: Text)
    requires CaseVariants(t, u, x) && t != []
    ensures CaseVariants(t[1..], u[1..], x)
  {
    forall i | 0 <= i < |t| - 1 ensures SameLetter(t[1..][i], u[1..][i], x) {
      assert SameLetter(t[i + 1], u[i + 1], x);
    }
  }

  /** Only the text of a folder query reaches a store without being lowered. */
  lemma CaseAgrees(a: string, b: string, x: Text)
    requires CaseVariants(a, b, x)
    ensures !RouteOf(a, x).Folders? ==> RouteOf(b, x) == RouteOf(a, x)
    ensures RouteOf(a, x).Folders? ==>
      RouteOf(b, x).Folders? && CaseVariants(RouteOf(a, x).name, RouteOf(b, x).name, x)
  {
    TrimVariants(a, b, x, x.isSpace);
    var t, u := Trim(a, x.isSpace), Trim(b, x.isSpace);
    if t != [] {
      var n := |t| - 1;
      assert SameLetter(t[0], u[0], x) && SameLetter(t[n], u[n], x);
      if t[0] == '/' {
        TailVariants(t, u, x);
        TrimVariants(t[1..], u[1..], x, x.isSpace);
      } else if t[0] == '*' || t[n] == '*' {
        TrimVariants(t, u, x, c => c == '*');
        LowerForgets(Trim(t, c => c == '*'), Trim(u, c => c == '*'), x);
      } else {
        LowerForgets(t, u, x);
      }
    }
  }

  /** The folder search does not tell case variants apart. */
  ghost predicate FoldersIgnoreCase(s: Stores, x: Text) {
    forall d, e, n :: CaseVariants(d, e, x) ==> s.dirs(d, n) == s.dirs(e, n)
  }

  /** A query in other case and with other space around it has the same answer and uses the same cache
      entry, whatever the cache holds. */
  lemma VariantsAgree(st: State, a: string, pre: string, b: string, post: string, limit: nat, x: Text)
    requires CaseVariants(a, b, x) && AllSpaces(pre, x) && AllSpaces(post, x)
    requires FoldersIgnoreCase(st.stores, x)
    ensures !RouteOf(a, x).Folders? ==> RouteOf(pre + b + post, x) == RouteOf(a, x)
    ensures Answer(st.stores, pre + b + post, limit, x) == Answer(st.stores, a, limit, x)
    ensures Lookup(st, pre + b + post, limit, x) == Lookup(st, a, limit, x)
    ensures forall keep ::
      Stepped(st, DoSearch(pre + b + post, limit, keep), x) == Stepped(st, DoSearch(a, limit, keep), x)
  {
    PaddingAgrees(pre, b, post, x);
    CaseAgrees(a, b, x);
  }

  // ----- folder queries over a real table

  /** The folder search of this table. */
  ghost function Table(rows: seq<Fuzzy.FileRow>): (string, nat) -> Option<seq<Fuzzy.FileRow>> {
    (d, n: nat) => Some(DirsByName(rows, d, n))
  }

  lemma TrimFolds(a: string, b: string, drop: char -> bool)
    requires FoldAscii(a) == FoldAscii(b) && forall i :: 0 <= i < |a| ==> drop(a[i]) == drop(b[i])
    ensures FoldAscii(Trim(a, drop)) == FoldAscii(Trim(b, drop))
  {
    var lo, hi := TrimSame(a, b, drop);
    forall i | 0 <= i < hi - lo ensures AsciiLower(a[lo..hi][i]) == AsciiLower(b[lo..hi][i]) {
      assert FoldAscii(a)[lo + i] == FoldAscii(b)[lo + i];
    }
  }

  /** Variants that differ in the case of ASCII letters only have folder texts that do. */
  lemma FolderTextFolds(a: string, b: string, x: Text)
    requires CaseVariants(a, b, x) && FoldAscii(a) == FoldAscii(b) && RouteOf(a, x).Folders?
    ensures RouteOf(b, x).Folders? && FoldAscii(RouteOf(a, x).name) == FoldAscii(RouteOf(b, x).name)
  {
    CaseAgrees(a, b, x);
    SameSpaces(a, b, x);
    TrimFolds(a, b, x.isSpace);
    TrimVariants(a, b, x, x.isSpace);
    var t, u := Trim(a, x.isSpace), Trim(b, x.isSpace);
    TailVariants(t, u, x);
    SameSpaces(t[1..], u[1..], x);
    assert FoldAscii(t[1..]) == FoldAscii(t)[1..] == FoldAscii(u)[1..] == FoldAscii(u[1..]);
    TrimFolds(t[1..], u[1..], x.isSpace);
  }

  lemma SameSpaces(a: string, b: string, x: Text)
    requires CaseVariants(a, b, x)
    ensures forall i :: 0 <= i < |a| ==> x.isSpace(a[i]) == x.isSpace(b[i])
  {
    forall i | 0 <= i < |a| ensures x.isSpace(a[i]) == x.isSpace(b[i]) {
      assert SameLetter(a[i], b[i], x);
    }
  }

  /** With the database's own folder search no hypothesis is left, as long as only ASCII letters change. */
  lemma AsciiVariantsAgree(st: State, rows: seq<Fuzzy.FileRow>, a: string, pre: string, b: string, post: string,
                           limit: nat, x: Text)
    requires CaseVariants(a, b, x) && AllSpaces(pre, x) && AllSpaces(post, x)
    requires FoldAscii(a) == FoldAscii(b) && st.stores.dirs == Table(rows)
    ensures Answer(st.stores, pre + b + post, limit, x) == Answer(st.stores, a, limit, x)
    ensures Lookup(st, pre + b + post, limit, x) == Lookup(st, a, limit, x)
    ensures forall keep ::
      Stepped(st, DoSearch(pre + b + post, limit, keep), x) == Stepped(st, DoSearch(a, limit, keep), x)
  {
    PaddingAgrees(pre, b, post, x);
    CaseAgrees(a, b, x);
    if RouteOf(a, x).Folders? {
      FolderTextFolds(a, b, x);
      DirsIgnoreCase(rows, RouteOf(a, x).name, RouteOf(b, x).name, limit);
    }
  }

  /** Folder queries that are case variants have the same answer over every table exactly when their texts
      differ in the case of ASCII letters only: the database does not fold any other letter. */
  lemma FolderVariantsIff(s: Stores, a: string, b: string, limit: nat, x: Text)
    requires CaseVariants(a, b, x) && RouteOf(a, x).Folders? && RouteOf(b, x).Folders? && limit > 0
    requires Plain(RouteOf(a, x).name) && Plain(RouteOf(b, x).name)
    ensures
      (forall rows :: Answer(s.(dirs := Table(rows)), b, limit, x) == Answer(s.(dirs := Table(rows)), a, limit, x))
       <==> FoldAscii(RouteOf(a, x).name) == FoldAscii(RouteOf(b, x).name)
  {
    var d, e := RouteOf(a, x).name, RouteOf(b, x).name;
    forall rows ensures Answer(s.(dirs := Table(rows)), b, limit, x) == Answer(s.(dirs := Table(rows)), a, limit, x)
                   <==> DirsByName(rows, d, limit) == DirsByName(rows, e, limit) {
      ResultsDetermined(DirsByName(rows, d, limit), DirsByName(rows, e, limit));
    }
    SameFoldersIff(d, e, limit);
  }

  lemma ResultsDetermined(r: seq<Fuzzy.FileRow>, t: seq<Fuzzy.FileRow>)
    ensures FolderResults(r) == FolderResults(t) <==> r == t
  {
    if FolderResults(r) == FolderResults(t) {
      forall i | 0 <= i < |r| ensures r[i] == t[i] {
        assert FolderResults(r)[i] == FolderResults(t)[i];
      }
    }
  }

  /** A folder named with a capital letter outside ASCII is found by its name and not by the same name in
      lower case, although lower-casing would not tell the two apart. */
  lemma AccentsMatter(s: Stores, limit: nat, x: Text)
    requires limit > 0 && !x.isSpace('/') && !x.isSpace('\U{00C9}') && !x.isSpace('\U{00E9}')
    ensures var table := s.(dirs := Table([Fuzzy.FileRow("\U{00C9}", "/\U{00C9}")]));
      Answer(table, "/\U{00C9}", limit, x).Ok? && |Answer(table, "/\U{00C9}", limit, x).value| == 1
      && Answer(table, "/\U{00E9}", limit, x) == Ok([])
  {
    var row := Fuzzy.FileRow("\U{00C9}", "/\U{00C9}");
    OneLetterFolder('\U{00C9}', x);
    OneLetterFolder('\U{00E9}', x);
    OneRow(row, "\U{00C9}", limit);
    OneRow(row, "\U{00E9}", limit);
    assert "\U{00C9}"[0..0 + 1] == "\U{00C9}" && OccursAt("\U{00C9}", row.name, 0);
    forall i: nat ensures !OccursAt("\U{00E9}", row.name, i) {
      if i == 0 { assert FoldAscii(row.name[0..0 + 1])[0] != FoldAscii("\U{00E9}")[0]; }
    }
  }

  lemma OneLetterFolder(c: char, x: Text)
    requires !x.isSpace('/') && !x.isSpace(c)
    ensures RouteOf("/" + [c], x) == Folders([c])
  {
    var t := "/" + [c];
    assert t[1..] == [c] && Trim(t, x.isSpace) == t && Trim([c], x.isSpace) == [c];
  }
}
