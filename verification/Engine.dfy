/** The local search pipeline of engine.rs as a function of the stores it reads. */
module EngineModel {
  import opened Wrappers
  import opened Sequences
  import opened Sorting
  import Fuzzy

  const JW_THRESHOLD := 0.75
  const LEV_MAX_DIST := 2
  const MIN_RESULTS_BEFORE_FUZZY := 3

  datatype ResultType = File | App

  datatype SearchResult = SearchResult(name: string, path: string, exec: Option<string>, kind: ResultType,
                                       score: real, icon: Option<string>)

  datatype AppRow = AppRow(name: string, sourcePath: string, exec: string, icon: Option<string>)

  datatype SearchError = DbError | IndexError

  /** What the trie, the full-text index and the database answer; `None` is a failed query. */
  datatype Stores = Stores(
    triePrefix: (string, nat) -> seq<string>,
    fullText: (string, nat) -> Option<seq<string>>,
    wildcard: (string, nat) -> Option<seq<string>>,
    apps: string -> Option<seq<AppRow>>,
    files: string -> Option<seq<Fuzzy.FileRow>>,
    dirs: (string, nat) -> Option<seq<Fuzzy.FileRow>>)

  /** String operations of the standard library. */
  datatype Text = Text(lower: string -> string, isSpace: char -> bool, fileName: string -> string)

  function TrimStart(s: string, drop: char -> bool): string {
    if s != [] && drop(s[0]) then TrimStart(s[1..], drop) else s
  }

  function TrimEnd(s: string, drop: char -> bool): string {
    if s != [] && drop(s[|s| - 1]) then TrimEnd(s[..|s| - 1], drop) else s
  }

  function Trim(s: string, drop: char -> bool): string {
    TrimEnd(TrimStart(s, drop), drop)
  }

  // ----- stages

  /** Results so far and the keys already taken. */
  datatype Found = Found(results: seq<SearchResult>, seen: set<string>)

  function FileResult(path: string, score: real, x: Text): SearchResult {
    SearchResult(x.fileName(path), path, None, File, score, None)
  }

  function AppResult(app: AppRow): SearchResult {
    SearchResult(app.name, app.sourcePath, Some(app.exec), App, 1.0, app.icon)
  }

  function FuzzyResult(m: Fuzzy.FuzzyMatch): SearchResult {
    SearchResult(m.name, m.path, None, File, m.score * 0.6, None)
  }

  /** The key under which a result is remembered as seen. */
  function KeyOf(r: SearchResult): string {
    if r.kind == App then "app:" + r.path else r.path
  }

  function Add(f: Found, r: SearchResult): Found {
    if KeyOf(r) in f.seen then f else Found(f.results + [r], f.seen + {KeyOf(r)})
  }

  function AddAll(f: Found, rs: seq<SearchResult>): Found {
    if rs == [] then f else Add(AddAll(f, rs[..|rs| - 1]), rs[|rs| - 1])
  }

  function FileResults(paths: seq<string>, score: real, x: Text): (rs: seq<SearchResult>)
    ensures |rs| == |paths| && forall i :: 0 <= i < |rs| ==> rs[i] == FileResult(paths[i], score, x)
  {
    seq(|paths|, i requires 0 <= i < |paths| => FileResult(paths[i], score, x))
  }

  function AppResults(apps: seq<AppRow>): (rs: seq<SearchResult>)
    ensures |rs| == |apps| && forall i :: 0 <= i < |rs| ==> rs[i] == AppResult(apps[i])
  {
    seq(|apps|, i requires 0 <= i < |apps| => AppResult(apps[i]))
  }

  function FuzzyResults(ms: seq<Fuzzy.FuzzyMatch>): (rs: seq<SearchResult>)
    ensures |rs| == |ms| && forall i :: 0 <= i < |rs| ==> rs[i] == FuzzyResult(ms[i])
  {
    seq(|ms|, i requires 0 <= i < |ms| => FuzzyResult(ms[i]))
  }

  /** Stages 1 to 3: trie, full text, wildcard. */
  function PathStages(s: Stores, q: string, limit: nat, x: Text): Result<Found, SearchError> {
    var one := AddAll(Found([], {}), FileResults(s.triePrefix(q, limit), 1.0, x));
    var text := if |one.results| < limit then s.fullText(q, limit) else Some([]);
    if text.None? then Err(IndexError) else
      var two := AddAll(one, FileResults(text.value, 0.8, x));
      var wild := if |two.results| < MIN_RESULTS_BEFORE_FUZZY then s.wildcard(q, limit) else Some([]);
      if wild.None? then Err(IndexError) else
        Ok(AddAll(two, FileResults(wild.value, 0.65, x)))
  }

  function AppsOrNone(s: Stores, q: string): seq<AppRow> {
    if s.apps(q).Some? then s.apps(q).value else []
  }

  ghost function Collected(s: Stores, q: string, limit: nat, x: Text): Result<Found, SearchError> {
    var paths := PathStages(s, q, limit, x);
    if paths.Err? then paths else
      var four := AddAll(paths.value, AppResults(AppsOrNone(s, q)));
      if |four.results| >= MIN_RESULTS_BEFORE_FUZZY then Ok(four) else
        var rows := s.files(q);
        if rows.None? then Err(DbError) else
          Ok(AddAll(four, FuzzyResults(Fuzzy.Ranked(q, rows.value, JW_THRESHOLD, LEV_MAX_DIST, limit, x.lower))))
  }

  /** Apps above files; within a kind, higher score first. */
  predicate ByRank(a: SearchResult, b: SearchResult) {
    if a.kind == App && b.kind == File then true
    else if a.kind == File && b.kind == App then false
    else b.score <= a.score
  }

  function Take<T>(s: seq<T>, n: nat): (t: seq<T>)
    ensures t <= s && |t| == if |s| < n then |s| else n
  {
    if |s| <= n then s else s[..n]
  }

  ghost function Pipeline(s: Stores, q: string, limit: nat, x: Text): Result<seq<SearchResult>, SearchError> {
    var f := Collected(s, q, limit, x);
    if f.Err? then Err(f.error) else Ok(Take(StableSort(f.value.results, ByRank), limit))
  }

  // ----- the final sort is a stable partition

  function OfKind(s: seq<SearchResult>, k: ResultType): seq<SearchResult> {
    if s == [] then [] else (if s[0].kind == k then [s[0]] else []) + OfKind(s[1..], k)
  }

  /** Within each kind, no result scores above an earlier one. */
  ghost predicate Staged(s: seq<SearchResult>) {
    forall i, j :: 0 <= i < j < |s| && s[i].kind == s[j].kind ==> s[j].score <= s[i].score
  }

  lemma {:induction false} OfKindMembers(s: seq<SearchResult>, k: ResultType)
    ensures forall r :: r in OfKind(s, k) <==> r in s && r.kind == k
  {
    if s != [] {
      OfKindMembers(s[1..], k);
      assert s == [s[0]] + s[1..];
    }
  }

  /** Inserting in front of a partitioned list keeps it partitioned. */
  lemma {:induction false} InsertPartition(r: SearchResult, apps: seq<SearchResult>, files: seq<SearchResult>)
    requires forall a :: a in apps ==> a.kind == App && (r.kind == App ==> a.score <= r.score)
    requires forall f :: f in files ==> f.kind == File && (r.kind == File ==> f.score <= r.score)
    ensures Insert(r, apps + files, ByRank) == if r.kind == App then [r] + apps + files else apps + ([r] + files)
  {
    var s := apps + files;
    if s == [] {
    } else if r.kind == App || apps == [] {
      assert s[0] in apps || s[0] in files;
    } else {
      assert s[0] == apps[0] && apps[0] in apps && s[1..] == apps[1..] + files;
      assert forall a :: a in apps[1..] ==> a in apps;
      InsertPartition(r, apps[1..], files);
    }
  }

  lemma HeadIsTop(s: seq<SearchResult>, k: ResultType)
    requires s != [] && Staged(s)
    ensures forall r :: r in OfKind(s[1..], k) ==> r.kind == k && (s[0].kind == k ==> r.score <= s[0].score)
  {
    OfKindMembers(s[1..], k);
    forall r | r in s[1..] && r.kind == s[0].kind ensures r.score <= s[0].score {
      var i :| 0 <= i < |s[1..]| && s[1..][i] == r;
      assert s[i + 1] == r;
    }
  }

  lemma {:induction false} SortIsPartition(s: seq<SearchResult>)
    requires Staged(s)
    ensures StableSort(s, ByRank) == OfKind(s, App) + OfKind(s, File)
  {
    if s != [] {
      SortIsPartition(s[1..]);
      HeadIsTop(s, App);
      HeadIsTop(s, File);
      InsertPartition(s[0], OfKind(s[1..], App), OfKind(s[1..], File));
    }
  }

  // ----- what the stages maintain

  /** Distinct keys, all remembered. */
  ghost predicate Distinct(f: Found) {
    && (forall r :: r in f.results ==> KeyOf(r) in f.seen)
    && (forall i, j :: 0 <= i < j < |f.results| ==> KeyOf(f.results[i]) != KeyOf(f.results[j]))
  }

  lemma {:induction false} AddAllDistinct(f: Found, rs: seq<SearchResult>)
    requires Distinct(f)
    ensures Distinct(AddAll(f, rs))
  {
    if rs != [] {
      AddAllDistinct(f, rs[..|rs| - 1]);
    }
  }

  /** Every score of this kind is at least `low`. */
  ghost predicate AtLeast(s: seq<SearchResult>, k: ResultType, low: real) {
    forall r :: r in s && r.kind == k ==> low <= r.score
  }

  /** The results added by a stage are those of the stage, in order, and sit behind what was there. */
  lemma {:induction false} AddAllStaged(f: Found, rs: seq<SearchResult>, k: ResultType, high: real, low: real)
    requires Staged(f.results) && AtLeast(f.results, k, high) && low <= high
    requires Staged(rs) && forall r :: r in rs ==> r.kind == k && low <= r.score <= high
    ensures var g := AddAll(f, rs).results;
      && Staged(g) && f.results <= g && AtLeast(g, k, low)
      && (forall o :: o != k ==> OfKind(g, o) == OfKind(f.results, o))
      && (forall r :: r in g ==> r in f.results || r in rs)
    decreases |rs|
  {
    if rs != [] {
      var n := |rs| - 1;
      assert forall r :: r in rs[..n] ==> r in rs;
      AddAllStaged(f, rs[..n], k, high, low);
      var g := AddAll(f, rs[..n]);
      AddLast(f, rs, g, k, high);
    }
  }

  lemma AddLast(f: Found, rs: seq<SearchResult>, g: Found, k: ResultType, high: real)
    requires rs != [] && Staged(rs) && Staged(g.results) && AtLeast(f.results, k, high)
    requires f.results <= g.results
    requires forall r :: r in rs ==> r.kind == k && r.score <= high
    requires forall r :: r in g.results ==> r in f.results || r in rs[..|rs| - 1]
    ensures Staged(Add(g, rs[|rs| - 1]).results)
    ensures forall o :: o != k ==> OfKind(Add(g, rs[|rs| - 1]).results, o) == OfKind(g.results, o)
  {
    var last := rs[|rs| - 1];
    assert last in rs;
    forall r | r in g.results && r.kind == k ensures last.score <= r.score {
      if r in rs[..|rs| - 1] {
        var i :| 0 <= i < |rs| - 1 && rs[i] == r;
      }
    }
    forall o | o != k ensures OfKind(g.results + [last], o) == OfKind(g.results, o) {
      OfKindSnoc(g.results, last, o);
    }
  }

  lemma {:induction false} OfKindSnoc(s: seq<SearchResult>, r: SearchResult, k: ResultType)
    ensures OfKind(s + [r], k) == OfKind(s, k) + (if r.kind == k then [r] else [])
  {
    if s == [] {
      assert s + [r] == [r] && [r][1..] == [];
    } else {
      OfKindSnoc(s[1..], r, k);
      TailOfSum(s, [r]);
      Associative(if s[0].kind == k then [s[0]] else [], OfKind(s[1..], k), if r.kind == k then [r] else []);
    }
  }

  lemma FileStage(f: Found, paths: seq<string>, score: real, high: real, x: Text)
    requires Staged(f.results) && AtLeast(f.results, File, high) && score <= high && Distinct(f)
    ensures var g := AddAll(f, FileResults(paths, score, x));
      && Staged(g.results) && AtLeast(g.results, File, score) && Distinct(g) && f.results <= g.results
      && OfKind(g.results, App) == OfKind(f.results, App)
  {
    AddAllDistinct(f, FileResults(paths, score, x));
    AddAllStaged(f, FileResults(paths, score, x), File, high, score);
  }

  lemma PathStagesStaged(s: Stores, q: string, limit: nat, x: Text)
    requires PathStages(s, q, limit, x).Ok?
    ensures var f := PathStages(s, q, limit, x).value;
      Staged(f.results) && AtLeast(f.results, File, 0.65) && Distinct(f) && OfKind(f.results, App) == []
  {
    var zero := Found([], {});
    FileStage(zero, s.triePrefix(q, limit), 1.0, 1.0, x);
    var one := AddAll(zero, FileResults(s.triePrefix(q, limit), 1.0, x));
    var text := if |one.results| < limit then s.fullText(q, limit) else Some([]);
    FileStage(one, text.value, 0.8, 1.0, x);
    var two := AddAll(one, FileResults(text.value, 0.8, x));
    var wild := if |two.results| < MIN_RESULTS_BEFORE_FUZZY then s.wildcard(q, limit) else Some([]);
    FileStage(two, wild.value, 0.65, 0.8, x);
  }

  /** Fuzzy results arrive sorted and never above 0.6. */
  lemma FuzzyStage(q: string, rows: seq<Fuzzy.FileRow>, limit: nat, x: Text)
    ensures var rs := FuzzyResults(Fuzzy.Ranked(q, rows, JW_THRESHOLD, LEV_MAX_DIST, limit, x.lower));
      Staged(rs) && forall r :: r in rs ==> r.kind == File && 0.0 <= r.score <= 0.6
  {
    Fuzzy.RankedSorted(q, rows, JW_THRESHOLD, LEV_MAX_DIST, limit, x.lower);
    var ms := Fuzzy.Ranked(q, rows, JW_THRESHOLD, LEV_MAX_DIST, limit, x.lower);
    var rs := FuzzyResults(ms);
    forall i | 0 <= i < |rs| ensures rs[i].kind == File && 0.0 <= rs[i].score <= 0.6 {
      assert ms[i] in ms;
    }
  }

  lemma AppStage(f: Found, apps: seq<AppRow>)
    requires Staged(f.results) && Distinct(f) && AtLeast(f.results, File, 0.65) && OfKind(f.results, App) == []
    ensures var g := AddAll(f, AppResults(apps));
      && Staged(g.results) && Distinct(g) && AtLeast(g.results, File, 0.65) && f.results <= g.results
      && OfKind(g.results, File) == f.results
  {
    OfKindMembers(f.results, App);
    AddAllDistinct(f, AppResults(apps));
    AddAllStaged(f, AppResults(apps), App, 1.0, 1.0);
    AllFiles(f.results);
  }

  lemma {:induction false} AllFiles(s: seq<SearchResult>)
    requires forall r :: r in s ==> r.kind == File
    ensures OfKind(s, File) == s
  {
    if s != [] {
      assert s[0] in s && forall r :: r in s[1..] ==> r in s;
      AllFiles(s[1..]);
    }
  }

  lemma CollectedStaged(s: Stores, q: string, limit: nat, x: Text)
    requires Collected(s, q, limit, x).Ok?
    ensures var f := Collected(s, q, limit, x).value; Staged(f.results) && Distinct(f)
    ensures PathStages(s, q, limit, x).Ok?
    ensures PathStages(s, q, limit, x).value.results <= OfKind(Collected(s, q, limit, x).value.results, File)
  {
    PathStagesStaged(s, q, limit, x);
    var paths := PathStages(s, q, limit, x).value;
    AppStage(paths, AppsOrNone(s, q));
    var four := AddAll(paths, AppResults(AppsOrNone(s, q)));
    if |four.results| < MIN_RESULTS_BEFORE_FUZZY {
      var rows := s.files(q).value;
      var rs := FuzzyResults(Fuzzy.Ranked(q, rows, JW_THRESHOLD, LEV_MAX_DIST, limit, x.lower));
      FuzzyStage(q, rows, limit, x);
      AddAllDistinct(four, rs);
      AddAllStaged(four, rs, File, 0.65, 0.0);
      OfKindPrefix(four.results, AddAll(four, rs).results, File);
    }
  }

  lemma {:induction false} OfKindPrefix(s: seq<SearchResult>, t: seq<SearchResult>, k: ResultType)
    requires s <= t
    ensures OfKind(s, k) <= OfKind(t, k)
  {
    if s != [] {
      OfKindPrefix(s[1..], t[1..], k);
    }
  }

  // ----- the stages, without the bookkeeping

  function KeysOf(rs: seq<SearchResult>): set<string> {
    set r | r in rs :: KeyOf(r)
  }

  /** What a stage adds: the first result for every key that was not seen before. */
  function Fresh(rs: seq<SearchResult>, seen: set<string>): seq<SearchResult> {
    if rs == [] then []
    else if KeyOf(rs[0]) in seen then Fresh(rs[1..], seen)
    else [rs[0]] + Fresh(rs[1..], seen + {KeyOf(rs[0])})
  }

  predicate FirstOfItsKey(rs: seq<SearchResult>, seen: set<string>, i: nat)
    requires i < |rs|
  {
    KeyOf(rs[i]) !in seen && forall j :: 0 <= j < i ==> KeyOf(rs[j]) != KeyOf(rs[i])
  }

  /** `at` are the positions in `rs` of what is kept, in order: exactly those whose key was neither seen
      nor stands earlier in the list. */
  ghost predicate Positions(at: seq<nat>, rs: seq<SearchResult>, seen: set<string>) {
    && Picks(at, rs, Fresh(rs, seen))
    && (forall i :: 0 <= i < |rs| ==> (i in at <==> FirstOfItsKey(rs, seen, i)))
  }

  /** `kept` is what stands in `rs` at these positions, in order. */
  ghost predicate Picks<T>(at: seq<nat>, rs: seq<T>, kept: seq<T>) {
    && |at| == |kept|
    && (forall k :: 0 <= k < |at| ==> at[k] < |rs| && kept[k] == rs[at[k]])
    && (forall k, l :: 0 <= k < l < |at| ==> at[k] < at[l])
  }

  lemma {:induction false} FreshMeans(rs: seq<SearchResult>, seen: set<string>) returns (at: seq<nat>)
    ensures Positions(at, rs, seen)
  {
    if rs == [] {
      at := [];
    } else {
      var kept := KeyOf(rs[0]) !in seen;
      var seen' := seen + {KeyOf(rs[0])};
      assert !kept ==> seen' == seen;
      var rest := FreshMeans(rs[1..], seen');
      at := WithFirst(kept, rest);
      PositionsShift(rs, seen, kept, rest);
    }
  }

  function Shifted(at: seq<nat>): (r: seq<nat>)
    ensures |r| == |at| && forall k :: 0 <= k < |at| ==> r[k] == at[k] + 1
  {
    seq(|at|, k requires 0 <= k < |at| => at[k] + 1)
  }

  /** The positions in a list from those in its tail. */
  function WithFirst(first: bool, rest: seq<nat>): seq<nat> {
    (if first then [0] else []) + Shifted(rest)
  }

  lemma WithFirstMember(first: bool, rest: seq<nat>, i: nat)
    ensures i in WithFirst(first, rest) <==> if i == 0 then first else i - 1 in rest
  {
    if i > 0 && i - 1 in rest {
      var k :| 0 <= k < |rest| && rest[k] == i - 1;
      assert Shifted(rest)[k] == i;
    }
  }

  lemma PicksShift<T>(rs: seq<T>, first: bool, rest: seq<nat>, kept: seq<T>)
    requires rs != [] && Picks(rest, rs[1..], kept)
    ensures Picks(WithFirst(first, rest), rs, (if first then [rs[0]] else []) + kept)
  {
    var at := WithFirst(first, rest);
    var all := (if first then [rs[0]] else []) + kept;
    var n := if first then 1 else 0;
    forall k | 0 <= k < |at| ensures at[k] < |rs| && all[k] == rs[at[k]] {
      if k >= n { assert at[k] == rest[k - n] + 1 && all[k] == kept[k - n]; }
    }
  }

  lemma PositionsShift(rs: seq<SearchResult>, seen: set<string>, first: bool, rest: seq<nat>)
    requires rs != [] && first == (KeyOf(rs[0]) !in seen)
    requires Positions(rest, rs[1..], seen + {KeyOf(rs[0])})
    ensures Positions(WithFirst(first, rest), rs, seen)
  {
    assert !first ==> seen + {KeyOf(rs[0])} == seen;
    PicksShift(rs, first, rest, Fresh(rs[1..], seen + {KeyOf(rs[0])}));
    forall i | 0 <= i < |rs| ensures i in WithFirst(first, rest) <==> FirstOfItsKey(rs, seen, i) {
      FirstShift(rs, seen, i);
      WithFirstMember(first, rest, i);
    }
  }

  lemma FirstShift(rs: seq<SearchResult>, seen: set<string>, i: nat)
    requires i < |rs|
    ensures i == 0 ==> (FirstOfItsKey(rs, seen, 0) <==> KeyOf(rs[0]) !in seen)
    ensures i > 0 ==> (FirstOfItsKey(rs, seen, i) <==> FirstOfItsKey(rs[1..], seen + {KeyOf(rs[0])}, i - 1))
    ensures i > 0 && KeyOf(rs[0]) in seen ==> seen + {KeyOf(rs[0])} == seen
  {
    if i > 0 {
      if FirstOfItsKey(rs[1..], seen + {KeyOf(rs[0])}, i - 1) {
        forall j | 0 <= j < i ensures KeyOf(rs[j]) != KeyOf(rs[i]) {
          if j > 0 { assert rs[1..][j - 1] == rs[j]; }
        }
      }
    }
  }

  lemma {:induction false} FreshSnoc(rs: seq<SearchResult>, r: SearchResult, seen: set<string>)
    ensures Fresh(rs + [r], seen)
         == Fresh(rs, seen) + (if KeyOf(r) in seen + KeysOf(rs) then [] else [r])
  {
    var all := rs + [r];
    if rs == [] {
      assert all == [r] && all[1..] == [] && KeysOf(rs) == {};
    } else {
      assert all[0] == rs[0] && all[1..] == rs[1..] + [r];
      var seen' := if KeyOf(rs[0]) in seen then seen else seen + {KeyOf(rs[0])};
      FreshSnoc(rs[1..], r, seen');
      KeysOfFirst(rs);
      assert seen' + KeysOf(rs[1..]) == seen + KeysOf(rs);
    }
  }

  lemma KeysOfFirst(rs: seq<SearchResult>)
    requires rs != []
    ensures KeysOf(rs) == {KeyOf(rs[0])} + KeysOf(rs[1..])
  {
    assert rs == [rs[0]] + rs[1..];
  }

  lemma KeysOfSnoc(rs: seq<SearchResult>, r: SearchResult)
    ensures KeysOf(rs + [r]) == KeysOf(rs) + {KeyOf(r)}
  {
  }

  /** The loops with the set of seen keys add exactly these. */
  lemma {:induction false} AddAllIsFresh(f: Found, rs: seq<SearchResult>)
    ensures AddAll(f, rs) == Found(f.results + Fresh(rs, f.seen), f.seen + KeysOf(rs))
  {
    if rs == [] {
      assert KeysOf(rs) == {} && f.results + [] == f.results;
    } else {
      var front, last := rs[..|rs| - 1], rs[|rs| - 1];
      assert rs == front + [last];
      AddAllIsFresh(f, front);
      FreshSnoc(front, last, f.seen);
      KeysOfSnoc(front, last);
      var g := AddAll(f, front);
      if KeyOf(last) in g.seen {
        assert f.seen + KeysOf(rs) == g.seen;
      } else {
        assert f.results + Fresh(rs, f.seen) == g.results + [last];
        assert f.seen + KeysOf(rs) == g.seen + {KeyOf(last)};
      }
    }
  }

  /** The raw results of the five stages; a stage that is skipped has none. */
  datatype Stages = Stages(trie: seq<SearchResult>, text: seq<SearchResult>, wild: seq<SearchResult>,
                           apps: seq<SearchResult>, fuzzy: seq<SearchResult>)
  {
    function SeenBeforeText(): set<string> { KeysOf(trie) }

    function SeenBeforeWild(): set<string> { SeenBeforeText() + KeysOf(text) }

    function SeenBeforeApps(): set<string> { SeenBeforeWild() + KeysOf(wild) }

    function SeenBeforeFuzzy(): set<string> { SeenBeforeApps() + KeysOf(apps) }

    function Paths(): seq<SearchResult> {
      Fresh(trie, {}) + Fresh(text, SeenBeforeText()) + Fresh(wild, SeenBeforeWild())
    }
  }

  /** A file result for each path: the last component as its name, and the score of the stage. */
  ghost predicate FilesOf(rs: seq<SearchResult>, paths: seq<string>, score: real, x: Text) {
    |rs| == |paths| && forall i :: 0 <= i < |rs| ==>
      rs[i] == SearchResult(x.fileName(paths[i]), paths[i], None, File, score, None)
  }

  ghost predicate AppsOf(rs: seq<SearchResult>, apps: seq<AppRow>) {
    |rs| == |apps| && forall i :: 0 <= i < |rs| ==>
      rs[i] == SearchResult(apps[i].name, apps[i].sourcePath, Some(apps[i].exec), App, 1.0, apps[i].icon)
  }

  /** Fuzzy matches come with six tenths of their score. */
  ghost predicate FuzzyOf(rs: seq<SearchResult>, ms: seq<Fuzzy.FuzzyMatch>) {
    |rs| == |ms| && forall i :: 0 <= i < |rs| ==>
      rs[i] == SearchResult(ms[i].name, ms[i].path, None, File, ms[i].score * 6.0 / 10.0, None)
  }

  /** These are the stages of a query: full text runs when the trie found too few, wildcard and fuzzy when
      fewer than three results are there. A failed app query counts as no apps. */
  ghost predicate AreStages(st: Stages, s: Stores, q: string, limit: nat, x: Text) {
    && FilesOf(st.trie, s.triePrefix(q, limit), 1.0, x)
    && (if |Fresh(st.trie, {})| < limit
        then s.fullText(q, limit).Some? && FilesOf(st.text, s.fullText(q, limit).value, 0.8, x)
        else st.text == [])
    && (if |Fresh(st.trie, {}) + Fresh(st.text, st.SeenBeforeText())| < 3
        then s.wildcard(q, limit).Some? && FilesOf(st.wild, s.wildcard(q, limit).value, 0.65, x)
        else st.wild == [])
    && (if s.apps(q).Some? then AppsOf(st.apps, s.apps(q).value) else st.apps == [])
    && (if |st.Paths() + Fresh(st.apps, st.SeenBeforeApps())| < 3
        then s.files(q).Some?
          && FuzzyOf(st.fuzzy, Fuzzy.Ranked(q, s.files(q).value, 0.75, 2, limit, x.lower))
        else st.fuzzy == [])
  }

  lemma PathStagesOf(s: Stores, q: string, limit: nat, x: Text)
    returns (trie: seq<SearchResult>, text: seq<SearchResult>, wild: seq<SearchResult>)
    requires PathStages(s, q, limit, x).Ok?
    ensures trie == FileResults(s.triePrefix(q, limit), 1.0, x)
    ensures if |Fresh(trie, {})| < limit
      then s.fullText(q, limit).Some? && text == FileResults(s.fullText(q, limit).value, 0.8, x)
      else text == []
    ensures if |Fresh(trie, {}) + Fresh(text, KeysOf(trie))| < MIN_RESULTS_BEFORE_FUZZY
      then s.wildcard(q, limit).Some? && wild == FileResults(s.wildcard(q, limit).value, 0.65, x)
      else wild == []
    ensures PathStages(s, q, limit, x).value
         == Found(Fresh(trie, {}) + Fresh(text, KeysOf(trie)) + Fresh(wild, KeysOf(trie) + KeysOf(text)),
                  KeysOf(trie) + KeysOf(text) + KeysOf(wild))
  {
    var zero := Found([], {});
    trie := FileResults(s.triePrefix(q, limit), 1.0, x);
    AddAllIsFresh(zero, trie);
    var one := AddAll(zero, trie);
    assert one == Found(Fresh(trie, {}), KeysOf(trie));
    text := FileResults(if |one.results| < limit then s.fullText(q, limit).value else [], 0.8, x);
    AddAllIsFresh(one, text);
    var two := AddAll(one, text);
    wild := FileResults(if |two.results| < MIN_RESULTS_BEFORE_FUZZY then s.wildcard(q, limit).value else [], 0.65, x);
    AddAllIsFresh(two, wild);
  }

  /** What the code collects, stage by stage. */
  lemma CollectedByStages(s: Stores, q: string, limit: nat, x: Text) returns (st: Stages)
    requires Collected(s, q, limit, x).Ok?
    ensures AreStages(st, s, q, limit, x)
    ensures PathStages(s, q, limit, x).Ok? && PathStages(s, q, limit, x).value.results == st.Paths()
    ensures Collected(s, q, limit, x).value.results
         == st.Paths() + Fresh(st.apps, st.SeenBeforeApps()) + Fresh(st.fuzzy, st.SeenBeforeFuzzy())
  {
    var trie, text, wild := PathStagesOf(s, q, limit, x);
    var apps := AppResults(AppsOrNone(s, q));
    var three := PathStages(s, q, limit, x).value;
    AddAllIsFresh(three, apps);
    var four := AddAll(three, apps);
    var fuzzy := if |four.results| >= MIN_RESULTS_BEFORE_FUZZY then []
      else FuzzyResults(Fuzzy.Ranked(q, s.files(q).value, JW_THRESHOLD, LEV_MAX_DIST, limit, x.lower));
    AddAllIsFresh(four, fuzzy);
    st := Stages(trie, text, wild, apps, fuzzy);
    assert four.results + Fresh([], four.seen) == four.results;
  }

  lemma {:induction false} FreshMembers(rs: seq<SearchResult>, seen: set<string>)
    ensures forall r :: r in Fresh(rs, seen) ==> r in rs
  {
    if rs != [] {
      FreshMembers(rs[1..], if KeyOf(rs[0]) in seen then seen else seen + {KeyOf(rs[0])});
    }
  }

  lemma {:induction false} OfKindAppend(s: seq<SearchResult>, t: seq<SearchResult>, k: ResultType)
    ensures OfKind(s + t, k) == OfKind(s, k) + OfKind(t, k)
  {
    if s == [] {
      assert s + t == t;
    } else {
      TailOfSum(s, t);
      OfKindAppend(s[1..], t, k);
      Associative(if s[0].kind == k then [s[0]] else [], OfKind(s[1..], k), OfKind(t, k));
    }
  }

  lemma {:induction false} OfOneKind(s: seq<SearchResult>, k: ResultType, o: ResultType)
    requires forall r :: r in s ==> r.kind == k
    ensures OfKind(s, o) == if o == k then s else []
  {
    if s != [] {
      assert s[0] in s && forall r :: r in s[1..] ==> r in s;
      OfOneKind(s[1..], k, o);
    }
  }

  /** The files and the apps among what is collected. */
  lemma KindsByStages(s: Stores, q: string, limit: nat, x: Text, st: Stages)
    requires AreStages(st, s, q, limit, x)
    ensures var found := st.Paths() + Fresh(st.apps, st.SeenBeforeApps()) + Fresh(st.fuzzy, st.SeenBeforeFuzzy());
      OfKind(found, App) == Fresh(st.apps, st.SeenBeforeApps())
      && OfKind(found, File) == st.Paths() + Fresh(st.fuzzy, st.SeenBeforeFuzzy())
  {
    FreshOfKind(st.trie, {}, File);
    FreshOfKind(st.text, st.SeenBeforeText(), File);
    FreshOfKind(st.wild, st.SeenBeforeWild(), File);
    FreshOfKind(st.apps, st.SeenBeforeApps(), App);
    FreshOfKind(st.fuzzy, st.SeenBeforeFuzzy(), File);
    PartsByKind(st.Paths(), Fresh(st.apps, st.SeenBeforeApps()), Fresh(st.fuzzy, st.SeenBeforeFuzzy()));
  }

  lemma FreshOfKind(rs: seq<SearchResult>, seen: set<string>, k: ResultType)
    requires forall r :: r in rs ==> r.kind == k
    ensures forall r :: r in Fresh(rs, seen) ==> r.kind == k
  {
    FreshMembers(rs, seen);
  }

  lemma ThreeParts(a: seq<SearchResult>, b: seq<SearchResult>, c: seq<SearchResult>, k: ResultType)
    ensures OfKind(a + b + c, k) == OfKind(a, k) + OfKind(b, k) + OfKind(c, k)
  {
    OfKindAppend(a + b, c, k);
    OfKindAppend(a, b, k);
  }

  lemma NothingAround<T>(a: seq<T>, b: seq<T>, c: seq<T>)
    ensures [] + b + [] == b && a + [] + c == a + c
  {
  }

  lemma PartsByKind(paths: seq<SearchResult>, apps: seq<SearchResult>, fuzzy: seq<SearchResult>)
    requires forall r :: r in paths || r in fuzzy ==> r.kind == File
    requires forall r :: r in apps ==> r.kind == App
    ensures OfKind(paths + apps + fuzzy, App) == apps && OfKind(paths + apps + fuzzy, File) == paths + fuzzy
  {
    PartsOf(paths, apps, fuzzy, App);
    PartsOf(paths, apps, fuzzy, File);
  }

  lemma PartsOf(paths: seq<SearchResult>, apps: seq<SearchResult>, fuzzy: seq<SearchResult>, k: ResultType)
    requires forall r :: r in paths || r in fuzzy ==> r.kind == File
    requires forall r :: r in apps ==> r.kind == App
    ensures OfKind(paths + apps + fuzzy, k) == if k == App then apps else paths + fuzzy
  {
    ThreeParts(paths, apps, fuzzy, k);
    OfOneKind(paths, File, k);
    OfOneKind(apps, App, k);
    OfOneKind(fuzzy, File, k);
    NothingAround(paths, apps, fuzzy);
  }

  /** The answer is, cut at the limit, the new apps, then the new files of the trie, of the full-text
      search, of the wildcard search and of the fuzzy search, each stage in its own order. No result is
      listed twice. */
  lemma PipelineOrder(s: Stores, q: string, limit: nat, x: Text) returns (st: Stages)
    requires Pipeline(s, q, limit, x).Ok?
    ensures AreStages(st, s, q, limit, x)
    ensures var out := Pipeline(s, q, limit, x).value;
      var whole := Fresh(st.apps, st.SeenBeforeApps())
                   + (Fresh(st.trie, {}) + Fresh(st.text, st.SeenBeforeText()) + Fresh(st.wild, st.SeenBeforeWild())
                      + Fresh(st.fuzzy, st.SeenBeforeFuzzy()));
      && out == (if |whole| <= limit then whole else whole[..limit])
      && (forall i, j :: 0 <= i < j < |out| ==> (out[i].kind, out[i].path) != (out[j].kind, out[j].path))
  {
    st := CollectedByStages(s, q, limit, x);
    KindsByStages(s, q, limit, x, st);
    PipelinePartition(s, q, limit, x);
  }

  /** Two results count as the same when they are of one kind and have one path; and a file whose path reads
      `app:` and the path of an app counts as that app. */
  lemma SameKeyIff(a: SearchResult, b: SearchResult)
    ensures KeyOf(a) == KeyOf(b) <==>
      || (a.kind == b.kind && a.path == b.path)
      || (a.kind == App && b.kind == File && b.path == "app:" + a.path)
      || (a.kind == File && b.kind == App && a.path == "app:" + b.path)
  {
    var p, q := "app:" + a.path, "app:" + b.path;
    assert p[4..] == a.path && q[4..] == b.path;
  }

  lemma PipelinePartition(s: Stores, q: string, limit: nat, x: Text)
    requires Pipeline(s, q, limit, x).Ok?
    ensures var out := Pipeline(s, q, limit, x).value;
      var found := Collected(s, q, limit, x).value.results;
      && out == Take(OfKind(found, App) + OfKind(found, File), limit)
      && |out| <= limit
      && (forall i, j :: 0 <= i < j < |out| ==> (out[i].kind, out[i].path) != (out[j].kind, out[j].path))
  {
    CollectedStaged(s, q, limit, x);
    var f := Collected(s, q, limit, x).value;
    SortIsPartition(f.results);
    PartitionDistinct(f);
  }

  lemma PartitionDistinct(f: Found)
    requires Distinct(f)
    ensures var out := OfKind(f.results, App) + OfKind(f.results, File);
      forall i, j :: 0 <= i < j < |out| ==> (out[i].kind, out[i].path) != (out[j].kind, out[j].path)
  {
    OfKindMembers(f.results, App);
    OfKindMembers(f.results, File);
    OfKindDistinct(f.results, App);
    OfKindDistinct(f.results, File);
    var apps, files := OfKind(f.results, App), OfKind(f.results, File);
    var out := apps + files;
    forall i, j | 0 <= i < j < |out| ensures (out[i].kind, out[i].path) != (out[j].kind, out[j].path) {
      if j < |apps| {
        assert apps[i] in apps && apps[j] in apps;
      } else if i < |apps| {
        assert apps[i] in apps && files[j - |apps|] in files;
      } else {
        assert files[i - |apps|] in files && files[j - |apps|] in files;
      }
    }
  }

  ghost predicate DistinctKeys(s: seq<SearchResult>) {
    forall i, j :: 0 <= i < j < |s| ==> KeyOf(s[i]) != KeyOf(s[j])
  }

  lemma {:induction false} OfKindDistinct(s: seq<SearchResult>, k: ResultType)
    requires DistinctKeys(s)
    ensures DistinctKeys(OfKind(s, k))
  {
    if s != [] {
      OfKindDistinct(s[1..], k);
      OfKindMembers(s[1..], k);
      forall r | r in OfKind(s[1..], k) ensures KeyOf(r) != KeyOf(s[0]) {
        var i :| 0 <= i < |s[1..]| && s[1..][i] == r;
        assert r == s[i + 1];
      }
    }
  }

  // ----- a whole query

  /** Where a query goes. */
  datatype Route = Nothing | Folders(name: string) | Stars(text: string) | Normal(key: string)

  function RouteOf(query: string, x: Text): Route {
    var t := Trim(query, x.isSpace);
    if t == [] then Nothing
    else if t[0] == '/' then
      var d := Trim(t[1..], x.isSpace);
      if d == [] then Nothing else Folders(d)
    else if t[0] == '*' || t[|t| - 1] == '*' then
      var s := x.lower(Trim(t, c => c == '*'));
      if s == [] then Nothing else Stars(s)
    else Normal(x.lower(t))
  }

  function FolderResults(rows: seq<Fuzzy.FileRow>): (rs: seq<SearchResult>)
    ensures |rs| == |rows|
  {
    seq(|rows|, i requires 0 <= i < |rows| => SearchResult(rows[i].name, rows[i].path, None, File, 1.0, None))
  }

  /** The answer without any cache. */
  ghost function Answer(s: Stores, query: string, limit: nat, x: Text): Result<seq<SearchResult>, SearchError> {
    match RouteOf(query, x)
    case Nothing => Ok([])
    case Folders(d) => if s.dirs(d, limit).None? then Err(DbError) else Ok(FolderResults(s.dirs(d, limit).value))
    case Stars(t) =>
      if s.wildcard(t, limit).None? then Err(IndexError) else Ok(FileResults(s.wildcard(t, limit).value, 0.65, x))
    case Normal(q) => Pipeline(s, q, limit, x)
  }
}

/** The engine object: stores that change, and a cache that must not show. */
module EngineProgram {
  import opened Wrappers
  import opened Sorting
  import opened EngineModel
  import Fuzzy

  /** The cache holds only what the pipeline would answer for this limit. */
  ghost predicate CacheSound(cache: map<string, seq<SearchResult>>, s: Stores, limit: nat, x: Text) {
    forall q :: q in cache ==> Pipeline(s, q, limit, x) == Ok(cache[q])
  }

  class SearchEngine {
    const text: Text
    var stores: Stores
    var cache: map<string, seq<SearchResult>>

    constructor (stores: Stores, text: Text)
      ensures this.stores == stores && this.text == text && cache == map[]
    {
      this.stores, this.text := stores, text;
      cache := map[];
    }

    /** `rebuild`: the stores are read afresh and the cache is cleared. */
    method Rebuild(reread: Stores)
      modifies this
      ensures stores == reread && cache == map[]
      ensures State(stores, cache) == Stepped(State(old(stores), old(cache)), DoRebuild(reread), text)
    {
      stores := reread;
      cache := map[];
    }

    method InvalidateCache()
      modifies this`cache
      ensures cache == map[]
      ensures State(stores, cache) == Stepped(State(stores, old(cache)), DoInvalidate, text)
    {
      cache := map[];
    }

    /** `add_file` and `remove_file` change the trie and leave the cache. */
    method ChangeTrie(triePrefix: (string, nat) -> seq<string>)
      modifies this`stores
      ensures stores == old(stores).(triePrefix := triePrefix) && cache == old(cache)
      ensures State(stores, cache) == Stepped(State(old(stores), old(cache)), DoChangeTrie(triePrefix), text)
    {
      stores := stores.(triePrefix := triePrefix);
    }

    method AddFiles(f: Found, paths: seq<string>, score: real) returns (g: Found)
      ensures g == AddAll(f, FileResults(paths, score, text))
    {
      var results, seen := f.results, f.seen;
      ghost var all := FileResults(paths, score, text);
      assert all[..0] == [];
      for i := 0 to |paths|
        invariant Found(results, seen) == AddAll(f, all[..i])
      {
        assert all[..i + 1][..i] == all[..i];
        if paths[i] !in seen {
          seen := seen + {paths[i]};
          results := results + [FileResult(paths[i], score, text)];
        }
      }
      assert all[..|paths|] == all;
      g := Found(results, seen);
    }

    method AddApps(f: Found, apps: seq<AppRow>) returns (g: Found)
      ensures g == AddAll(f, AppResults(apps))
    {
      var results, seen := f.results, f.seen;
      ghost var all := AppResults(apps);
      assert all[..0] == [];
      for i := 0 to |apps|
        invariant Found(results, seen) == AddAll(f, all[..i])
      {
        assert all[..i + 1][..i] == all[..i];
        var key := "app:" + apps[i].sourcePath;
        if key !in seen {
          seen := seen + {key};
          results := results + [AppResult(apps[i])];
        }
      }
      assert all[..|apps|] == all;
      g := Found(results, seen);
    }

    method AddFuzzy(f: Found, ms: seq<Fuzzy.FuzzyMatch>) returns (g: Found)
      ensures g == AddAll(f, FuzzyResults(ms))
    {
      var results, seen := f.results, f.seen;
      ghost var all := FuzzyResults(ms);
      assert all[..0] == [];
      for i := 0 to |ms|
        invariant Found(results, seen) == AddAll(f, all[..i])
      {
        assert all[..i + 1][..i] == all[..i];
        if ms[i].path !in seen {
          seen := seen + {ms[i].path};
          results := results + [FuzzyResult(ms[i])];
        }
      }
      assert all[..|ms|] == all;
      g := Found(results, seen);
    }

    method RunPipeline(q: string, limit: nat) returns (r: Result<seq<SearchResult>, SearchError>)
      ensures r == Pipeline(stores, q, limit, text)
    {
      var f := AddFiles(Found([], {}), stores.triePrefix(q, limit), 1.0);
      if |f.results| < limit {
        var paths := stores.fullText(q, limit);
        if paths.None? {
          return Err(IndexError);
        }
        f := AddFiles(f, paths.value, 0.8);
      } else {
        f := AddFiles(f, [], 0.8);
      }
      if |f.results| < MIN_RESULTS_BEFORE_FUZZY {
        var paths := stores.wildcard(q, limit);
        if paths.None? {
          return Err(IndexError);
        }
        f := AddFiles(f, paths.value, 0.65);
      } else {
        f := AddFiles(f, [], 0.65);
      }
      f := AddApps(f, AppsOrNone(stores, q));
      if |f.results| < MIN_RESULTS_BEFORE_FUZZY {
        var rows := stores.files(q);
        if rows.None? {
          return Err(DbError);
        }
        var ms := Fuzzy.MatchCandidates(q, rows.value, JW_THRESHOLD, LEV_MAX_DIST, limit, text.lower);
        f := AddFuzzy(f, ms);
      }
      r := Ok(Take(StableSort(f.results, ByRank), limit));
    }

    /** `search`. `keep` says which entries the cache still holds afterwards: any eviction policy. */
    method Search(query: string, limit: nat, keep: set<string>) returns (r: Result<seq<SearchResult>, SearchError>)
      modifies this`cache
      ensures r == Lookup(State(stores, old(cache)), query, limit, text)
      ensures State(stores, cache) == Stepped(State(stores, old(cache)), DoSearch(query, limit, keep), text)
      ensures CacheSound(old(cache), stores, limit, text) ==>
        r == Answer(stores, query, limit, text) && CacheSound(cache, stores, limit, text)
    {
      match RouteOf(query, text)
      case Nothing =>
        r := Ok([]);
      case Folders(d) =>
        var rows := stores.dirs(d, limit);
        r := if rows.None? then Err(DbError) else Ok(FolderResults(rows.value));
      case Stars(t) =>
        var paths := stores.wildcard(t, limit);
        r := if paths.None? then Err(IndexError) else Ok(FileResults(paths.value, 0.65, text));
      case Normal(q) =>
        if q in cache {
          r := Ok(cache[q]);
          cache := Evict(cache[q := cache[q]], keep);
        } else {
          r := RunPipeline(q, limit);
          if r.Ok? {
            cache := Evict(cache[q := r.value], keep);
          }
        }
    }
  }

  function Evict(cache: map<string, seq<SearchResult>>, keep: set<string>): map<string, seq<SearchResult>> {
    map k | k in cache && k in keep :: cache[k]
  }

  datatype Op =
    | DoSearch(query: string, limit: nat, keep: set<string>)
    | DoRebuild(reread: Stores)
    | DoInvalidate
    | DoChangeTrie(triePrefix: (string, nat) -> seq<string>)

  datatype State = State(stores: Stores, cache: map<string, seq<SearchResult>>)

  /** One cached search, as `Search` performs it. */
  ghost function Lookup(st: State, query: string, limit: nat, x: Text): Result<seq<SearchResult>, SearchError> {
    match RouteOf(query, x)
    case Normal(q) => if q in st.cache then Ok(st.cache[q]) else Pipeline(st.stores, q, limit, x)
    case _ => Answer(st.stores, query, limit, x)
  }

  ghost function Stepped(st: State, op: Op, x: Text): State {
    match op
    case DoRebuild(reread) => State(reread, map[])
    case DoInvalidate => st.(cache := map[])
    case DoChangeTrie(triePrefix) => st.(stores := st.stores.(triePrefix := triePrefix))
    case DoSearch(query, limit, keep) =>
      var r := Lookup(st, query, limit, x);
      if RouteOf(query, x).Normal? && r.Ok?
      then st.(cache := Evict(st.cache[RouteOf(query, x).key := r.value], keep))
      else st
  }
}
