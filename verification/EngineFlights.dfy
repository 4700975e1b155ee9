/** Searches that overlap. A search looks into the cache, reads trie and indexes, then awaits the database
    twice, and only then stores its answer; anything may happen in between. */
module EngineFlights {
  import opened Wrappers
  import opened EngineModel
  import opened EngineProgram
  import opened EngineCache

  /** A search that missed the cache and has not stored its answer yet, with the stores as it read them. */
  datatype Flight = Flight(key: string, limit: nat, read: Stores)

  datatype Sky = Sky(now: State, flights: map<nat, Flight>)

  /** A whole operation of the engine, or one of the steps between the awaits of a search. A search that
      begins under the name of another replaces it: that one was dropped. */
  datatype Step =
    | Whole(op: Op)
    | Begin(id: nat, query: string, limit: nat)
    | ReadApps(id: nat)
    | ReadFiles(id: nat)
    | Finish(id: nat, keep: set<string>)

  ghost function Flown(sky: Sky, step: Step, x: Text): Sky {
    match step
    case Whole(op) => sky.(now := Stepped(sky.now, op, x))
    case Begin(id, query, limit) =>
      var route := RouteOf(query, x);
      if route.Normal? && route.key !in sky.now.cache
      then sky.(flights := sky.flights[id := Flight(route.key, limit, sky.now.stores)])
      else sky.(flights := sky.flights - {id})
    case ReadApps(id) =>
      if id !in sky.flights then sky else
        var f := sky.flights[id];
        sky.(flights := sky.flights[id := f.(read := f.read.(apps := sky.now.stores.apps))])
    case ReadFiles(id) =>
      if id !in sky.flights then sky else
        var f := sky.flights[id];
        sky.(flights := sky.flights[id := f.(read := f.read.(files := sky.now.stores.files))])
    case Finish(id, keep) =>
      if id !in sky.flights then sky else Sky(Stored(sky.now, sky.flights[id], keep, x), sky.flights - {id})
  }

  /** An answer is stored, an error is not. */
  ghost function Stored(now: State, f: Flight, keep: set<string>, x: Text): State {
    var r := Pipeline(f.read, f.key, f.limit, x);
    if r.Ok? then now.(cache := Evict(now.cache[f.key := r.value], keep)) else now
  }

  ghost function Flew(sky: Sky, steps: seq<Step>, x: Text): Sky
    decreases |steps|
  {
    if steps == [] then sky else Flown(Flew(sky, steps[..|steps| - 1], x), steps[|steps| - 1], x)
  }

  /** A search whose steps nothing separates is the one-step search. */
  lemma UndisturbedIsWhole(sky: Sky, id: nat, query: string, limit: nat, keep: set<string>, x: Text)
    requires RouteOf(query, x).Normal? && RouteOf(query, x).key !in sky.now.cache && id !in sky.flights
    ensures Flown(Flown(Flown(Flown(sky, Begin(id, query, limit), x), ReadApps(id), x), ReadFiles(id), x),
                  Finish(id, keep), x)
         == Flown(sky, Whole(DoSearch(query, limit, keep)), x)
  {
    var f := Flight(RouteOf(query, x).key, limit, sky.now.stores);
    var begun := Flown(sky, Begin(id, query, limit), x);
    assert begun.flights == sky.flights[id := f];
    assert f.(read := f.read.(apps := sky.now.stores.apps)) == f;
    assert f.(read := f.read.(files := sky.now.stores.files)) == f;
    assert Flown(begun, ReadApps(id), x) == begun == Flown(begun, ReadFiles(id), x);
    assert begun.flights - {id} == sky.flights;
  }

  // ----- what a search that is disturbed stores

  /** Steps of other searches, and whole operations. */
  predicate OfOthers(steps: seq<Step>, id: nat) {
    forall i :: 0 <= i < |steps| ==> steps[i].Whole? || steps[i].id != id
  }

  lemma {:induction false} FlightKept(sky: Sky, steps: seq<Step>, id: nat, x: Text)
    requires OfOthers(steps, id) && id in sky.flights
    ensures id in Flew(sky, steps, x).flights && Flew(sky, steps, x).flights[id] == sky.flights[id]
    decreases |steps|
  {
    if steps != [] {
      FlightKept(sky, steps[..|steps| - 1], id, x);
      var last := steps[|steps| - 1];
      assert last.Whole? || last.id != id;
    }
  }

  /** A search begins exactly when the query is a normal one and its key is not cached. */
  lemma BeginsIff(sky: Sky, id: nat, query: string, limit: nat, x: Text)
    ensures var after := Flown(sky, Begin(id, query, limit), x);
      && after.now == sky.now
      && (id in after.flights <==> RouteOf(query, x).Normal? && RouteOf(query, x).key !in sky.now.cache)
      && (id in after.flights ==> after.flights[id] == Flight(RouteOf(query, x).key, limit, sky.now.stores))
      && (forall other :: other != id ==> (other in after.flights <==> other in sky.flights))
  {
  }

  /** Whatever other searches and operations do between its steps: a search answers with the trie and the
      indexes as they were when it began, the apps as they were at its first await and the files as they were
      at its second, and stores that answer. */
  lemma AnswerIsMixed(sky: Sky, id: nat, query: string, limit: nat, a: seq<Step>, b: seq<Step>, c: seq<Step>,
                      keep: set<string>, x: Text)
    requires RouteOf(query, x).Normal? && RouteOf(query, x).key !in sky.now.cache
    requires OfOthers(a, id) && OfOthers(b, id) && OfOthers(c, id)
    ensures var q := RouteOf(query, x).key;
      var one := Flew(Flown(sky, Begin(id, query, limit), x), a, x);
      var two := Flew(Flown(one, ReadApps(id), x), b, x);
      var three := Flew(Flown(two, ReadFiles(id), x), c, x);
      var end := Flown(three, Finish(id, keep), x);
      var seen := sky.now.stores.(apps := one.now.stores.apps, files := two.now.stores.files);
      var r := Pipeline(seen, q, limit, x);
      && end.now.stores == three.now.stores && id !in end.flights
      && (r.Err? ==> end.now == three.now)
      && (r.Ok? ==> forall k :: k in end.now.cache <==> k in keep && (k in three.now.cache || k == q))
      && (r.Ok? ==> forall k :: k in end.now.cache ==>
            end.now.cache[k] == if k == q then r.value else three.now.cache[k])
  {
    var begun := Flown(sky, Begin(id, query, limit), x);
    FlightKept(begun, a, id, x);
    var one := Flown(Flew(begun, a, x), ReadApps(id), x);
    FlightKept(one, b, id, x);
    var two := Flown(Flew(one, b, x), ReadFiles(id), x);
    FlightKept(two, c, id, x);
    FinishStores(Flew(two, c, x), id, keep, x);
  }

  lemma EvictedUpdate(cache: map<string, seq<SearchResult>>, key: string, value: seq<SearchResult>, keep: set<string>)
    returns (after: map<string, seq<SearchResult>>)
    ensures after == Evict(cache[key := value], keep)
    ensures forall k :: k in after <==> k in keep && (k in cache || k == key)
    ensures forall k :: k in after ==> after[k] == if k == key then value else cache[k]
  {
    after := Evict(cache[key := value], keep);
  }

  lemma FinishStores(sky: Sky, id: nat, keep: set<string>, x: Text)
    requires id in sky.flights
    ensures var f, end := sky.flights[id], Flown(sky, Finish(id, keep), x);
      var r := Pipeline(f.read, f.key, f.limit, x);
      && end.now.stores == sky.now.stores && id !in end.flights
      && (r.Err? ==> end.now == sky.now)
      && (r.Ok? ==> forall k :: k in end.now.cache <==> k in keep && (k in sky.now.cache || k == f.key))
      && (r.Ok? ==> forall k :: k in end.now.cache ==>
            end.now.cache[k] == if k == f.key then r.value else sky.now.cache[k])
  {
    var f := sky.flights[id];
    var r := Pipeline(f.read, f.key, f.limit, x);
    if r.Ok? {
      var after := EvictedUpdate(sky.now.cache, f.key, r.value, keep);
    }
  }

  // ----- which runs are safe

  predicate ChangesStores(step: Step) {
    step.Whole? && (step.op.DoRebuild? || step.op.DoChangeTrie?)
  }

  predicate ClearsCache(step: Step) {
    step.Whole? && Clears(step.op)
  }

  /** Since the last search of this name began the stores did not change. */
  predicate Current(steps: seq<Step>, id: nat)
    decreases |steps|
  {
    steps != [] &&
    var step := steps[|steps| - 1];
    if step.Begin? && step.id == id then true
    else !ChangesStores(step) && Current(steps[..|steps| - 1], id)
  }

  /** If this step stores an answer for the key, it is one for the limit and from the current stores. */
  ghost predicate StoresCurrent(sky: Sky, front: seq<Step>, step: Step, q: string, limit: nat, x: Text) {
    var flights := Flew(sky, front, x).flights;
    step.Finish? && step.id in flights && flights[step.id].key == q ==>
      flights[step.id].limit == limit && Current(front, step.id)
  }

  /** Since the cache was last cleared the trie did not change, every search for the key used the limit, and
      no search stored an answer for the key that it had begun before the stores last changed. */
  ghost predicate Calm(sky: Sky, steps: seq<Step>, q: string, limit: nat, x: Text)
    decreases |steps|
  {
    steps == [] ||
    var front, step := steps[..|steps| - 1], steps[|steps| - 1];
    || ClearsCache(step)
    || (!ChangesStores(step) && (step.Whole? ==> UsesLimit(step.op, q, limit, x))
        && StoresCurrent(sky, front, step, q, limit, x) && Calm(sky, front, q, limit, x))
  }

  lemma {:induction false} CurrentReads(sky: Sky, steps: seq<Step>, id: nat, x: Text)
    requires Current(steps, id)
    ensures var s := Flew(sky, steps, x); id in s.flights ==> s.flights[id].read == s.now.stores
    decreases |steps|
  {
    var front, step := steps[..|steps| - 1], steps[|steps| - 1];
    if !(step.Begin? && step.id == id) {
      CurrentReads(sky, front, id, x);
    }
  }

  lemma {:induction false} CalmIsSound(sky: Sky, steps: seq<Step>, q: string, limit: nat, x: Text)
    requires EntrySound(sky.now, q, limit, x) && Calm(sky, steps, q, limit, x)
    ensures EntrySound(Flew(sky, steps, x).now, q, limit, x)
    decreases |steps|
  {
    if steps != [] {
      var front, step := steps[..|steps| - 1], steps[|steps| - 1];
      var before := Flew(sky, front, x);
      if !ClearsCache(step) { CalmIsSound(sky, front, q, limit, x); }
      if step.Whole? {
        StepKeepsEntry(before.now, step.op, q, limit, x);
      } else if step.Finish? && step.id in before.flights && before.flights[step.id].key == q {
        CurrentReads(sky, front, step.id, x);
      }
    }
  }

  /** After any interleaving of searches, rebuilds, invalidations, trie changes and evictions that is calm for
      its key, a query answers as without a cache. Searches that were already under way at the start, and
      those that were dropped, are included. */
  lemma OverlapNeverShows(sky: Sky, steps: seq<Step>, query: string, limit: nat, x: Text)
    requires RouteOf(query, x).Normal? ==>
      EntrySound(sky.now, RouteOf(query, x).key, limit, x) && Calm(sky, steps, RouteOf(query, x).key, limit, x)
    ensures var now := Flew(sky, steps, x).now; Lookup(now, query, limit, x) == Answer(now.stores, query, limit, x)
  {
    if RouteOf(query, x).Normal? {
      CalmIsSound(sky, steps, RouteOf(query, x).key, limit, x);
    }
  }

  // ----- a rebuild while a search is under way

  /** After a rebuild and the end of the search, the query is answered from the new stores. */
  ghost predicate SeesRebuild(sky: Sky, id: nat, after: Stores, query: string, limit: nat, x: Text)
    requires RouteOf(query, x).Normal?
  {
    var rebuilt := Flown(sky, Whole(DoRebuild(after)), x);
    var now := Flown(rebuilt, Finish(id, {RouteOf(query, x).key}), x).now;
    Lookup(now, query, limit, x) == Answer(after, query, limit, x)
  }

  /** The rebuilt engine answers with what the search under way has found. */
  lemma LateAnswerStays(sky: Sky, id: nat, after: Stores, query: string, limit: nat, x: Text)
    requires RouteOf(query, x).Normal? && id in sky.flights && sky.flights[id].key == RouteOf(query, x).key
    requires Pipeline(sky.flights[id].read, sky.flights[id].key, sky.flights[id].limit, x).Ok?
    ensures var rebuilt := Flown(sky, Whole(DoRebuild(after)), x);
      var now := Flown(rebuilt, Finish(id, {RouteOf(query, x).key}), x).now;
      Lookup(now, query, limit, x) == Pipeline(sky.flights[id].read, sky.flights[id].key, sky.flights[id].limit, x)
  {
  }

  /** Clearing the cache in `rebuild` does not reach a search under way: every rebuild is seen exactly when no
      search for the key is, or when the one that is fails. */
  lemma RebuildSeenIff(sky: Sky, id: nat, query: string, limit: nat, x: Text)
    requires RouteOf(query, x).Normal?
    ensures (forall after :: SeesRebuild(sky, id, after, query, limit, x)) <==>
      !(id in sky.flights && sky.flights[id].key == RouteOf(query, x).key
        && Pipeline(sky.flights[id].read, sky.flights[id].key, sky.flights[id].limit, x).Ok?)
  {
    var q := RouteOf(query, x).key;
    if id in sky.flights && sky.flights[id].key == q
      && Pipeline(sky.flights[id].read, q, sky.flights[id].limit, x).Ok? {
      LateAnswerStays(sky, id, Failing(), query, limit, x);
      FailingStores(q, limit, x);
      assert !SeesRebuild(sky, id, Failing(), query, limit, x);
    }
  }

  /** A run that shows it: the search begins, a file is indexed, the search ends; from then on the file is not
      found. */
  lemma RebuildIsForgotten(query: string, limit: nat, x: Text)
    requires RouteOf(query, x).Normal? && limit > 0
    ensures var empty := Sky(State(Listing(0), map[]), map[]);
      var begun := Flown(empty, Begin(0, query, limit), x);
      var rebuilt := Flown(begun, Whole(DoRebuild(Listing(1))), x);
      var now := Flown(rebuilt, Finish(0, {RouteOf(query, x).key}), x).now;
      && Lookup(now, query, limit, x) == Ok([])
      && Answer(now.stores, query, limit, x).Ok? && |Answer(now.stores, query, limit, x).value| == 1
  {
    var q := RouteOf(query, x).key;
    ListingAnswers(Listing(0), 0, q, limit, x);
    ListingAnswers(Listing(1), 1, q, limit, x);
  }
}
