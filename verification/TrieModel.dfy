/** The frequency trie of trie.rs as a value, and the map it stands for.

    `Trie.dfy` proves the in-place program equal to `InsertT`, `RemoveT` and `Lookup`; this module
    proves what those mean. A tree stands for the map that `Lookup` reads off it. */
module TrieModel {
  import opened Sequences
  import opened Wrappers

  /** How often a key is stored, and the value it was first stored with. */
  datatype Entry = Entry(count: nat, value: string)

  datatype Tree = Node(kids: seq<(char, Tree)>, isEnd: bool, frequency: nat, value: Option<string>)

  const EMPTY_TREE := Node([], false, 0, None)

  // ----- children kept sorted by character

  /** Where `c` is, or would be inserted. */
  function Find<T>(kids: seq<(char, T)>, c: char): (i: nat)
    ensures i <= |kids|
    ensures forall j :: 0 <= j < i ==> kids[j].0 < c
    ensures i < |kids| ==> c <= kids[i].0
  {
    if kids == [] || c <= kids[0].0 then 0 else 1 + Find(kids[1..], c)
  }

  predicate Has<T>(kids: seq<(char, T)>, c: char) {
    Find(kids, c) < |kids| && kids[Find(kids, c)].0 == c
  }

  function Child<T>(kids: seq<(char, T)>, c: char): Option<T> {
    if Has(kids, c) then Some(kids[Find(kids, c)].1) else None
  }

  function Put<T>(kids: seq<(char, T)>, c: char, x: T): seq<(char, T)> {
    var i := Find(kids, c);
    if Has(kids, c) then kids[i := (c, x)] else kids[..i] + [(c, x)] + kids[i..]
  }

  function Drop<T>(kids: seq<(char, T)>, c: char): seq<(char, T)> {
    var i := Find(kids, c);
    if Has(kids, c) then kids[..i] + kids[i + 1..] else kids
  }

  ghost predicate Sorted<T>(kids: seq<(char, T)>) {
    forall i, j :: 0 <= i < j < |kids| ==> kids[i].0 < kids[j].0
  }

  /** In a sorted list any position with the right characters around it is the one `Find` gives. */
  lemma FindUnique<T>(kids: seq<(char, T)>, c: char, i: nat)
    requires Sorted(kids) && i <= |kids|
    requires i > 0 ==> kids[i - 1].0 < c
    requires i < |kids| ==> c <= kids[i].0
    ensures Find(kids, c) == i
  {
  }

  lemma FindAt<T>(kids: seq<(char, T)>, i: nat)
    requires Sorted(kids) && i < |kids|
    ensures Find(kids, kids[i].0) == i && Child(kids, kids[i].0) == Some(kids[i].1)
  {
    FindUnique(kids, kids[i].0, i);
  }

  lemma AbsentChild<T>(kids: seq<(char, T)>, c: char)
    ensures Child(kids, c).None? <== forall j :: 0 <= j < |kids| ==> kids[j].0 != c
    ensures Sorted(kids) && Child(kids, c).None? ==> forall j :: 0 <= j < |kids| ==> kids[j].0 != c
  {
    if Sorted(kids) && Child(kids, c).None? {
      forall j | 0 <= j < |kids| ensures kids[j].0 != c {
        FindAt(kids, j);
      }
    }
  }

  lemma PutSorted<T>(kids: seq<(char, T)>, c: char, x: T)
    requires Sorted(kids)
    ensures Sorted(Put(kids, c, x))
  {
    var i, out := Find(kids, c), Put(kids, c, x);
    if !Has(kids, c) {
      forall j, k | 0 <= j < k < |out| ensures out[j].0 < out[k].0 {
        assert out[j] == if j < i then kids[j] else if j == i then (c, x) else kids[j - 1];
        assert out[k] == if k < i then kids[k] else if k == i then (c, x) else kids[k - 1];
      }
    }
  }

  lemma PutMember<T>(kids: seq<(char, T)>, c: char, x: T, y: (char, T))
    requires y in Put(kids, c, x)
    ensures y == (c, x) || y in kids
  {
  }

  lemma PutChild<T>(kids: seq<(char, T)>, c: char, x: T, d: char)
    requires Sorted(kids)
    ensures Sorted(Put(kids, c, x))
    ensures Child(Put(kids, c, x), d) == if d == c then Some(x) else Child(kids, d)
  {
    PutSorted(kids, c, x);
    var i, k, out := Find(kids, c), Find(kids, d), Put(kids, c, x);
    if d == c {
      assert out[i] == (c, x);
      FindAt(out, i);
    } else if Has(kids, d) {
      var k' := if Has(kids, c) || k < i then k else k + 1;
      assert out[k'] == kids[k];
      FindAt(out, k');
    } else {
      AbsentChild(kids, d);
      AbsentChild(out, d);
    }
  }

  lemma DropSorted<T>(kids: seq<(char, T)>, c: char)
    requires Sorted(kids)
    ensures Sorted(Drop(kids, c))
  {
    var i, out := Find(kids, c), Drop(kids, c);
    if Has(kids, c) {
      forall j, k | 0 <= j < k < |out| ensures out[j].0 < out[k].0 {
        assert out[j] == if j < i then kids[j] else kids[j + 1];
        assert out[k] == if k < i then kids[k] else kids[k + 1];
      }
    }
  }

  lemma DropChild<T>(kids: seq<(char, T)>, c: char, d: char)
    requires Sorted(kids)
    ensures Sorted(Drop(kids, c))
    ensures Child(Drop(kids, c), d) == if d == c then None else Child(kids, d)
  {
    DropSorted(kids, c);
    AbsentChild(kids, c);
    var i, k, out := Find(kids, c), Find(kids, d), Drop(kids, c);
    if d != c && Has(kids, d) {
      var k' := if !Has(kids, c) || k < i then k else k - 1;
      assert out[k'] == kids[k];
      FindAt(out, k');
    } else if Has(kids, c) {
      forall j | 0 <= j < |out| ensures out[j].0 != d {
        assert out[j] == if j < i then kids[j] else kids[j + 1];
        AbsentChild(kids, d);
      }
      AbsentChild(out, d);
    }
  }

  /** A sorted list is determined by what it answers for every character. */
  lemma {:induction false} KidsUnique<T(!new)>(p: seq<(char, T)>, q: seq<(char, T)>)
    requires Sorted(p) && Sorted(q)
    requires forall c :: Child(p, c) == Child(q, c)
    ensures p == q
  {
    if p == [] || q == [] {
      if p != [] { FindAt(p, 0); }
      if q != [] { FindAt(q, 0); }
    } else {
      FindAt(p, 0);
      FindAt(q, 0);
      var c, d := p[0].0, q[0].0;
      assert Child(q, c).Some? && Child(p, d).Some?;
      assert p[0] == q[0];
      forall e ensures Child(p[1..], e) == Child(q[1..], e) {
        TailChild(p, e);
        TailChild(q, e);
      }
      KidsUnique(p[1..], q[1..]);
    }
  }

  lemma TailChild<T>(kids: seq<(char, T)>, c: char)
    requires Sorted(kids) && kids != []
    ensures Child(kids[1..], c) == if c <= kids[0].0 then None else Child(kids, c)
  {
    var i := Find(kids, c);
    FindUnique(kids[1..], c, if c <= kids[0].0 then 0 else i - 1);
  }

  // ----- operations

  function Lookup(t: Tree, key: string): Option<Entry>
    decreases |key|
  {
    if key == [] then
      (if t.isEnd && t.value.Some? then Some(Entry(t.frequency, t.value.value)) else None)
    else
      var kid := Child(t.kids, key[0]);
      if kid.None? then None else Lookup(kid.value, key[1..])
  }

  function OrEmpty(kid: Option<Tree>): Tree {
    if kid.Some? then kid.value else EMPTY_TREE
  }

  /** One occurrence more at the node itself. */
  function Mark(t: Tree, value: string): Tree {
    if t.isEnd then t.(frequency := t.frequency + 1)
    else t.(isEnd := true, frequency := 1, value := Some(value))
  }

  function InsertT(t: Tree, key: string, value: string): Tree
    decreases |key|
  {
    if key == [] then Mark(t, value)
    else t.(kids := Put(t.kids, key[0], InsertT(OrEmpty(Child(t.kids, key[0])), key[1..], value)))
  }

  datatype Removed = Removed(tree: Tree, existed: bool, fullyRemoved: bool)

  predicate Dead(t: Tree) { t.kids == [] && !t.isEnd }

  function RemoveT(t: Tree, key: string): Removed
    decreases |key|
  {
    if key == [] then
      if !t.isEnd then Removed(t, false, false)
      else if t.frequency <= 1 then Removed(t.(frequency := 0, isEnd := false, value := None), true, true)
      else Removed(t.(frequency := t.frequency - 1), true, false)
    else
      var kid := Child(t.kids, key[0]);
      if kid.None? then Removed(t, false, false)
      else
        var r := RemoveT(kid.value, key[1..]);
        var kids := if r.existed && Dead(r.tree) then Drop(t.kids, key[0]) else Put(t.kids, key[0], r.tree);
        Removed(t.(kids := kids), r.existed, r.fullyRemoved)
  }

  // ----- the canonical form every reachable trie has

  ghost predicate Canonical(t: Tree)
    decreases t
  {
    && Sorted(t.kids)
    && (t.isEnd <==> t.value.Some?) && (t.isEnd <==> t.frequency > 0)
    && forall i :: 0 <= i < |t.kids| ==> Canonical(t.kids[i].1) && !Dead(t.kids[i].1)
  }

  lemma ChildCanonical(t: Tree, c: char)
    requires Canonical(t)
    ensures Canonical(OrEmpty(Child(t.kids, c)))
    ensures Child(t.kids, c).Some? ==> !Dead(Child(t.kids, c).value)
  {
  }

  /** Writing a living canonical child keeps the form. */
  lemma PutCanonical(t: Tree, c: char, sub: Tree)
    requires Canonical(t) && Canonical(sub) && !Dead(sub)
    ensures Canonical(t.(kids := Put(t.kids, c, sub)))
  {
    PutSorted(t.kids, c, sub);
    forall x | x in Put(t.kids, c, sub) ensures x == (c, sub) || x in t.kids {
      PutMember(t.kids, c, sub, x);
    }
    var out := Put(t.kids, c, sub);
    forall j | 0 <= j < |out| ensures Canonical(out[j].1) && !Dead(out[j].1) {
      assert out[j] in out;
    }
  }

  lemma DropCanonical(t: Tree, c: char)
    requires Canonical(t)
    ensures Canonical(t.(kids := Drop(t.kids, c)))
  {
    DropSorted(t.kids, c);
    var i, out := Find(t.kids, c), Drop(t.kids, c);
    forall j | 0 <= j < |out| ensures Canonical(out[j].1) && !Dead(out[j].1) {
      assert out[j] == if j < i || !Has(t.kids, c) then t.kids[j] else t.kids[j + 1];
    }
  }

  lemma {:induction false} InsertCanonical(t: Tree, key: string, value: string)
    requires Canonical(t)
    ensures Canonical(InsertT(t, key, value)) && !Dead(InsertT(t, key, value))
    decreases |key|
  {
    if key != [] {
      ChildCanonical(t, key[0]);
      var sub := OrEmpty(Child(t.kids, key[0]));
      InsertCanonical(sub, key[1..], value);
      PutCanonical(t, key[0], InsertT(sub, key[1..], value));
      assert Put(t.kids, key[0], InsertT(sub, key[1..], value)) != [];
    }
  }

  lemma {:induction false} RemoveCanonical(t: Tree, key: string)
    requires Canonical(t)
    ensures Canonical(RemoveT(t, key).tree)
    ensures !RemoveT(t, key).existed ==> RemoveT(t, key).tree == t
    ensures RemoveT(t, key).existed <==> Lookup(t, key).Some?
    decreases |key|
  {
    if key != [] && Child(t.kids, key[0]).Some? {
      ChildCanonical(t, key[0]);
      var sub := Child(t.kids, key[0]).value;
      var r := RemoveT(sub, key[1..]);
      RemoveCanonical(sub, key[1..]);
      if r.existed && Dead(r.tree) {
        DropCanonical(t, key[0]);
      } else {
        PutCanonical(t, key[0], r.tree);
        assert Put(t.kids, key[0], sub) == t.kids;
      }
    }
  }

  // ----- refinement: one key changes, every other key keeps its entry

  /** The map entry after one more insertion: the count grows, the first value stays. */
  function Bump(e: Option<Entry>, value: string): Entry {
    if e.Some? then Entry(e.value.count + 1, e.value.value) else Entry(1, value)
  }

  /** The map entry after one removal. */
  function Unbump(e: Option<Entry>): Option<Entry> {
    if e.Some? && e.value.count > 1 then Some(Entry(e.value.count - 1, e.value.value)) else None
  }

  lemma LookupPut(t: Tree, c: char, x: Tree, q: string)
    requires Canonical(t) && q != []
    ensures Lookup(t.(kids := Put(t.kids, c, x)), q) == if q[0] == c then Lookup(x, q[1..]) else Lookup(t, q)
  {
    PutChild(t.kids, c, x, q[0]);
  }

  lemma LookupDrop(t: Tree, c: char, q: string)
    requires Canonical(t) && q != []
    ensures Lookup(t.(kids := Drop(t.kids, c)), q) == if q[0] == c then None else Lookup(t, q)
  {
    DropChild(t.kids, c, q[0]);
  }

  lemma {:induction false} LookupInsert(t: Tree, key: string, value: string, q: string)
    requires Canonical(t)
    ensures Lookup(InsertT(t, key, value), q)
         == if q == key then Some(Bump(Lookup(t, key), value)) else Lookup(t, q)
    decreases |key|
  {
    if key != [] {
      ChildCanonical(t, key[0]);
      var sub := OrEmpty(Child(t.kids, key[0]));
      if q != [] {
        LookupPut(t, key[0], InsertT(sub, key[1..], value), q);
        LookupInsert(sub, key[1..], value, q[1..]);
        SameByParts(q, key);
      }
    }
  }

  lemma {:induction false} LookupDead(t: Tree, q: string)
    requires Dead(t)
    ensures Lookup(t, q) == None
  {
  }

  /** What a removal below one child leaves to be found: pruning a dead child hides nothing. */
  lemma LookupAfterRemoval(t: Tree, c: char, r: Removed, q: string)
    requires Canonical(t) && q != []
    ensures var u := if r.existed && Dead(r.tree) then t.(kids := Drop(t.kids, c))
                     else t.(kids := Put(t.kids, c, r.tree));
      Lookup(u, q) == if q[0] == c then Lookup(r.tree, q[1..]) else Lookup(t, q)
  {
    if r.existed && Dead(r.tree) {
      LookupDrop(t, c, q);
      LookupDead(r.tree, q[1..]);
    } else {
      LookupPut(t, c, r.tree, q);
    }
  }

  lemma {:induction false} LookupRemove(t: Tree, key: string, q: string)
    requires Canonical(t)
    ensures Lookup(RemoveT(t, key).tree, q) == if q == key then Unbump(Lookup(t, key)) else Lookup(t, q)
    decreases |key|
  {
    if key != [] && Child(t.kids, key[0]).Some? && q != [] {
      ChildCanonical(t, key[0]);
      var sub := Child(t.kids, key[0]).value;
      LookupRemove(sub, key[1..], q[1..]);
      SameByParts(q, key);
      LookupAfterRemoval(t, key[0], RemoveT(sub, key[1..]), q);
    }
  }

  lemma {:induction false} FullyRemoved(t: Tree, key: string)
    requires Canonical(t)
    ensures RemoveT(t, key).fullyRemoved <==> Lookup(t, key).Some? && Lookup(t, key).value.count == 1
    decreases |key|
  {
    if key != [] && Child(t.kids, key[0]).Some? {
      ChildCanonical(t, key[0]);
      FullyRemoved(Child(t.kids, key[0]).value, key[1..]);
    }
  }

  // ----- canonical: the map determines the tree

  /** A live canonical tree stores at least one key. */
  lemma {:induction false} SomeKey(t: Tree) returns (key: string)
    requires Canonical(t) && !Dead(t)
    ensures Lookup(t, key).Some?
    decreases t
  {
    if t.isEnd {
      key := [];
    } else {
      var rest := SomeKey(t.kids[0].1);
      FindAt(t.kids, 0);
      key := [t.kids[0].0] + rest;
      assert key[1..] == rest;
    }
  }

  ghost predicate SameMap(t: Tree, u: Tree) {
    forall key :: Lookup(t, key) == Lookup(u, key)
  }

  /** Below its first character a key is looked up in the child. */
  lemma LookupCons(t: Tree, c: char, key: string)
    ensures Lookup(t, [c] + key) == if Child(t.kids, c).None? then None else Lookup(Child(t.kids, c).value, key)
  {
    assert ([c] + key)[1..] == key;
  }

  lemma ChildInBoth(t: Tree, u: Tree, c: char)
    requires Canonical(t) && SameMap(t, u) && Child(t.kids, c).Some?
    ensures Child(u.kids, c).Some?
  {
    ChildCanonical(t, c);
    var k := SomeKey(Child(t.kids, c).value);
    LookupCons(t, c, k);
    LookupCons(u, c, k);
    assert Lookup(t, [c] + k) == Lookup(u, [c] + k);
  }

  lemma ChildSameMap(t: Tree, u: Tree, c: char)
    requires Canonical(t) && Canonical(u) && SameMap(t, u)
    ensures Child(t.kids, c).Some? <==> Child(u.kids, c).Some?
    ensures Child(t.kids, c).Some? ==> SameMap(Child(t.kids, c).value, Child(u.kids, c).value)
  {
    if Child(t.kids, c).Some? { ChildInBoth(t, u, c); }
    if Child(u.kids, c).Some? { ChildInBoth(u, t, c); }
    if Child(t.kids, c).Some? {
      forall k ensures Lookup(Child(t.kids, c).value, k) == Lookup(Child(u.kids, c).value, k) {
        LookupCons(t, c, k);
        LookupCons(u, c, k);
        assert Lookup(t, [c] + k) == Lookup(u, [c] + k);
      }
    }
  }

  /** Two canonical tries that store the same map have the same shape. */
  lemma {:induction false} CanonicalUnique(t: Tree, u: Tree)
    requires Canonical(t) && Canonical(u) && SameMap(t, u)
    ensures t == u
    decreases t
  {
    assert Lookup(t, []) == Lookup(u, []);
    forall c ensures Child(t.kids, c) == Child(u.kids, c) {
      ChildSameMap(t, u, c);
      ChildCanonical(t, c);
      ChildCanonical(u, c);
      if Child(t.kids, c).Some? {
        CanonicalUnique(Child(t.kids, c).value, Child(u.kids, c).value);
      }
    }
    KidsUnique(t.kids, u.kids);
  }

  /** Removing what was just inserted leaves no trace, not even in the shape. */
  lemma InsertThenRemove(t: Tree, key: string, value: string)
    requires Canonical(t)
    ensures RemoveT(InsertT(t, key, value), key).tree == t
  {
    var u := InsertT(t, key, value);
    InsertCanonical(t, key, value);
    RemoveCanonical(u, key);
    forall q ensures Lookup(RemoveT(u, key).tree, q) == Lookup(t, q) {
      LookupRemove(u, key, q);
      LookupInsert(t, key, value, q);
      LookupInsert(t, key, value, key);
      CountPositive(t, key);
    }
    CanonicalUnique(RemoveT(u, key).tree, t);
  }

  lemma {:induction false} CountPositive(t: Tree, key: string)
    requires Canonical(t)
    ensures Lookup(t, key).Some? ==> Lookup(t, key).value.count > 0
    decreases |key|
  {
    if key != [] && Child(t.kids, key[0]).Some? {
      ChildCanonical(t, key[0]);
      CountPositive(Child(t.kids, key[0]).value, key[1..]);
    }
  }
}
