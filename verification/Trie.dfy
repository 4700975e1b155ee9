/** The in-place trie of trie.rs. Nodes are objects that are updated where they stand; a ghost
    `Shape` records which object hangs where, and `Abs` reads the tree off the heap. */
module TrieProgram {
  import opened Sequences
  import opened Sorting
  import opened Wrappers
  import opened TrieModel
  import opened TrieSearch

  class TrieNode {
    var children: seq<(char, TrieNode)>
    var isEnd: bool
    var frequency: nat
    var value: Option<string>

    constructor ()
      ensures children == [] && !isEnd && frequency == 0 && value == None
    {
      children, isEnd, frequency, value := [], false, 0, None;
    }
  }

  datatype Shape = Shape(obj: TrieNode, kids: seq<Shape>)

  ghost function Objs(g: Shape): set<TrieNode>
    decreases g
  {
    {g.obj} + set i, o | 0 <= i < |g.kids| && o in Objs(g.kids[i]) :: o
  }

  ghost predicate Apart(kids: seq<Shape>) {
    forall i, j :: 0 <= i < j < |kids| ==> Objs(kids[i]) !! Objs(kids[j])
  }

  /** The heap below `g.obj` is the tree of distinct objects that `g` describes. */
  ghost predicate Rep(g: Shape)
    reads Objs(g)
    decreases g
  {
    && |g.obj.children| == |g.kids|
    && (forall i :: 0 <= i < |g.kids| ==>
          g.obj.children[i].1 == g.kids[i].obj && g.obj !in Objs(g.kids[i]) && Rep(g.kids[i]))
    && Apart(g.kids)
  }

  ghost function Abs(g: Shape): Tree
    requires Rep(g)
    reads Objs(g)
    decreases g
  {
    Node(seq(|g.kids|,
             i requires 0 <= i < |g.kids| reads Objs(g) requires Rep(g) => (g.obj.children[i].0, Abs(g.kids[i]))),
         g.obj.isEnd, g.obj.frequency, g.obj.value)
  }

  // ----- places in a shape

  ghost predicate Place(g: Shape, at: seq<nat>)
    decreases |at|
  {
    at == [] || (at[0] < |g.kids| && Place(g.kids[at[0]], at[1..]))
  }

  ghost function ShapeAt(g: Shape, at: seq<nat>): Shape
    requires Place(g, at)
    decreases |at|
  {
    if at == [] then g else ShapeAt(g.kids[at[0]], at[1..])
  }

  ghost function SetShape(g: Shape, at: seq<nat>, sub: Shape): Shape
    requires Place(g, at)
    decreases |at|
  {
    if at == [] then sub else g.(kids := g.kids[at[0] := SetShape(g.kids[at[0]], at[1..], sub)])
  }

  ghost predicate TreePlace(t: Tree, at: seq<nat>)
    decreases |at|
  {
    at == [] || (at[0] < |t.kids| && TreePlace(t.kids[at[0]].1, at[1..]))
  }

  ghost function TreeAt(t: Tree, at: seq<nat>): Tree
    requires TreePlace(t, at)
    decreases |at|
  {
    if at == [] then t else TreeAt(t.kids[at[0]].1, at[1..])
  }

  ghost function SetTree(t: Tree, at: seq<nat>, sub: Tree): Tree
    requires TreePlace(t, at)
    decreases |at|
  {
    if at == [] then sub
    else t.(kids := t.kids[at[0] := (t.kids[at[0]].0, SetTree(t.kids[at[0]].1, at[1..], sub))])
  }

  lemma {:induction false} PlaceObjs(g: Shape, at: seq<nat>)
    requires Place(g, at)
    ensures Objs(ShapeAt(g, at)) <= Objs(g)
    decreases |at|
  {
    if at != [] { PlaceObjs(g.kids[at[0]], at[1..]); }
  }

  lemma {:induction false} PlaceRep(g: Shape, at: seq<nat>)
    requires Rep(g) && Place(g, at)
    ensures Rep(ShapeAt(g, at)) && TreePlace(Abs(g), at) && TreeAt(Abs(g), at) == Abs(ShapeAt(g, at))
    decreases |at|
  {
    if at != [] { PlaceRep(g.kids[at[0]], at[1..]); }
  }

  lemma {:induction false} SetObjs(g: Shape, at: seq<nat>, sub: Shape)
    requires Place(g, at)
    ensures Objs(SetShape(g, at, sub)) <= Objs(g) + Objs(sub)
    decreases |at|
  {
    if at != [] { SetObjs(g.kids[at[0]], at[1..], sub); }
  }

  /** Changing only the objects below one place changes the tree only at that place. */
  twostate lemma {:induction false} Replace(g: Shape, new at: seq<nat>, new sub: Shape)
    requires forall o :: o in Objs(g) ==> old(allocated(o))
    requires Place(g, at) && old(Rep(g)) && Rep(sub) && sub.obj == ShapeAt(g, at).obj
    requires forall o :: o in Objs(g) && o !in Objs(ShapeAt(g, at)) ==> unchanged(o)
    requires forall o :: o in Objs(sub) && o !in Objs(ShapeAt(g, at)) ==> fresh(o)
    ensures Rep(SetShape(g, at, sub))
    ensures old(TreePlace(Abs(g), at))
    ensures Abs(SetShape(g, at, sub)) == SetTree(old(Abs(g)), at, Abs(sub))
    ensures SetShape(g, at, sub).obj == g.obj
    decreases |at|
  {
    if at != [] {
      var i := at[0];
      var kid := g.kids[i];
      PlaceObjs(kid, at[1..]);
      assert forall o :: o in Objs(kid) ==> o in Objs(g);
      Replace(kid, at[1..], sub);
      var kid' := SetShape(kid, at[1..], sub);
      SetObjs(kid, at[1..], sub);
      ReplaceKid(g, i, kid');
    }
  }

  twostate lemma ReplaceKid(g: Shape, new i: nat, new kid': Shape)
    requires forall o :: o in Objs(g) ==> old(allocated(o))
    requires i < |g.kids| && old(Rep(g)) && Rep(kid') && kid'.obj == g.kids[i].obj
    requires forall o :: o in Objs(g) && o !in Objs(g.kids[i]) ==> unchanged(o)
    requires forall o :: o in Objs(kid') && o !in Objs(g.kids[i]) ==> fresh(o)
    ensures Rep(g.(kids := g.kids[i := kid']))
    ensures Abs(g.(kids := g.kids[i := kid']))
         == old(Abs(g)).(kids := old(Abs(g)).kids[i := (old(Abs(g)).kids[i].0, Abs(kid'))])
  {
    var h := g.(kids := g.kids[i := kid']);
    forall j | 0 <= j < |g.kids| && j != i
      ensures Rep(g.kids[j]) && Abs(g.kids[j]) == old(Abs(g.kids[j])) && Objs(g.kids[j]) !! Objs(kid')
    {
      assert Objs(g.kids[j]) !! Objs(g.kids[i]);
      forall o | o in Objs(g.kids[j]) ensures old(allocated(o)) && unchanged(o) && o !in Objs(kid') {
        assert o in Objs(g);
      }
    }
    assert unchanged(g.obj);
    assert Rep(h);
    assert Abs(h).kids == old(Abs(g)).kids[i := (old(Abs(g)).kids[i].0, Abs(kid'))];
  }

  lemma {:induction false} SetSame(t: Tree, at: seq<nat>)
    requires TreePlace(t, at)
    ensures SetTree(t, at, TreeAt(t, at)) == t
    decreases |at|
  {
    if at != [] { SetSame(t.kids[at[0]].1, at[1..]); }
  }

  lemma {:induction false} PlaceStep(g: Shape, at: seq<nat>, i: nat)
    requires Place(g, at) && i < |ShapeAt(g, at).kids|
    ensures Place(g, at + [i]) && ShapeAt(g, at + [i]) == ShapeAt(g, at).kids[i]
    decreases |at|
  {
    if at == [] {
      assert at + [i] == [i] && [i][1..] == [];
    } else {
      assert (at + [i])[1..] == at[1..] + [i];
      PlaceStep(g.kids[at[0]], at[1..], i);
    }
  }

  lemma {:induction false} PlaceSet(g: Shape, at: seq<nat>, sub: Shape)
    requires Place(g, at)
    ensures Place(SetShape(g, at, sub), at) && ShapeAt(SetShape(g, at, sub), at) == sub
    decreases |at|
  {
    if at != [] { PlaceSet(g.kids[at[0]], at[1..], sub); }
  }

  /** The node `s.obj` got a fresh empty child for `c` at index `i`, and nothing else changed. */
  twostate predicate GotKid(s: Shape, new i: nat, new c: char, new kid: TrieNode)
    reads Objs(s), kid
  {
    && old(Rep(s)) && i == old(Find(s.obj.children, c)) && !old(Has(s.obj.children, c))
    && (forall o :: o in Objs(s) ==> old(allocated(o)))
    && (forall o :: o in Objs(s) && o != s.obj ==> unchanged(o))
    && i <= |s.kids|
    && s.obj.children == InsertAt(old(s.obj.children), i, (c, kid))
    && s.obj.isEnd == old(s.obj.isEnd) && s.obj.frequency == old(s.obj.frequency) && s.obj.value == old(s.obj.value)
    && fresh(kid) && kid.children == [] && !kid.isEnd && kid.frequency == 0 && kid.value == None
  }

  /** Other kids bring no other objects than their own. */
  lemma OtherKids(g: Shape, kids: seq<Shape>, more: set<TrieNode>)
    requires forall i :: 0 <= i < |kids| ==> Objs(kids[i]) <= Objs(g) + more
    ensures Objs(g.(kids := kids)) <= Objs(g) + more
  {
  }

  lemma InsertedObjs(s: Shape, i: nat, kid: TrieNode)
    requires i <= |s.kids|
    ensures Objs(s.(kids := InsertAt(s.kids, i, Shape(kid, [])))) <= Objs(s) + {kid}
  {
    var leaf := Shape(kid, []);
    InsertedAt(s.kids, i, leaf);
    var kids := InsertAt(s.kids, i, leaf);
    forall j | 0 <= j < |kids| ensures Objs(kids[j]) <= Objs(s) + {kid} {
      if j == i { assert Objs(leaf) == {kid}; }
    }
    OtherKids(s, kids, {kid});
  }

  twostate lemma NewKidRep(s: Shape, new i: nat, new c: char, new kid: TrieNode)
    requires GotKid(s, i, c, kid)
    ensures Rep(s.(kids := InsertAt(s.kids, i, Shape(kid, []))))
  {
    var leaf := Shape(kid, []);
    assert Objs(leaf) == {kid} && Rep(leaf);
    KidsKept(s);
    forall j | 0 <= j < |s.kids| ensures kid !in Objs(s.kids[j]) && s.obj !in Objs(s.kids[j]) {
      assert forall o :: o in Objs(s.kids[j]) ==> o in Objs(s);
      assert old(s.obj.children[j].1) == s.kids[j].obj;
    }
    ApartInsert(s.kids, i, leaf);
    var kids := InsertAt(s.kids, i, leaf);
    forall j | 0 <= j < |kids|
      ensures s.obj.children[j].1 == kids[j].obj && s.obj !in Objs(kids[j]) && Rep(kids[j])
    {
      InsertedAt(s.kids, i, leaf);
      InsertedAt(old(s.obj.children), i, (c, kid));
    }
  }

  twostate lemma NewKidAbs(s: Shape, new i: nat, new c: char, new kid: TrieNode)
    requires GotKid(s, i, c, kid) && Rep(s.(kids := InsertAt(s.kids, i, Shape(kid, []))))
    ensures Abs(s.(kids := InsertAt(s.kids, i, Shape(kid, [])))) == Ensured(old(Abs(s)), c)
  {
    var leaf := Shape(kid, []);
    var s' := s.(kids := InsertAt(s.kids, i, leaf));
    var before := old(Abs(s));
    FindSame(old(s.obj.children), before.kids, c);
    assert Abs(leaf) == EMPTY_TREE;
    var kids := InsertAt(before.kids, i, (c, EMPTY_TREE));
    assert |Abs(s').kids| == |kids|;
    forall j | 0 <= j <= |s.kids| ensures Abs(s').kids[j] == kids[j] {
      NewKidAbsAt(s, i, c, kid, j);
    }
    assert Abs(s').kids == kids;
  }

  twostate lemma NewKidAbsAt(s: Shape, new i: nat, new c: char, new kid: TrieNode, new j: nat)
    requires GotKid(s, i, c, kid) && Rep(s.(kids := InsertAt(s.kids, i, Shape(kid, [])))) && j <= |s.kids|
    ensures |Abs(s.(kids := InsertAt(s.kids, i, Shape(kid, [])))).kids| == |s.kids| + 1
    ensures Abs(s.(kids := InsertAt(s.kids, i, Shape(kid, [])))).kids[j]
         == InsertAt(old(Abs(s)).kids, i, (c, EMPTY_TREE))[j]
  {
    var leaf := Shape(kid, []);
    assert Abs(leaf) == EMPTY_TREE;
    KidsKept(s);
    InsertedAt(s.kids, i, leaf);
    InsertedAt(s.obj.children, i, (c, kid));
    InsertedAt(old(s.obj.children), i, (c, kid));
    InsertedAt(old(Abs(s)).kids, i, (c, EMPTY_TREE));
  }

  twostate lemma {:induction false} PlaceRepBefore(g: Shape, new at: seq<nat>)
    requires old(Rep(g)) && Place(g, at)
    ensures old(Rep(ShapeAt(g, at))) && old(TreePlace(Abs(g), at))
    ensures old(TreeAt(Abs(g), at)) == old(Abs(ShapeAt(g, at)))
    decreases |at|
  {
    if at != [] { PlaceRepBefore(g.kids[at[0]], at[1..]); }
  }

  /** The same seen from the root. */
  twostate lemma NewKidAt(g: Shape, new at: seq<nat>, new i: nat, new c: char, new kid: TrieNode) returns (g': Shape)
    requires old(Rep(g)) && Place(g, at) && GotKid(ShapeAt(g, at), i, c, kid)
    requires forall o :: o in Objs(g) ==> old(allocated(o))
    requires forall o :: o in Objs(g) && o !in Objs(ShapeAt(g, at)) ==> unchanged(o)
    ensures Rep(g') && g'.obj == g.obj && Place(g', at + [i]) && ShapeAt(g', at + [i]).obj == kid
    ensures forall o :: o in Objs(g') ==> o in Objs(g) || o == kid
    ensures old(TreePlace(Abs(g), at))
    ensures Abs(g') == old(SetTree(Abs(g), at, Ensured(TreeAt(Abs(g), at), c)))
  {
    var s := ShapeAt(g, at);
    var s' := s.(kids := InsertAt(s.kids, i, Shape(kid, [])));
    NewKidRep(s, i, c, kid);
    InsertedObjs(s, i, kid);
    NewKidAbs(s, i, c, kid);
    PlaceRepBefore(g, at);
    Replace(g, at, s');
    g' := SetShape(g, at, s');
    SetObjs(g, at, s');
    PlaceSet(g, at, s');
    PlaceStep(g', at, i);
    PlaceObjs(g, at);
  }

  function InsertAt<T>(s: seq<T>, i: nat, x: T): seq<T>
    requires i <= |s|
  {
    s[..i] + [x] + s[i..]
  }

  lemma InsertedAt<T>(s: seq<T>, i: nat, x: T)
    requires i <= |s|
    ensures |InsertAt(s, i, x)| == |s| + 1
    ensures forall j :: 0 <= j <= |s| ==> InsertAt(s, i, x)[j] == if j < i then s[j] else if j == i then x else s[j - 1]
  {
  }

  lemma ApartInsert(kids: seq<Shape>, i: nat, leaf: Shape)
    requires i <= |kids| && Apart(kids) && forall j :: 0 <= j < |kids| ==> Objs(kids[j]) !! Objs(leaf)
    ensures Apart(InsertAt(kids, i, leaf))
  {
    InsertedAt(kids, i, leaf);
    var all := InsertAt(kids, i, leaf);
    forall j, k | 0 <= j < k < |all| ensures Objs(all[j]) !! Objs(all[k]) {
      assert all[j] == if j < i then kids[j] else if j == i then leaf else kids[j - 1];
      assert all[k] == if k < i then kids[k] else if k == i then leaf else kids[k - 1];
    }
  }

  /** Changing only the node itself leaves what hangs below it. */
  twostate lemma KidsKept(s: Shape)
    requires old(Rep(s))
    requires forall o :: o in Objs(s) ==> old(allocated(o))
    requires forall o :: o in Objs(s) && o != s.obj ==> unchanged(o)
    ensures forall j :: 0 <= j < |s.kids| ==> Rep(s.kids[j]) && Abs(s.kids[j]) == old(Abs(s.kids[j]))
  {
    forall j | 0 <= j < |s.kids| ensures Rep(s.kids[j]) && Abs(s.kids[j]) == old(Abs(s.kids[j])) {
      forall o | o in Objs(s.kids[j]) ensures old(allocated(o)) && unchanged(o) {
        assert o in Objs(s);
      }
    }
  }

  // ----- one step down, on trees

  /** The children with an empty one for `c` when there was none. */
  function Ensured(t: Tree, c: char): Tree {
    if Has(t.kids, c) then t else t.(kids := Put(t.kids, c, EMPTY_TREE))
  }

  lemma FindAfterEnsure(t: Tree, c: char)
    ensures var i := Find(t.kids, c); var u := Ensured(t, c);
      i < |u.kids| && Find(u.kids, c) == i && u.kids[i] == (c, OrEmpty(Child(t.kids, c)))
  {
    if !Has(t.kids, c) {
      PutFind(t.kids, c, EMPTY_TREE);
    }
  }

  lemma PutTail<T>(kids: seq<(char, T)>, c: char, x: T)
    requires kids != [] && kids[0].0 < c
    ensures Put(kids, c, x) == [kids[0]] + Put(kids[1..], c, x)
  {
    var i, rest := Find(kids[1..], c), kids[1..];
    assert Find(kids, c) == i + 1 && Has(kids, c) == Has(rest, c);
    assert kids == [kids[0]] + rest;
    if !Has(kids, c) {
      assert kids[..i + 1] == [kids[0]] + rest[..i] && kids[i + 1..] == rest[i..];
    }
  }

  lemma {:induction false} PutFind<T>(kids: seq<(char, T)>, c: char, x: T)
    ensures Find(Put(kids, c, x), c) == Find(kids, c)
  {
    if kids != [] && kids[0].0 < c {
      var rest := kids[1..];
      PutFind(rest, c, x);
      assert Find(kids, c) == 1 + Find(rest, c) && Has(kids, c) == Has(rest, c);
      PutTail(kids, c, x);
      var out := [kids[0]] + Put(rest, c, x);
      assert out[1..] == Put(rest, c, x);
    }
  }

  /** Inserting below a child that was made first is inserting at once. */
  lemma InsertAfterEnsure(t: Tree, c: char, rest: string, value: string)
    ensures var i := Find(t.kids, c); var u := Ensured(t, c);
      i < |u.kids|
      && InsertT(t, [c] + rest, value) == u.(kids := u.kids[i := (c, InsertT(u.kids[i].1, rest, value))])
  {
    FindAfterEnsure(t, c);
    TailOfSum([c], rest);
    assert [c][1..] + rest == rest;
    PutAfterEnsure(t, c, InsertT(OrEmpty(Child(t.kids, c)), rest, value));
  }

  lemma PutAfterEnsure(t: Tree, c: char, x: Tree)
    requires Find(t.kids, c) < |Ensured(t, c).kids|
    ensures Put(t.kids, c, x) == Ensured(t, c).kids[Find(t.kids, c) := (c, x)]
  {
  }

  /** A key ends at a node marked as the end of a key. */
  ghost predicate Ends(t: Tree, key: string)
    decreases |key|
  {
    if key == [] then t.isEnd
    else Child(t.kids, key[0]).Some? && Ends(Child(t.kids, key[0]).value, key[1..])
  }

  lemma {:induction false} EndsMeansStored(t: Tree, key: string)
    requires Canonical(t)
    ensures Ends(t, key) <==> Lookup(t, key).Some?
    decreases |key|
  {
    if key != [] && Child(t.kids, key[0]).Some? {
      EndsMeansStored(Child(t.kids, key[0]).value, key[1..]);
    }
  }

  lemma NothingEnds(key: string)
    ensures !Ends(EMPTY_TREE, key)
  {
  }

  lemma {:induction false} StepTree(t: Tree, at: seq<nat>, c: char, rest: string, value: string)
    requires TreePlace(t, at)
    ensures var s := TreeAt(t, at); var i := Find(s.kids, c); var u := SetTree(t, at, Ensured(s, c));
      && TreePlace(u, at + [i])
      && SetTree(t, at, InsertT(s, [c] + rest, value))
         == SetTree(u, at + [i], InsertT(TreeAt(u, at + [i]), rest, value))
      && Ends(TreeAt(u, at + [i]), rest) == Ends(s, [c] + rest)
    decreases |at|
  {
    var s := TreeAt(t, at);
    var i := Find(s.kids, c);
    if at == [] {
      InsertAfterEnsure(t, c, rest, value);
      assert [i][1..] == [] && at + [i] == [i];
      FindAfterEnsure(t, c);
      NothingEnds(rest);
      assert ([c] + rest)[1..] == rest;
    } else {
      StepTree(t.kids[at[0]].1, at[1..], c, rest, value);
      assert (at + [i])[1..] == at[1..] + [i];
    }
  }

  // ----- the program

  /** `m` is the map the tree stands for. */
  ghost predicate Stands(t: Tree, m: map<string, Entry>) {
    forall key :: Lookup(t, key) == if key in m then Some(m[key]) else None
  }

  lemma {:induction false} FindSame<T, U>(p: seq<(char, T)>, q: seq<(char, U)>, c: char)
    requires |p| == |q| && forall i :: 0 <= i < |p| ==> p[i].0 == q[i].0
    ensures Find(p, c) == Find(q, c)
  {
    if p != [] && p[0].0 < c { FindSame(p[1..], q[1..], c); }
  }

  lemma {:induction false} ObjsAllocated(g: Shape)
    ensures forall o :: o in Objs(g) ==> allocated(o)
    decreases g
  {
    forall i | 0 <= i < |g.kids| ensures forall o :: o in Objs(g.kids[i]) ==> allocated(o) {
      ObjsAllocated(g.kids[i]);
    }
  }

  /** The inserting branch of `child_or_insert`. */
  method AddChild(node: TrieNode, c: char, ghost s: Shape) returns (kid: TrieNode)
    requires Rep(s) && s.obj == node && !Has(node.children, c)
    requires forall o :: o in Objs(s) ==> allocated(o)
    modifies node`children
    ensures GotKid(s, old(Find(node.children, c)), c, kid)
  {
    var i := Find(node.children, c);
    kid := new TrieNode();
    node.children := InsertAt(node.children, i, (c, kid));
  }

  /** `child_or_insert`, with the place of the cursor moved along. */
  method ChildOrInsert(node: TrieNode, c: char, ghost g: Shape, ghost at: seq<nat>)
    returns (kid: TrieNode, ghost g': Shape, ghost at': seq<nat>)
    requires Rep(g) && Place(g, at) && ShapeAt(g, at).obj == node
    modifies node`children
    ensures Rep(g') && Place(g', at') && ShapeAt(g', at').obj == kid && g'.obj == g.obj
    ensures forall o :: o in Objs(g') ==> o in Objs(g) || fresh(o)
    ensures old(TreePlace(Abs(g), at))
    ensures Abs(g') == old(SetTree(Abs(g), at, Ensured(TreeAt(Abs(g), at), c)))
    ensures at' == old(at + [Find(TreeAt(Abs(g), at).kids, c)])
  {
    ghost var s := ShapeAt(g, at);
    ObjsAllocated(g);
    PlaceRep(g, at);
    PlaceObjs(g, at);
    FindSame(node.children, Abs(s).kids, c);
    var i := Find(node.children, c);
    at' := at + [i];
    if Has(node.children, c) {
      kid := node.children[i].1;
      g' := g;
      SetSame(Abs(g), at);
      PlaceStep(g, at, i);
    } else {
      kid := AddChild(node, c, s);
      g' := NewKidAt(g, at, i, c, kid);
    }
  }

  class Trie {
    var root: TrieNode
    var size: nat
    ghost var shape: Shape
    ghost var contents: map<string, Entry>

    /** The nodes form a canonical tree that stands for `contents`, and `size` counts its keys. */
    ghost predicate Valid()
      reads this, Objs(shape)
    {
      && shape.obj == root && Rep(shape)
      && Canonical(Abs(shape)) && Stands(Abs(shape), contents)
      && size == |contents|
    }

    constructor ()
      ensures Valid() && contents == map[] && Abs(shape) == EMPTY_TREE
      ensures fresh(Objs(shape))
    {
      var node := new TrieNode();
      root := node;
      size := 0;
      shape := Shape(node, []);
      contents := map[];
      new;
      assert Abs(shape) == EMPTY_TREE;
    }

    /** One occurrence of `key` more; the value is kept from the first one. */
    method Insert(key: string, value: string)
      requires Valid()
      modifies this, Objs(shape)
      ensures Valid() && fresh(Objs(shape) - old(Objs(shape)))
      ensures contents
           == old(contents)[key := Bump(if key in old(contents) then Some(old(contents)[key]) else None, value)]
      ensures Abs(shape) == InsertT(old(Abs(shape)), key, value)
    {
      ghost var t0 := Abs(shape);
      EndsMeansStored(t0, key);
      var node;
      ghost var g, at;
      node, g, at := Descend(root, key, value, shape);
      var isNew := MarkNode(node, value, g, at);
      StandsAfterInsert(t0, contents, key, value);
      Record(if isNew then size + 1 else size, SetShape(g, at, ShapeAt(g, at)),
             contents[key := Bump(if key in contents then Some(contents[key]) else None, value)]);
    }

    /** One occurrence of `key` less; the key disappears with its last occurrence. */
    method Remove(key: string) returns (existed: bool)
      requires Valid()
      modifies this, Objs(shape)
      ensures Valid() && Objs(shape) <= old(Objs(shape))
      ensures existed == (key in old(contents))
      ensures contents == Lessened(old(contents), key)
      ensures Abs(shape) == RemoveT(old(Abs(shape)), key).tree
    {
      ghost var t0 := Abs(shape);
      ghost var g;
      var fullyRemoved;
      existed, fullyRemoved, g := RemoveRec(root, key, 0, shape);
      assert key[0..] == key;
      StandsAfterRemove(t0, contents, key);
      LessenedSize(contents, key);
      Record(if fullyRemoved then size - 1 else size, g, Lessened(contents, key));
    }

    /** The value stored at exactly this key. */
    method Get(key: string) returns (r: Option<string>)
      requires Valid()
      ensures r == if key in contents then Some(contents[key].value) else None
    {
      ghost var found := Lookup(Abs(shape), key);
      assert found == if key in contents then Some(contents[key]) else None;
      var node := root;
      ghost var g := shape;
      for n := 0 to |key|
        invariant Rep(g) && g.obj == node && Canonical(Abs(g))
        invariant Lookup(Abs(g), key[n..]) == found
      {
        FindSame(node.children, Abs(g).kids, key[n]);
        assert key[n..][1..] == key[n + 1..];
        if !Has(node.children, key[n]) {
          return None;
        }
        var i := Find(node.children, key[n]);
        node, g := node.children[i].1, g.kids[i];
      }
      r := if node.isEnd then node.value else None;
    }

    /** The values of the best-ranked keys with this prefix. */
    method PrefixSearch(prefix: string, limit: nat) returns (r: seq<string>)
      requires Valid()
      ensures exists s :: Ranks(contents, prefix, s) && IsTop(r, s, limit)
    {
      ghost var ranking := TopOfMap(Abs(shape), contents, prefix, limit);
      ghost var result := Search(Abs(shape), prefix, limit);
      ghost var target := NodeAt(Abs(shape), prefix);
      var node := root;
      ghost var g := shape;
      for n := 0 to |prefix|
        invariant Rep(g) && g.obj == node
        invariant NodeAt(Abs(g), prefix[n..]) == target
      {
        FindSame(node.children, Abs(g).kids, prefix[n]);
        assert prefix[n..][1..] == prefix[n + 1..];
        if !Has(node.children, prefix[n]) {
          return [];
        }
        var i := Find(node.children, prefix[n]);
        node, g := node.children[i].1, g.kids[i];
      }
      assert prefix[|prefix|..] == [];
      ghost var below := Abs(g);
      assert target == Some(below);
      var collected := Collect(node, [], g);
      assert collected == Collected(below);
      r := Values(Prefix(StableSort(collected, PairByCount), limit));
      assert r == result;
    }

    method Len() returns (n: nat)
      requires Valid()
      ensures n == |contents|
    {
      n := size;
    }

    method IsEmpty() returns (r: bool)
      requires Valid()
      ensures r <==> contents == map[]
    {
      r := size == 0;
    }

    /** Nodes including the root: the distinct prefixes of the stored keys. */
    method NodeCount() returns (n: nat)
      requires Valid()
      ensures n == |PrefixesOf(contents)|
    {
      PrefixesAreStored(Abs(shape), contents);
      NodeCountIsPrefixCount(Abs(shape), PrefixesOf(contents));
      n := CountNodes(root, shape);
      n := 1 + n;
    }

    /** The handle's own fields change; the nodes do not. */
    method Record(n: nat, ghost g: Shape, ghost m: map<string, Entry>)
      requires Rep(g)
      modifies this
      ensures root == old(root) && size == n && shape == g && contents == m
      ensures Rep(g) && Abs(g) == old(Abs(g))
    {
      size := n;
      shape := g;
      contents := m;
    }
  }

  /** The descent of `insert`: a cursor that makes the missing nodes on its way. What is left to do at
      the cursor, put back at its place, is the whole insertion. */
  method Descend(root: TrieNode, key: string, ghost value: string, ghost g0: Shape)
    returns (node: TrieNode, ghost g: Shape, ghost at: seq<nat>)
    requires Rep(g0) && g0.obj == root
    modifies Objs(g0)
    ensures Rep(g) && Place(g, at) && g.obj == root && ShapeAt(g, at).obj == node
    ensures node in Objs(g) && forall o :: o in Objs(g) ==> o in Objs(g0) || fresh(o)
    ensures TreePlace(Abs(g), at)
    ensures InsertT(old(Abs(g0)), key, value) == SetTree(Abs(g), at, Mark(TreeAt(Abs(g), at), value))
    ensures TreeAt(Abs(g), at).isEnd == Ends(old(Abs(g0)), key)
  {
    ghost var t0 := Abs(g0);
    g, at, node := g0, [], root;
    for n := 0 to |key|
      invariant Rep(g) && Place(g, at) && g.obj == root && ShapeAt(g, at).obj == node
      invariant forall o :: o in Objs(g) ==> o in Objs(g0) || fresh(o)
      invariant TreePlace(Abs(g), at)
      invariant InsertT(t0, key, value) == SetTree(Abs(g), at, InsertT(TreeAt(Abs(g), at), key[n..], value))
      invariant Ends(t0, key) == Ends(TreeAt(Abs(g), at), key[n..])
    {
      PlaceObjs(g, at);
      StepTree(Abs(g), at, key[n], key[n + 1..], value);
      assert key[n..] == [key[n]] + key[n + 1..];
      node, g, at := ChildOrInsert(node, key[n], g, at);
    }
    PlaceObjs(g, at);
  }

  /** The last step of `insert`. */
  method MarkNode(node: TrieNode, value: string, ghost g: Shape, ghost at: seq<nat>) returns (isNew: bool)
    requires Rep(g) && Place(g, at) && ShapeAt(g, at).obj == node
    modifies node
    ensures old(TreePlace(Abs(g), at)) && isNew == !old(TreeAt(Abs(g), at).isEnd)
    ensures var g' := SetShape(g, at, ShapeAt(g, at));
      && Rep(g') && g'.obj == g.obj && Objs(g') <= Objs(g)
      && Abs(g') == SetTree(old(Abs(g)), at, Mark(old(TreeAt(Abs(g), at)), value))
  {
    ObjsAllocated(g);
    PlaceRep(g, at);
    PlaceObjs(g, at);
    isNew := !node.isEnd;
    if node.isEnd {
      node.frequency := node.frequency + 1;
    } else {
      node.isEnd := true;
      node.frequency := 1;
      node.value := Some(value);
    }
    MarkedAt(g, at, value);
    SetObjs(g, at, ShapeAt(g, at));
  }

  /** The object `o` was marked once more. */
  twostate predicate Marked(o: TrieNode, new value: string)
    reads o
  {
    && o.children == old(o.children) && o.isEnd
    && o.frequency == (if old(o.isEnd) then old(o.frequency) + 1 else 1)
    && o.value == (if old(o.isEnd) then old(o.value) else Some(value))
  }

  twostate lemma MarkedTop(s: Shape, new value: string)
    requires old(Rep(s)) && Marked(s.obj, value)
    requires forall o :: o in Objs(s) ==> old(allocated(o))
    requires forall o :: o in Objs(s) && o != s.obj ==> unchanged(o)
    ensures Rep(s) && Abs(s) == Mark(old(Abs(s)), value)
  {
    KidsKept(s);
    assert Abs(s).kids == old(Abs(s)).kids;
  }

  /** The same seen from the root. */
  twostate lemma MarkedAt(g: Shape, new at: seq<nat>, new value: string)
    requires old(Rep(g)) && Place(g, at)
    requires forall o :: o in Objs(g) ==> old(allocated(o))
    requires forall o :: o in Objs(g) && o != ShapeAt(g, at).obj ==> unchanged(o)
    requires ShapeAt(g, at).obj in Objs(g) && Marked(ShapeAt(g, at).obj, value)
    ensures old(TreePlace(Abs(g), at))
    ensures var g' := SetShape(g, at, ShapeAt(g, at));
      Rep(g') && g'.obj == g.obj && Abs(g') == SetTree(old(Abs(g)), at, Mark(old(TreeAt(Abs(g), at)), value))
  {
    PlaceRepBefore(g, at);
    PlaceObjs(g, at);
    MarkedTop(ShapeAt(g, at), value);
    Replace(g, at, ShapeAt(g, at));
  }

  lemma StandsAfterInsert(t: Tree, m: map<string, Entry>, key: string, value: string)
    requires Canonical(t) && Stands(t, m)
    ensures Canonical(InsertT(t, key, value))
    ensures Stands(InsertT(t, key, value), m[key := Bump(if key in m then Some(m[key]) else None, value)])
  {
    InsertCanonical(t, key, value);
    forall q { LookupInsert(t, key, value, q); }
  }

  // ----- remove

  /** The map after one removal. */
  function Lessened(m: map<string, Entry>, key: string): map<string, Entry> {
    if key !in m then m
    else if m[key].count > 1 then m[key := Entry(m[key].count - 1, m[key].value)]
    else m - {key}
  }

  lemma LessenedSize(m: map<string, Entry>, key: string)
    ensures |Lessened(m, key)| == if key in m && m[key].count <= 1 then |m| - 1 else |m|
  {
    if key in m && m[key].count <= 1 {
      assert (m - {key}).Keys == m.Keys - {key};
      assert |m.Keys - {key}| == |m.Keys| - 1;
    } else if key in m {
      assert Lessened(m, key).Keys == m.Keys;
    }
  }

  lemma StandsAfterRemove(t: Tree, m: map<string, Entry>, key: string)
    requires Canonical(t) && Stands(t, m)
    ensures Canonical(RemoveT(t, key).tree) && Stands(RemoveT(t, key).tree, Lessened(m, key))
    ensures RemoveT(t, key).existed == (key in m)
    ensures RemoveT(t, key).fullyRemoved == (key in m && m[key].count <= 1)
  {
    RemoveCanonical(t, key);
    FullyRemoved(t, key);
    CountPositive(t, key);
    assert Lookup(t, key) == if key in m then Some(m[key]) else None;
    var u, l := RemoveT(t, key).tree, Lessened(m, key);
    forall q ensures Lookup(u, q) == if q in l then Some(l[q]) else None {
      LookupRemove(t, key, q);
      LessenedAt(m, key, q);
    }
  }

  lemma LessenedAt(m: map<string, Entry>, key: string, q: string)
    ensures (if q in Lessened(m, key) then Some(Lessened(m, key)[q]) else None)
         == var e := if q in m then Some(m[q]) else None; if q == key then Unbump(e) else e
  {
  }

  function RemoveAt<T>(s: seq<T>, i: nat): seq<T>
    requires i < |s|
  {
    s[..i] + s[i + 1..]
  }

  lemma RemovedAt<T>(s: seq<T>, i: nat)
    requires i < |s|
    ensures |RemoveAt(s, i)| == |s| - 1
    ensures forall j :: 0 <= j < |s| - 1 ==> RemoveAt(s, i)[j] == if j < i then s[j] else s[j + 1]
  {
  }

  lemma ApartRemove(kids: seq<Shape>, i: nat)
    requires i < |kids| && Apart(kids)
    ensures Apart(RemoveAt(kids, i))
  {
    RemovedAt(kids, i);
  }

  /** Kid `i` was taken out of the node. */
  twostate predicate LostOne(g: Shape, new i: nat)
    reads Objs(g)
  {
    && old(Rep(g)) && i < |g.kids|
    && (forall o :: o in Objs(g) ==> old(allocated(o)))
    && (forall o :: o in Objs(g) && o != g.obj ==> unchanged(o))
    && g.obj.children == RemoveAt(old(g.obj.children), i)
    && g.obj.isEnd == old(g.obj.isEnd) && g.obj.frequency == old(g.obj.frequency) && g.obj.value == old(g.obj.value)
  }

  twostate lemma LostKidRep(g: Shape, new i: nat)
    requires LostOne(g, i)
    ensures Rep(g.(kids := RemoveAt(g.kids, i)))
  {
    KidsKept(g);
    ApartRemove(g.kids, i);
    var kids := RemoveAt(g.kids, i);
    RemovedAt(g.kids, i);
    RemovedAt(old(g.obj.children), i);
    forall j | 0 <= j < |kids|
      ensures g.obj.children[j].1 == kids[j].obj && g.obj !in Objs(kids[j]) && Rep(kids[j])
    {
      var k := if j < i then j else j + 1;
      assert kids[j] == g.kids[k] && g.obj.children[j] == old(g.obj.children[k]);
    }
  }

  twostate lemma LostKidAbs(g: Shape, new i: nat)
    requires LostOne(g, i) && Rep(g.(kids := RemoveAt(g.kids, i)))
    ensures Abs(g.(kids := RemoveAt(g.kids, i))) == old(Abs(g)).(kids := RemoveAt(old(Abs(g)).kids, i))
  {
    var t, before := Abs(g.(kids := RemoveAt(g.kids, i))), old(Abs(g));
    KidsKept(g);
    RemovedAt(g.kids, i);
    RemovedAt(old(g.obj.children), i);
    RemovedAt(before.kids, i);
    forall j | 0 <= j < |g.kids| - 1 ensures t.kids[j] == RemoveAt(before.kids, i)[j] {
      var k := if j < i then j else j + 1;
      assert before.kids[k] == (old(g.obj.children[k].0), old(Abs(g.kids[k])));
    }
    assert t.kids == RemoveAt(before.kids, i);
  }

  lemma LostObjs(g: Shape, i: nat)
    requires i < |g.kids|
    ensures Objs(g.(kids := RemoveAt(g.kids, i))) <= Objs(g)
  {
    RemovedAt(g.kids, i);
    OtherKids(g, RemoveAt(g.kids, i), {});
  }

  lemma DropIsRemoveAt<T>(kids: seq<(char, T)>, c: char)
    requires Has(kids, c)
    ensures Drop(kids, c) == RemoveAt(kids, Find(kids, c))
  {
  }

  /** `remove_child`. */
  method RemoveChild(node: TrieNode, c: char, ghost g: Shape) returns (ghost g': Shape)
    requires Rep(g) && g.obj == node && Has(node.children, c)
    modifies node`children
    ensures Rep(g') && g'.obj == node && Objs(g') <= Objs(g)
    ensures Abs(g') == old(Abs(g)).(kids := Drop(old(Abs(g)).kids, c))
  {
    ObjsAllocated(g);
    FindSame(node.children, Abs(g).kids, c);
    ghost var i := Find(node.children, c);
    DropIsRemoveAt(node.children, c);
    DropIsRemoveAt(Abs(g).kids, c);
    node.children := Drop(node.children, c);
    LostKidRep(g, i);
    LostKidAbs(g, i);
    LostObjs(g, i);
    g' := g.(kids := RemoveAt(g.kids, i));
  }

  /** The end of `remove_rec`: one occurrence less at the node itself. */
  method Unmark(node: TrieNode, ghost g: Shape) returns (existed: bool, fullyRemoved: bool)
    requires Rep(g) && g.obj == node && Canonical(Abs(g))
    modifies node`isEnd, node`frequency, node`value
    ensures Rep(g) && Removed(Abs(g), existed, fullyRemoved) == RemoveT(old(Abs(g)), [])
  {
    ObjsAllocated(g);
    if !node.isEnd {
      return false, false;
    }
    node.frequency := node.frequency - 1;
    if node.frequency == 0 {
      node.isEnd := false;
      node.value := None;
      existed, fullyRemoved := true, true;
    } else {
      existed, fullyRemoved := true, false;
    }
    KidsKept(g);
    assert Abs(g).kids == old(Abs(g)).kids;
  }

  /** One level of `remove_rec`, on trees. */
  lemma RemoveLevel(t: Tree, key: string)
    requires key != [] && Has(t.kids, key[0])
    ensures var n := Find(t.kids, key[0]);
      var r := RemoveT(t.kids[n].1, key[1..]);
      var u := t.(kids := t.kids[n := (key[0], r.tree)]);
      && Has(u.kids, key[0]) && t.kids[n].0 == key[0]
      && RemoveT(t, key) == Removed(if r.existed && Dead(r.tree) then u.(kids := Drop(u.kids, key[0])) else u,
                                    r.existed, r.fullyRemoved)
  {
    var n := Find(t.kids, key[0]);
    var r := RemoveT(t.kids[n].1, key[1..]);
    var kids := t.kids[n := (key[0], r.tree)];
    FindSame(t.kids, kids, key[0]);
    assert kids[..n] + kids[n + 1..] == t.kids[..n] + t.kids[n + 1..];
  }

  method RemoveRec(node: TrieNode, chars: string, i: nat, ghost g: Shape)
    returns (existed: bool, fullyRemoved: bool, ghost g': Shape)
    requires i <= |chars| && Rep(g) && g.obj == node && Canonical(Abs(g))
    modifies Objs(g)
    ensures Rep(g') && g'.obj == node && Objs(g') <= Objs(g)
    ensures Removed(Abs(g'), existed, fullyRemoved) == RemoveT(old(Abs(g)), chars[i..])
    decreases |chars| - i, 1
  {
    if i == |chars| {
      existed, fullyRemoved := Unmark(node, g);
      g' := g;
      return;
    }
    var c := chars[i];
    assert chars[i..][0] == c && chars[i..][1..] == chars[i + 1..];
    FindSame(node.children, Abs(g).kids, c);
    if !Has(node.children, c) {
      return false, false, g;
    }
    var n := Find(node.children, c);
    RemoveLevel(Abs(g), chars[i..]);
    existed, fullyRemoved, g' := RemoveBelow(node, chars, i, n, g);
  }

  /** The recursive call of `remove_rec` and the pruning after it. */
  method RemoveBelow(node: TrieNode, chars: string, i: nat, n: nat, ghost g: Shape)
    returns (existed: bool, fullyRemoved: bool, ghost g': Shape)
    requires i < |chars| && Rep(g) && g.obj == node && Canonical(Abs(g))
    requires n < |node.children| && n == Find(node.children, chars[i]) && node.children[n].0 == chars[i]
    modifies Objs(g)
    ensures Rep(g') && g'.obj == node && Objs(g') <= Objs(g)
    ensures var t := old(Abs(g)); var r := RemoveT(t.kids[n].1, chars[i + 1..]);
      var u := t.(kids := t.kids[n := (chars[i], r.tree)]);
      && existed == r.existed && fullyRemoved == r.fullyRemoved
      && Abs(g') == if r.existed && Dead(r.tree) then u.(kids := Drop(u.kids, chars[i])) else u
    decreases |chars| - i, 0
  {
    ObjsAllocated(g);
    var child := node.children[n].1;
    ghost var kid;
    assert Abs(g).kids[n].1 == Abs(g.kids[n]);
    existed, fullyRemoved, kid := RemoveRec(child, chars, i + 1, g.kids[n]);
    var dead := child.children == [] && !child.isEnd;
    ReplaceKid(g, n, kid);
    g' := g.(kids := g.kids[n := kid]);
    OtherKids(g, g.kids[n := kid], {});
    if existed && dead {
      g' := RemoveChild(node, chars[i], g');
    }
  }

  /** Two reachable tries with the same contents have the same shape, whatever their histories. */
  lemma SameContentsSameShape(a: Trie, b: Trie)
    requires a.Valid() && b.Valid() && a.contents == b.contents
    ensures Abs(a.shape) == Abs(b.shape)
  {
    CanonicalUnique(Abs(a.shape), Abs(b.shape));
  }

  // ----- prefix_search and node_count

  /** `s` ranks the keys of the map that have this prefix. */
  ghost predicate Ranks(m: map<string, Entry>, prefix: string, s: seq<Stored>) {
    && (forall x :: x in s <==> prefix <= x.key && x.key in m && m[x.key] == x.entry)
    && RankOrder(s)
  }

  ghost predicate IsTop(r: seq<string>, s: seq<Stored>, limit: nat) {
    && |r| == (if |s| < limit then |s| else limit)
    && forall i :: 0 <= i < |r| ==> r[i] == s[i].entry.value
  }

  lemma TopOfMap(t: Tree, m: map<string, Entry>, prefix: string, limit: nat) returns (s: seq<Stored>)
    requires Canonical(t) && Stands(t, m)
    ensures Ranks(m, prefix, s) && IsTop(Search(t, prefix, limit), s, limit)
  {
    s := SearchIsTopOfRanking(t, prefix, limit);
    forall x ensures x in s <==> prefix <= x.key && x.key in m && m[x.key] == x.entry {
      assert Lookup(t, x.key) == if x.key in m then Some(m[x.key]) else None;
    }
  }

  /** The map alone decides what a prefix search returns. */
  lemma RanksUnique(m: map<string, Entry>, prefix: string, p: seq<Stored>, q: seq<Stored>)
    requires Ranks(m, prefix, p) && Ranks(m, prefix, q)
    ensures p == q
  {
    RankingUnique(p, q);
  }

  method Collect(node: TrieNode, before: seq<(nat, string)>, ghost g: Shape) returns (out: seq<(nat, string)>)
    requires Rep(g) && g.obj == node
    ensures out == before + Collected(old(Abs(g)))
    decreases g
  {
    ghost var t := Abs(g);
    ObjsAllocated(g);
    out := before;
    if node.isEnd && node.value.Some? {
      out := out + [(node.frequency, node.value.value)];
    }
    for i := 0 to |node.children|
      invariant Rep(g) && Abs(g) == t
      invariant before + Collected(t) == out + KidsCollected(t, i)
    {
      assert t.kids[i].1 == Abs(g.kids[i]);
      Associative(out, Collected(t.kids[i].1), KidsCollected(t, i + 1));
      out := Collect(node.children[i].1, out, g.kids[i]);
    }
  }

  method CountNodes(node: TrieNode, ghost g: Shape) returns (n: nat)
    requires Rep(g) && g.obj == node
    ensures n == Descendants(old(Abs(g)))
    decreases g
  {
    ghost var t := Abs(g);
    ObjsAllocated(g);
    n := |node.children|;
    for i := 0 to |node.children|
      invariant Rep(g) && Abs(g) == t
      invariant Descendants(t) == n + KidDescendants(t, i)
    {
      assert t.kids[i].1 == Abs(g.kids[i]);
      var below := CountNodes(node.children[i].1, g.kids[i]);
      n := n + below;
    }
  }

  /** All prefixes of the keys, the empty one included. */
  ghost function PrefixesOf(m: map<string, Entry>): set<string> {
    {""} + set key, n | key in m && 0 <= n <= |key| :: key[..n]
  }

  lemma PrefixesAreStored(t: Tree, m: map<string, Entry>)
    requires Stands(t, m)
    ensures forall q :: q in PrefixesOf(m) <==> q == [] || StoredPrefix(t, q)
  {
    forall q ensures q in PrefixesOf(m) <==> q == [] || StoredPrefix(t, q) {
      if StoredPrefix(t, q) {
        var key :| q <= key && Lookup(t, key).Some?;
        assert key in m && q == key[..|q|];
      }
      if q in PrefixesOf(m) && q != "" {
        var key, n :| key in m && 0 <= n <= |key| && q == key[..n];
        assert q <= key && Lookup(t, key).Some?;
      }
    }
  }
}
