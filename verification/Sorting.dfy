/** Stable sorting, as `slice::sort_by` and `sort_by_key` promise it.

    `IsStableSort` is the promise itself: the result is ordered and, inside every class of
    equivalent elements, keeps the order of the input. `StableSort` is one function that keeps
    the promise, and `StableSortUnique` shows that the promise determines the result. */
module Sorting {

  ghost predicate TotalPreorder<T(!new)>(le: (T, T) -> bool) {
    && (forall x, y :: le(x, y) || le(y, x))
    && (forall x, y, z :: le(x, y) && le(y, z) ==> le(x, z))
  }

  predicate Equivalent<T>(le: (T, T) -> bool, x: T, y: T) {
    le(x, y) && le(y, x)
  }

  ghost predicate Ordered<T>(s: seq<T>, le: (T, T) -> bool) {
    forall i, j :: 0 <= i < j < |s| ==> le(s[i], s[j])
  }

  /** The elements of `s` equivalent to `x`, in the order of `s`. */
  function ClassOf<T>(s: seq<T>, le: (T, T) -> bool, x: T): seq<T> {
    if s == [] then [] else
      (if Equivalent(le, x, s[0]) then [s[0]] else []) + ClassOf(s[1..], le, x)
  }

  ghost predicate IsStableSort<T(!new)>(s: seq<T>, r: seq<T>, le: (T, T) -> bool) {
    && Ordered(r, le)
    && multiset(r) == multiset(s)
    && (forall x :: ClassOf(r, le, x) == ClassOf(s, le, x))
  }

  /** Insert `x`, which comes before every element of `s` in the input, into the ordered `s`. */
  function Insert<T>(x: T, s: seq<T>, le: (T, T) -> bool): seq<T> {
    if s == [] || le(x, s[0]) then [x] + s else [s[0]] + Insert(x, s[1..], le)
  }

  function StableSort<T>(s: seq<T>, le: (T, T) -> bool): seq<T> {
    if s == [] then [] else Insert(s[0], StableSort(s[1..], le), le)
  }

  lemma {:induction false} InsertPermutes<T>(x: T, s: seq<T>, le: (T, T) -> bool)
    ensures multiset(Insert(x, s, le)) == multiset{x} + multiset(s)
  {
    if s == [] || le(x, s[0]) {
    } else {
      InsertPermutes(x, s[1..], le);
      assert s == [s[0]] + s[1..];
    }
  }

  lemma InsertMembers<T>(x: T, s: seq<T>, le: (T, T) -> bool)
    ensures forall y :: y in Insert(x, s, le) ==> y == x || y in s
  {
    InsertPermutes(x, s, le);
    forall y | y in Insert(x, s, le) ensures y == x || y in s {
      assert y in multiset(Insert(x, s, le));
    }
  }

  lemma {:induction false} InsertKeepsOrder<T(!new)>(x: T, s: seq<T>, le: (T, T) -> bool)
    requires TotalPreorder(le) && Ordered(s, le)
    ensures Ordered(Insert(x, s, le), le)
  {
    if s == [] || le(x, s[0]) {
    } else {
      var t := Insert(x, s[1..], le);
      InsertKeepsOrder(x, s[1..], le);
      InsertMembers(x, s[1..], le);
      forall j | 0 <= j < |t| ensures le(s[0], t[j]) {
        assert t[j] in t;
      }
    }
  }

  lemma {:induction false} InsertClass<T(!new)>(x: T, s: seq<T>, le: (T, T) -> bool, y: T)
    requires TotalPreorder(le)
    ensures ClassOf(Insert(x, s, le), le, y) == ClassOf([x] + s, le, y)
  {
    if s == [] || le(x, s[0]) {
    } else {
      InsertClass(x, s[1..], le, y);
      var t := Insert(x, s[1..], le);
      assert ([s[0]] + t)[1..] == t;
      assert ([x] + s)[1..] == s;
      assert ([x] + s[1..])[1..] == s[1..];
      assert !(Equivalent(le, y, x) && Equivalent(le, y, s[0]));
    }
  }

  lemma {:induction false} StableSortCorrect<T(!new)>(s: seq<T>, le: (T, T) -> bool)
    requires TotalPreorder(le)
    ensures IsStableSort(s, StableSort(s, le), le)
  {
    if s == [] {
    } else {
      var t := StableSort(s[1..], le);
      StableSortCorrect(s[1..], le);
      InsertKeepsOrder(s[0], t, le);
      InsertPermutes(s[0], t, le);
      assert s == [s[0]] + s[1..];
      forall y ensures ClassOf(StableSort(s, le), le, y) == ClassOf(s, le, y) {
        InsertClass(s[0], t, le, y);
        assert ([s[0]] + t)[1..] == t;
      }
    }
  }

  /** The promise of a stable sort has exactly one solution. */
  lemma {:induction false} StableSortUnique<T(!new)>(s: seq<T>, r: seq<T>, le: (T, T) -> bool)
    requires TotalPreorder(le) && IsStableSort(s, r, le)
    ensures r == StableSort(s, le)
  {
    StableSortCorrect(s, le);
    SameClassesSameSeq(r, StableSort(s, le), le);
  }

  lemma {:induction false} SameClassesSameSeq<T(!new)>(p: seq<T>, q: seq<T>, le: (T, T) -> bool)
    requires TotalPreorder(le) && Ordered(p, le) && Ordered(q, le)
    requires multiset(p) == multiset(q)
    requires forall x :: ClassOf(p, le, x) == ClassOf(q, le, x)
    ensures p == q
  {
    SameLength(p, q);
    if p != [] {
      SameHead(p, q, le);
      SameTails(p, q);
      forall x ensures ClassOf(p[1..], le, x) == ClassOf(q[1..], le, x) {
        SameTailClass(p, q, le, x);
      }
      SameClassesSameSeq(p[1..], q[1..], le);
      assert p == [p[0]] + p[1..] && q == [q[0]] + q[1..];
    }
  }

  lemma SameLength<T>(p: seq<T>, q: seq<T>)
    requires multiset(p) == multiset(q)
    ensures |p| == |q|
  {
    assert |q| == |multiset(q)| == |multiset(p)| == |p|;
  }

  lemma SameTails<T>(p: seq<T>, q: seq<T>)
    requires p != [] && q != [] && p[0] == q[0] && multiset(p) == multiset(q)
    ensures multiset(p[1..]) == multiset(q[1..])
  {
    assert p == [p[0]] + p[1..] && q == [q[0]] + q[1..];
    assert multiset(p[1..]) == multiset(p) - multiset{p[0]};
  }

  lemma SameHead<T(!new)>(p: seq<T>, q: seq<T>, le: (T, T) -> bool)
    requires p != [] && q != [] && TotalPreorder(le) && Ordered(p, le) && Ordered(q, le)
    requires multiset(p) == multiset(q)
    requires forall x :: ClassOf(p, le, x) == ClassOf(q, le, x)
    ensures p[0] == q[0]
  {
    assert p[0] in multiset(q) && q[0] in multiset(p);
    assert le(p[0], q[0]) && le(q[0], p[0]);
    assert ClassOf(p, le, p[0])[0] == p[0];
    assert ClassOf(q, le, p[0])[0] == q[0];
  }

  lemma SameTailClass<T(!new)>(p: seq<T>, q: seq<T>, le: (T, T) -> bool, x: T)
    requires p != [] && q != [] && p[0] == q[0]
    requires ClassOf(p, le, x) == ClassOf(q, le, x)
    ensures ClassOf(p[1..], le, x) == ClassOf(q[1..], le, x)
  {
    var h := if Equivalent(le, x, p[0]) then [p[0]] else [];
    assert ClassOf(p[1..], le, x) == ClassOf(p, le, x)[|h|..];
    assert ClassOf(q[1..], le, x) == ClassOf(q, le, x)[|h|..];
  }

  lemma {:induction false} ClassAppend<T>(s: seq<T>, t: seq<T>, le: (T, T) -> bool, x: T)
    ensures ClassOf(s + t, le, x) == ClassOf(s, le, x) + ClassOf(t, le, x)
  {
    if s == [] {
      assert s + t == t;
    } else {
      var whole := s + t;
      assert whole[0] == s[0] && whole[1..] == s[1..] + t;
      ClassAppend(s[1..], t, le, x);
      var head := if Equivalent(le, x, s[0]) then [s[0]] else [];
      assert ClassOf(whole, le, x) == head + ClassOf(whole[1..], le, x);
      assert head + (ClassOf(s[1..], le, x) + ClassOf(t, le, x)) == (head + ClassOf(s[1..], le, x)) + ClassOf(t, le, x);
    }
  }
}
