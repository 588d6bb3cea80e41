/** Sorting by a total order; any correct sort gives what this one gives when no two elements tie. */
module Sorting {

  ghost predicate Total<T(!new)>(le: (T, T) -> bool) {
    forall a, b :: le(a, b) || le(b, a)
  }

  ghost predicate Transitive<T(!new)>(le: (T, T) -> bool) {
    forall a, b, c :: le(a, b) && le(b, c) ==> le(a, c)
  }

  /** Each element is at most every later one. */
  ghost predicate Sorted<T(!new)>(le: (T, T) -> bool, s: seq<T>) {
    forall i, j :: 0 <= i < j < |s| ==> le(s[i], s[j])
  }

  function Insert<T>(le: (T, T) -> bool, x: T, s: seq<T>): seq<T> {
    if s == [] || le(x, s[0]) then [x] + s else [s[0]] + Insert(le, x, s[1..])
  }

  function Sort<T>(le: (T, T) -> bool, s: seq<T>): seq<T> {
    if s == [] then [] else Insert(le, s[0], Sort(le, s[1..]))
  }

  lemma SortedCons<T(!new)>(le: (T, T) -> bool, x: T, s: seq<T>)
    requires Sorted(le, s) && forall y :: y in s ==> le(x, y)
    ensures Sorted(le, [x] + s)
  {
  }

  lemma {:induction false} InsertAdds<T(!new)>(le: (T, T) -> bool, x: T, s: seq<T>)
    ensures multiset(Insert(le, x, s)) == multiset(s) + multiset{x}
  {
    if s != [] {
      assert s == [s[0]] + s[1..];
      if !le(x, s[0]) {
        InsertAdds(le, x, s[1..]);
      }
    }
  }

  lemma {:induction false} InsertSorts<T(!new)>(le: (T, T) -> bool, x: T, s: seq<T>)
    requires Total(le) && Transitive(le) && Sorted(le, s)
    ensures Sorted(le, Insert(le, x, s))
  {
    if s == [] {
    } else if le(x, s[0]) {
      forall y | y in s
        ensures le(x, y)
      {
        assert y == s[0] || le(s[0], y);
      }
      SortedCons(le, x, s);
    } else {
      var rest := Insert(le, x, s[1..]);
      InsertSorts(le, x, s[1..]);
      InsertAdds(le, x, s[1..]);
      forall y | y in rest
        ensures le(s[0], y)
      {
        assert y in multiset(rest);
        assert y == x || y in s[1..];
      }
      SortedCons(le, s[0], rest);
    }
  }

  lemma {:induction false} SortSorts<T(!new)>(le: (T, T) -> bool, s: seq<T>)
    requires Total(le) && Transitive(le)
    ensures Sorted(le, Sort(le, s)) && multiset(Sort(le, s)) == multiset(s)
  {
    if s != [] {
      SortSorts(le, s[1..]);
      InsertSorts(le, s[0], Sort(le, s[1..]));
      InsertAdds(le, s[0], Sort(le, s[1..]));
      assert s == [s[0]] + s[1..];
    }
  }

  /** No two different elements tie. */
  ghost predicate NoTies<T(!new)>(le: (T, T) -> bool, s: seq<T>) {
    forall a, b :: a in s && b in s && le(a, b) && le(b, a) ==> a == b
  }

  lemma RestsAgree<T(!new)>(a: seq<T>, b: seq<T>)
    requires a != [] && b != [] && a[0] == b[0] && multiset(a) == multiset(b)
    ensures multiset(a[1..]) == multiset(b[1..])
  {
    assert a == [a[0]] + a[1..] && b == [b[0]] + b[1..];
    assert multiset(a[1..]) == multiset(a) - multiset{a[0]} == multiset(b) - multiset{b[0]} == multiset(b[1..]);
  }

  lemma RestIsFine<T(!new)>(le: (T, T) -> bool, a: seq<T>)
    requires a != [] && Sorted(le, a) && NoTies(le, a)
    ensures Sorted(le, a[1..]) && NoTies(le, a[1..])
  {
  }

  lemma {:induction false} SortedUnique<T(!new)>(le: (T, T) -> bool, a: seq<T>, b: seq<T>)
    requires Sorted(le, a) && Sorted(le, b) && multiset(a) == multiset(b) && NoTies(le, a)
    ensures a == b
    decreases |a|
  {
    assert |a| == |multiset(a)| == |multiset(b)| == |b|;
    if a != [] {
      FirstsAgree(le, a, b);
      RestsAgree(a, b);
      RestIsFine(le, a);
      SortedUnique(le, a[1..], b[1..]);
      assert a == [a[0]] + a[1..] && b == [b[0]] + b[1..];
    }
  }

  lemma FirstsAgree<T(!new)>(le: (T, T) -> bool, a: seq<T>, b: seq<T>)
    requires Sorted(le, a) && Sorted(le, b) && multiset(a) == multiset(b) && NoTies(le, a) && a != [] && b != []
    ensures a[0] == b[0]
  {
    assert a[0] in multiset(b) && b[0] in multiset(a);
    var i :| 0 <= i < |b| && b[i] == a[0];
    var j :| 0 <= j < |a| && a[j] == b[0];
    if i > 0 && j > 0 {
      assert le(b[0], a[0]) && le(a[0], b[0]);
    }
  }

  /** Any way of sorting gives the same as this one. */
  lemma AnySort<T(!new)>(le: (T, T) -> bool, s: seq<T>, t: seq<T>)
    requires Total(le) && Transitive(le) && NoTies(le, s) && Sorted(le, t) && multiset(t) == multiset(s)
    ensures t == Sort(le, s)
  {
    SortSorts(le, s);
    forall a | a in t
      ensures a in s
    {
      assert a in multiset(t);
    }
    SortedUnique(le, t, Sort(le, s));
  }
}
