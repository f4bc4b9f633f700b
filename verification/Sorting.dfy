/** Sorting by a total preorder. */
module Sorting {

  ghost predicate TotalPreorder<T(!new)>(le: (T, T) -> bool) {
    && (forall a, b :: le(a, b) || le(b, a))
    && (forall a, b, c :: le(a, b) && le(b, c) ==> le(a, c))
  }

  ghost predicate Ascending<T>(le: (T, T) -> bool, s: seq<T>) {
    forall i, j :: 0 <= i < j < |s| ==> le(s[i], s[j])
  }

  function Insert<T>(le: (T, T) -> bool, x: T, s: seq<T>): seq<T> {
    if s == [] || le(x, s[0]) then [x] + s else [s[0]] + Insert(le, x, s[1..])
  }

  /** What a library's sort leaves, up to the order of elements that are equal in the order. */
  function Sort<T>(le: (T, T) -> bool, s: seq<T>): seq<T> {
    if s == [] then [] else Insert(le, s[0], Sort(le, s[1..]))
  }

  lemma AscendingCons<T>(le: (T, T) -> bool, x: T, s: seq<T>)
    requires Ascending(le, s) && forall y <- s :: le(x, y)
    ensures Ascending(le, [x] + s)
  {
    var t := [x] + s;
    forall i, j | 0 <= i < j < |t|
      ensures le(t[i], t[j])
    {
      assert t[j] == s[j - 1] && s[j - 1] in s;
      if i > 0 { assert t[i] == s[i - 1]; }
    }
  }

  lemma {:induction false} InsertMembers<T>(le: (T, T) -> bool, x: T, s: seq<T>)
    ensures multiset(Insert(le, x, s)) == multiset(s) + multiset{x}
    ensures forall y <- Insert(le, x, s) :: y == x || y in s
  {
    if s != [] && !le(x, s[0]) {
      InsertMembers(le, x, s[1..]);
      assert s == [s[0]] + s[1..];
    }
  }

  lemma {:induction false} InsertAscends<T(!new)>(le: (T, T) -> bool, x: T, s: seq<T>)
    requires TotalPreorder(le) && Ascending(le, s)
    ensures Ascending(le, Insert(le, x, s))
  {
    if s == [] || le(x, s[0]) {
      forall y <- s
        ensures le(x, y)
      {
        var i :| 0 <= i < |s| && s[i] == y;
        assert le(s[0], s[i]) || i == 0;
      }
      AscendingCons(le, x, s);
    } else {
      InsertAscends(le, x, s[1..]);
      InsertMembers(le, x, s[1..]);
      AscendingCons(le, s[0], Insert(le, x, s[1..]));
    }
  }

  /** The result is an ascending permutation. */
  lemma {:induction false} SortSorts<T(!new)>(le: (T, T) -> bool, s: seq<T>)
    requires TotalPreorder(le)
    ensures Ascending(le, Sort(le, s)) && multiset(Sort(le, s)) == multiset(s)
  {
    if s != [] {
      SortSorts(le, s[1..]);
      InsertAscends(le, s[0], Sort(le, s[1..]));
      InsertMembers(le, s[0], Sort(le, s[1..]));
      assert s == [s[0]] + s[1..];
    }
  }

  lemma SortKeeps<T(!new)>(le: (T, T) -> bool, s: seq<T>)
    requires TotalPreorder(le)
    ensures |Sort(le, s)| == |s| && forall x :: x in Sort(le, s) <==> x in s
  {
    SortSorts(le, s);
    assert |multiset(Sort(le, s))| == |multiset(s)|;
    forall x
      ensures x in Sort(le, s) <==> x in s
    {
      assert x in Sort(le, s) <==> x in multiset(Sort(le, s));
      assert x in s <==> x in multiset(s);
    }
  }
}
