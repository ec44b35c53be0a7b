/**
  Stable sorting.

  Both languages of the repository sort with a library routine that is stable: JavaScript's
  `Array.prototype.sort` and Python's `list.sort`, the latter also under `reverse=True`. A stable
  sort is modelled once, as insertion sort over a total preorder, and everything the callers rely
  on is proved about it: the result is ordered, it is a permutation, it depends only on the
  multiset when ties are identical, and sorting by the minor key first and the major key second is
  one sort by the lexicographic order.
*/
module Ordering {
  ghost predicate TotalPreorder<T(!new)>(le: (T, T) -> bool) {
    && (forall x, y :: le(x, y) || le(y, x))
    && (forall x, y, z :: le(x, y) && le(y, z) ==> le(x, z))
  }

  function Insert<T>(le: (T, T) -> bool, x: T, s: seq<T>): seq<T> {
    if s == [] then [x]
    else if le(x, s[0]) then [x] + s
    else [s[0]] + Insert(le, x, s[1..])
  }

  function StableSort<T>(le: (T, T) -> bool, s: seq<T>): seq<T> {
    if s == [] then [] else Insert(le, s[0], StableSort(le, s[1..]))
  }

  ghost predicate Ordered<T>(le: (T, T) -> bool, s: seq<T>) {
    forall i, j :: 0 <= i < j < |s| ==> le(s[i], s[j])
  }

  lemma {:induction false} InsertIsPermutation<T>(le: (T, T) -> bool, x: T, s: seq<T>)
    ensures multiset(Insert(le, x, s)) == multiset([x]) + multiset(s)
  {
    if s != [] && !le(x, s[0]) {
      InsertIsPermutation(le, x, s[1..]);
      assert s == [s[0]] + s[1..];
    }
  }

  lemma {:induction false} SortIsPermutation<T>(le: (T, T) -> bool, s: seq<T>)
    ensures multiset(StableSort(le, s)) == multiset(s)
    ensures |StableSort(le, s)| == |s|
    ensures forall x :: x in StableSort(le, s) <==> x in s
  {
    if s != [] {
      SortIsPermutation(le, s[1..]);
      InsertIsPermutation(le, s[0], StableSort(le, s[1..]));
      assert s == [s[0]] + s[1..];
    }
    assert |multiset(StableSort(le, s))| == |multiset(s)|;
    forall x
      ensures x in StableSort(le, s) <==> x in s
    {
      assert x in multiset(StableSort(le, s)) <==> x in multiset(s);
    }
  }

  lemma {:induction false} InsertKeepsOrder<T(!new)>(le: (T, T) -> bool, x: T, s: seq<T>)
    requires TotalPreorder(le) && Ordered(le, s)
    ensures Ordered(le, Insert(le, x, s))
  {
    if s != [] && !le(x, s[0]) {
      InsertKeepsOrder(le, x, s[1..]);
      InsertIsPermutation(le, x, s[1..]);
      var rest := Insert(le, x, s[1..]);
      forall j | 0 <= j < |rest|
        ensures le(s[0], rest[j])
      {
        assert rest[j] in multiset(rest);
        assert rest[j] == x || rest[j] in s[1..];
      }
    }
  }

  lemma {:induction false} SortIsOrdered<T(!new)>(le: (T, T) -> bool, s: seq<T>)
    requires TotalPreorder(le)
    ensures Ordered(le, StableSort(le, s))
  {
    if s != [] {
      SortIsOrdered(le, s[1..]);
      InsertKeepsOrder(le, s[0], StableSort(le, s[1..]));
    }
  }

  /** Ties are identical: two members of `s` that compare equal both ways are the same value. */
  ghost predicate TiesAreEqual<T>(le: (T, T) -> bool, s: seq<T>) {
    forall x, y :: x in s && y in s && le(x, y) && le(y, x) ==> x == y
  }

  lemma HeadIsLeast<T(!new)>(le: (T, T) -> bool, s: seq<T>, x: T)
    requires TotalPreorder(le) && Ordered(le, s) && x in multiset(s)
    ensures s != [] && s[0] in multiset(s) && le(s[0], x)
  {
    var i :| 0 <= i < |s| && s[i] == x;
    assert le(s[0], s[0]);
  }

  lemma TailCounts<T>(s: seq<T>)
    requires s != []
    ensures multiset(s[1..]) == multiset(s) - multiset{s[0]}
    ensures forall x :: x in s[1..] ==> x in s
  {
    assert s == [s[0]] + s[1..];
  }

  lemma TwiceCountsTwo<T>(s: seq<T>, i: nat, j: nat)
    requires i < j < |s| && s[i] == s[j]
    ensures multiset(s)[s[i]] >= 2
  {
    var a, b := s[..i + 1], s[i + 1..];
    assert s == a + b;
    assert a[i] in multiset(a) && b[j - i - 1] in multiset(b);
  }

  lemma SameHead<T(!new)>(le: (T, T) -> bool, s: seq<T>, t: seq<T>)
    requires TotalPreorder(le) && TiesAreEqual(le, s) && Ordered(le, s) && Ordered(le, t)
    requires multiset(s) == multiset(t) && s != []
    ensures t != [] && s[0] == t[0]
  {
    assert s[0] in multiset(t);
    HeadIsLeast(le, t, s[0]);
    HeadIsLeast(le, s, t[0]);
    assert t[0] in s;
  }

  lemma OrderedTail<T>(le: (T, T) -> bool, s: seq<T>)
    requires Ordered(le, s) && s != []
    ensures Ordered(le, s[1..])
  {
  }

  lemma TiesOfTail<T>(le: (T, T) -> bool, s: seq<T>)
    requires TiesAreEqual(le, s) && s != []
    ensures TiesAreEqual(le, s[1..])
  {
    assert forall x :: x in s[1..] ==> x in s;
  }

  lemma {:induction false} OrderedIsUnique<T(!new)>(le: (T, T) -> bool, s: seq<T>, t: seq<T>)
    requires TotalPreorder(le) && TiesAreEqual(le, s)
    requires Ordered(le, s) && Ordered(le, t) && multiset(s) == multiset(t)
    ensures s == t
    decreases |s|
  {
    hide TotalPreorder, Ordered, TiesAreEqual;
    if s == [] {
      NothingToOrder(t);
    } else {
      SameHead(le, s, t);
      TiesOfTail(le, s);
      SameTail(s, t);
      OrderedTail(le, s);
      OrderedTail(le, t);
      OrderedIsUnique(le, s[1..], t[1..]);
      HeadAndTail(s, t);
    }
  }

  lemma NothingToOrder<T>(t: seq<T>)
    requires multiset(t) == multiset{}
    ensures t == []
  {
    assert |t| == |multiset(t)|;
  }

  lemma SameTail<T>(s: seq<T>, t: seq<T>)
    requires s != [] && t != [] && s[0] == t[0] && multiset(s) == multiset(t)
    ensures multiset(s[1..]) == multiset(t[1..])
  {
    TailCounts(s);
    TailCounts(t);
  }

  lemma HeadAndTail<T>(s: seq<T>, t: seq<T>)
    requires s != [] && t != [] && s[0] == t[0] && s[1..] == t[1..]
    ensures s == t
  {
    assert s == [s[0]] + s[1..] && t == [t[0]] + t[1..];
  }

  /** A sort does not see the order its input arrived in, as long as ties are identical. */
  lemma SortIgnoresArrivalOrder<T(!new)>(le: (T, T) -> bool, s: seq<T>, t: seq<T>)
    requires TotalPreorder(le) && TiesAreEqual(le, s) && multiset(s) == multiset(t)
    ensures StableSort(le, s) == StableSort(le, t)
  {
    SortIsOrdered(le, s);
    SortIsOrdered(le, t);
    SortIsPermutation(le, s);
    SortIsPermutation(le, t);
    OrderedIsUnique(le, StableSort(le, s), StableSort(le, t));
  }

  lemma {:induction false} SortOfOrdered<T>(le: (T, T) -> bool, s: seq<T>)
    requires Ordered(le, s)
    ensures StableSort(le, s) == s
  {
    if s != [] {
      SortOfOrdered(le, s[1..]);
      assert s == [s[0]] + s[1..];
    }
  }

  // ---- Minor key first, then a stable pass by the major key ----

  function Lexicographic<T>(major: (T, T) -> bool, minor: (T, T) -> bool): (T, T) -> bool {
    (x, y) => major(x, y) && (major(y, x) ==> minor(x, y))
  }

  lemma LexicographicIsTotal<T(!new)>(major: (T, T) -> bool, minor: (T, T) -> bool)
    requires TotalPreorder(major) && TotalPreorder(minor)
    ensures TotalPreorder(Lexicographic(major, minor))
  {
    var le := Lexicographic(major, minor);
    forall x, y
      ensures le(x, y) || le(y, x)
    {
      assert major(x, y) || major(y, x);
      assert minor(x, y) || minor(y, x);
    }
    forall x, y, z | le(x, y) && le(y, z)
      ensures le(x, z)
    {
      assert major(x, z);
    }
  }

  /** Two strictly comparable elements can be inserted in either order. */
  lemma {:induction false} InsertsCommute<T(!new)>(le: (T, T) -> bool, x: T, y: T, s: seq<T>)
    requires TotalPreorder(le) && le(y, x) && !le(x, y)
    ensures Insert(le, y, Insert(le, x, s)) == Insert(le, x, Insert(le, y, s))
  {
    if s != [] {
      if !le(x, s[0]) && !le(y, s[0]) {
        InsertsCommute(le, x, y, s[1..]);
      }
    }
  }

  lemma {:induction false} InsertByMajorAlone<T(!new)>(major: (T, T) -> bool, minor: (T, T) -> bool, x: T, s: seq<T>)
    requires forall z :: z in s ==> minor(x, z)
    ensures Insert(major, x, s) == Insert(Lexicographic(major, minor), x, s)
  {
    if s != [] {
      assert s[0] in s;
      if !major(x, s[0]) {
        InsertByMajorAlone(major, minor, x, s[1..]);
      }
    }
  }

  lemma {:induction false} MajorPassAfterInsert<T(!new)>(major: (T, T) -> bool, minor: (T, T) -> bool, x: T, t: seq<T>)
    requires TotalPreorder(major) && TotalPreorder(minor) && Ordered(minor, t)
    ensures StableSort(major, Insert(minor, x, t))
         == Insert(Lexicographic(major, minor), x, StableSort(major, t))
  {
    var lex := Lexicographic(major, minor);
    LexicographicIsTotal(major, minor);
    if t == [] {
      assert StableSort(major, [x]) == [x];
    } else if minor(x, t[0]) {
      assert ([x] + t)[1..] == t;
      SortIsPermutation(major, t);
      InsertByMajorAlone(major, minor, x, StableSort(major, t));
    } else {
      var y, rest := t[0], t[1..];
      var placed := Insert(minor, x, rest);
      assert ([y] + placed)[1..] == placed;
      MajorPassAfterInsert(major, minor, x, rest);
      SortIsPermutation(major, rest);
      InsertIsPermutation(lex, x, StableSort(major, rest));
      forall z | z in Insert(lex, x, StableSort(major, rest))
        ensures minor(y, z)
      {
        assert z in multiset(Insert(lex, x, StableSort(major, rest)));
      }
      InsertByMajorAlone(major, minor, y, Insert(lex, x, StableSort(major, rest)));
      InsertByMajorAlone(major, minor, y, StableSort(major, rest));
      if lex(y, x) && !lex(x, y) {
        InsertsCommute(lex, x, y, StableSort(major, rest));
      } else {
        InsertsCommute(lex, y, x, StableSort(major, rest));
      }
    }
  }

  /** A stable pass by the major key over a list sorted by the minor key is one lexicographic sort. */
  lemma {:induction false} StablePassesCompose<T(!new)>(major: (T, T) -> bool, minor: (T, T) -> bool, s: seq<T>)
    requires TotalPreorder(major) && TotalPreorder(minor)
    ensures StableSort(major, StableSort(minor, s)) == StableSort(Lexicographic(major, minor), s)
  {
    if s != [] {
      StablePassesCompose(major, minor, s[1..]);
      SortIsOrdered(minor, s[1..]);
      MajorPassAfterInsert(major, minor, s[0], StableSort(minor, s[1..]));
    }
  }
}
