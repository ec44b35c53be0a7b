/** Selecting from a list, in order, and how selection goes with concatenation and sorting. */
module Selection {
  import opened Ordering

  function Keep<T>(wanted: T -> bool, s: seq<T>): seq<T> {
    if s == [] then [] else (if wanted(s[0]) then [s[0]] else []) + Keep(wanted, s[1..])
  }

  lemma {:induction false} KeepMembers<T>(wanted: T -> bool, s: seq<T>)
    ensures forall x :: x in Keep(wanted, s) <==> x in s && wanted(x)
  {
    if s != [] {
      KeepMembers(wanted, s[1..]);
      assert s == [s[0]] + s[1..];
    }
  }

  lemma {:induction false} KeepOfBoth<T>(wanted: T -> bool, s: seq<T>, t: seq<T>)
    ensures Keep(wanted, s + t) == Keep(wanted, s) + Keep(wanted, t)
  {
    if s == [] {
      assert s + t == t;
    } else {
      var head := if wanted(s[0]) then [s[0]] else [];
      assert (s + t)[1..] == s[1..] + t && (s + t)[0] == s[0];
      KeepOfBoth(wanted, s[1..], t);
      assert head + (Keep(wanted, s[1..]) + Keep(wanted, t)) == head + Keep(wanted, s[1..]) + Keep(wanted, t);
    }
  }

  lemma {:induction false} KeepCounts<T>(wanted: T -> bool, s: seq<T>, x: T)
    ensures multiset(Keep(wanted, s))[x] == if wanted(x) then multiset(s)[x] else 0
  {
    if s != [] {
      KeepCounts(wanted, s[1..], x);
      assert s == [s[0]] + s[1..];
    }
  }

  lemma {:induction false} KeepNone<T>(wanted: T -> bool, s: seq<T>)
    requires forall x :: x in s ==> !wanted(x)
    ensures Keep(wanted, s) == []
  {
    if s != [] {
      assert s[0] in s;
      KeepNone(wanted, s[1..]);
    }
  }

  lemma {:induction false} KeepEvery<T>(wanted: T -> bool, s: seq<T>)
    requires forall x :: x in s ==> wanted(x)
    ensures Keep(wanted, s) == s
  {
    if s != [] {
      assert s[0] in s;
      KeepEvery(wanted, s[1..]);
    }
  }

  lemma {:induction false} KeepTwice<T>(p: T -> bool, q: T -> bool, both: T -> bool, s: seq<T>)
    requires forall x :: both(x) <==> p(x) && q(x)
    ensures Keep(q, Keep(p, s)) == Keep(both, s)
  {
    if s != [] {
      KeepTwice(p, q, both, s[1..]);
      var kept := Keep(p, s[1..]);
      if p(s[0]) {
        assert ([s[0]] + kept)[1..] == kept;
      } else {
        assert [] + kept == kept;
      }
    }
  }

  lemma {:induction false} KeepSame<T>(p: T -> bool, q: T -> bool, s: seq<T>)
    requires forall x :: p(x) <==> q(x)
    ensures Keep(p, s) == Keep(q, s)
  {
    if s != [] {
      KeepSame(p, q, s[1..]);
    }
  }

  lemma {:induction false} KeepAfterInsert<T(!new)>(le: (T, T) -> bool, wanted: T -> bool, x: T, s: seq<T>)
    requires TotalPreorder(le) && Ordered(le, s)
    ensures Keep(wanted, Insert(le, x, s)) == if wanted(x) then Insert(le, x, Keep(wanted, s)) else Keep(wanted, s)
  {
    if s == [] || le(x, s[0]) {
      assert Insert(le, x, s)[1..] == s;
      KeepMembers(wanted, s);
      if wanted(x) && Keep(wanted, s) != [] {
        var y := Keep(wanted, s)[0];
        assert y in Keep(wanted, s);
        var i :| 0 <= i < |s| && s[i] == y;
        assert i == 0 || le(s[0], s[i]);
        assert le(x, y);
      }
    } else {
      OrderedTail(le, s);
      assert Insert(le, x, s)[1..] == Insert(le, x, s[1..]);
      KeepAfterInsert(le, wanted, x, s[1..]);
      assert ([s[0]] + Keep(wanted, s[1..]))[1..] == Keep(wanted, s[1..]);
      assert [] + Keep(wanted, s[1..]) == Keep(wanted, s[1..]);
      assert Keep(wanted, Insert(le, x, s)) == (if wanted(s[0]) then [s[0]] else [])
        + Keep(wanted, Insert(le, x, s[1..]));
    }
  }

  /** Sorting and selecting commute. */
  lemma {:induction false} KeepAfterSort<T(!new)>(le: (T, T) -> bool, wanted: T -> bool, s: seq<T>)
    requires TotalPreorder(le)
    ensures Keep(wanted, StableSort(le, s)) == StableSort(le, Keep(wanted, s))
  {
    if s != [] {
      KeepAfterSort(le, wanted, s[1..]);
      SortIsOrdered(le, s[1..]);
      KeepAfterInsert(le, wanted, s[0], StableSort(le, s[1..]));
      assert ([s[0]] + Keep(wanted, s[1..]))[1..] == Keep(wanted, s[1..]);
      assert [] + Keep(wanted, s[1..]) == Keep(wanted, s[1..]);
    }
  }

  lemma SelectionOfPrefix<T>(wanted: T -> bool, s: seq<T>, t: seq<T>)
    requires s <= t && forall i :: |s| <= i < |t| ==> !wanted(t[i])
    ensures Keep(wanted, t) == Keep(wanted, s)
  {
    hide Keep;
    var rest := t[|s|..];
    assert t == s + rest;
    KeepOfBoth(wanted, s, rest);
    KeepNone(wanted, rest);
  }

  lemma KeptIsThere<T>(wanted: T -> bool, s: seq<T>, kept: seq<T>, x: T)
    requires kept == Keep(wanted, s) && x in kept
    ensures x in s && wanted(x)
  {
    KeepMembers(wanted, s);
  }

  lemma {:induction false} KeepStaysOrdered<T>(le: (T, T) -> bool, wanted: T -> bool, s: seq<T>)
    requires Ordered(le, s)
    ensures Ordered(le, Keep(wanted, s))
  {
    if s != [] {
      var rest := Keep(wanted, s[1..]);
      KeepStaysOrdered(le, wanted, s[1..]);
      forall k | 0 <= k < |rest|
        ensures le(s[0], rest[k])
      {
        KeptIsThere(wanted, s[1..], rest, rest[k]);
        var n :| 0 <= n < |s[1..]| && s[1..][n] == rest[k];
        assert s[n + 1] == rest[k];
      }
    }
  }
}
