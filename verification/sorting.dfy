/** The stable sort behind `list.sort((a,b)=> a.name.localeCompare(b.name))`
    (scripts.js:106). `Array.prototype.sort` is stable, so the comparator
    fixes the result completely: the model is an insertion sort that keeps
    equivalent elements in their original order, over an arbitrary total
    preorder `le` ("`a` sorts no later than `b`"). */
module Sorting {

  /** `le` orders every pair and is transitive; distinct elements may tie. */
  ghost predicate TotalPreorder<T(!new)>(le: (T, T) -> bool)
  {
    && (forall a, b :: le(a, b) || le(b, a))
    && (forall a, b, c :: le(a, b) && le(b, c) ==> le(a, c))
  }

  ghost predicate Sorted<T>(s: seq<T>, le: (T, T) -> bool)
  {
    forall i, j :: 0 <= i < j < |s| ==> le(s[i], s[j])
  }

  /** `x` goes in front of the first element it does not sort after. */
  function Insert<T>(x: T, s: seq<T>, le: (T, T) -> bool): (r: seq<T>)
    ensures multiset(r) == multiset(s) + multiset{x}
    ensures |r| == |s| + 1
  {
    if |s| == 0 then [x]
    else if le(x, s[0]) then [x] + s
    else
      var r := [s[0]] + Insert(x, s[1..], le);
      assert s == [s[0]] + s[1..];
      r
  }

  /** The stable sort: each element is inserted in front of the equivalent
      elements that follow it in the input. */
  function Sort<T>(s: seq<T>, le: (T, T) -> bool): (r: seq<T>)
    ensures multiset(r) == multiset(s)
    ensures |r| == |s|
  {
    if |s| == 0 then []
    else
      var r := Insert(s[0], Sort(s[1..], le), le);
      assert s == [s[0]] + s[1..];
      r
  }

  lemma {:induction false} InsertSorted<T(!new)>(x: T, s: seq<T>, le: (T, T) -> bool)
    requires TotalPreorder(le) && Sorted(s, le)
    ensures Sorted(Insert(x, s, le), le)
    decreases |s|
  {
    if |s| > 0 && !le(x, s[0]) {
      InsertSorted(x, s[1..], le);
      var t := Insert(x, s[1..], le);
      assert multiset(t) == multiset(s[1..]) + multiset{x};
      forall j | 0 <= j < |t|
        ensures le(s[0], t[j])
      {
        assert t[j] in multiset(t);
        if t[j] != x {
          assert t[j] in multiset(s[1..]);
          var k :| 0 <= k < |s[1..]| && s[1..][k] == t[j];
          assert s[1 + k] == t[j];
        }
      }
    }
  }

  /** The result is ordered by `le`. */
  lemma {:induction false} SortSorted<T(!new)>(s: seq<T>, le: (T, T) -> bool)
    requires TotalPreorder(le)
    ensures Sorted(Sort(s, le), le)
    decreases |s|
  {
    if |s| > 0 {
      SortSorted(s[1..], le);
      InsertSorted(s[0], Sort(s[1..], le), le);
    }
  }

  /** Sorting an already ordered sequence leaves it as it is; in particular
      sorting twice is sorting once. */
  lemma {:induction false} SortOfSorted<T(!new)>(s: seq<T>, le: (T, T) -> bool)
    requires Sorted(s, le)
    ensures Sort(s, le) == s
    decreases |s|
  {
    if |s| > 0 {
      assert Sorted(s[1..], le);
      SortOfSorted(s[1..], le);
      if |s| > 1 {
        assert le(s[0], s[1]);
      }
      assert s == [s[0]] + s[1..];
    }
  }

  lemma SortIdempotent<T(!new)>(s: seq<T>, le: (T, T) -> bool)
    requires TotalPreorder(le)
    ensures Sort(Sort(s, le), le) == Sort(s, le)
  {
    SortSorted(s, le);
    SortOfSorted(Sort(s, le), le);
  }

  // ---------------------------------------------------------------------
  // Stability

  /** `a` and `b` tie under `le`. */
  ghost predicate Ties<T>(le: (T, T) -> bool, a: T, b: T)
  {
    le(a, b) && le(b, a)
  }

  /** The elements of `s` that tie with `x`, in their order in `s`. */
  ghost function TiesWith<T>(s: seq<T>, x: T, le: (T, T) -> bool): seq<T>
  {
    if |s| == 0 then []
    else (if Ties(le, s[0], x) then [s[0]] else []) + TiesWith(s[1..], x, le)
  }

  lemma TiesWithCons<T>(a: T, t: seq<T>, x: T, le: (T, T) -> bool)
    ensures TiesWith([a] + t, x, le) == (if Ties(le, a, x) then [a] else []) + TiesWith(t, x, le)
  {
    assert ([a] + t)[1..] == t;
  }

  /** Two elements in the wrong order for `le` cannot both tie with `x`. */
  lemma NotBothTie<T(!new)>(y: T, z: T, x: T, le: (T, T) -> bool)
    requires TotalPreorder(le) && !le(y, z)
    ensures !(Ties(le, y, x) && Ties(le, z, x))
  {
    assert le(y, x) && le(x, z) ==> le(y, z);
  }

  lemma {:induction false} InsertTies<T(!new)>(y: T, s: seq<T>, x: T, le: (T, T) -> bool)
    requires TotalPreorder(le)
    ensures TiesWith(Insert(y, s, le), x, le)
      == (if Ties(le, y, x) then [y] else []) + TiesWith(s, x, le)
    decreases |s|
  {
    if |s| == 0 {
      TiesWithCons(y, s, x, le);
    } else if le(y, s[0]) {
      TiesWithCons(y, s, x, le);
    } else {
      InsertTies(y, s[1..], x, le);
      var t := Insert(y, s[1..], le);
      assert s == [s[0]] + s[1..];
      TiesWithCons(s[0], t, x, le);
      TiesWithCons(s[0], s[1..], x, le);
      NotBothTie(y, s[0], x, le);
    }
  }

  /** The sort is stable: the elements that tie with any `x` appear in the
      output in exactly their input order. */
  lemma {:induction false} SortStable<T(!new)>(s: seq<T>, x: T, le: (T, T) -> bool)
    requires TotalPreorder(le)
    ensures TiesWith(Sort(s, le), x, le) == TiesWith(s, x, le)
    decreases |s|
  {
    if |s| > 0 {
      SortStable(s[1..], x, le);
      InsertTies(s[0], Sort(s[1..], le), x, le);
    }
  }
}
