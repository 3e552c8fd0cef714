/** The stable sort of JavaScript, by a comparison that is a parameter. */
module Sorting {
  /** `localeCompare` and the comparisons built from it are taken to be total preorders. */
  ghost predicate TotalPreorder<T(!new)>(le: (T, T) -> bool) {
    && (forall x, y :: le(x, y) || le(y, x))
    && (forall x, y, z :: le(x, y) && le(y, z) ==> le(x, z))
  }

  /** Comparing by a key. */
  function By<T(!new), K(!new)>(key: T -> K, le: (K, K) -> bool): (T, T) -> bool {
    (x: T, y: T) => le(key(x), key(y))
  }

  lemma ByPreorder<T(!new), K(!new)>(key: T -> K, le: (K, K) -> bool)
    requires TotalPreorder(le)
    ensures TotalPreorder(By(key, le))
  {
    var lifted := By(key, le);
    forall x: T, y: T
      ensures lifted(x, y) || lifted(y, x)
    {
      assert le(key(x), key(y)) || le(key(y), key(x));
    }
    forall x: T, y: T, z: T | lifted(x, y) && lifted(y, z)
      ensures lifted(x, z)
    {
      assert le(key(x), key(y)) && le(key(y), key(z));
    }
  }

  ghost predicate Ordered<T>(le: (T, T) -> bool, s: seq<T>) {
    forall i, j :: 0 <= i < j < |s| ==> le(s[i], s[j])
  }

  /** Inserts `x` behind everything not greater, keeping equal elements in their order. */
  function Insert<T>(le: (T, T) -> bool, x: T, sorted: seq<T>): seq<T> {
    if sorted == [] then [x]
    else if le(sorted[|sorted| - 1], x) then sorted + [x]
    else Insert(le, x, sorted[..|sorted| - 1]) + [sorted[|sorted| - 1]]
  }

  function Sort<T>(le: (T, T) -> bool, s: seq<T>): seq<T> {
    if s == [] then [] else Insert(le, s[|s| - 1], Sort(le, s[..|s| - 1]))
  }

  lemma SplitLast<T>(s: seq<T>)
    requires s != []
    ensures multiset(s) == multiset(s[..|s| - 1]) + multiset{s[|s| - 1]}
  {
    assert s == s[..|s| - 1] + [s[|s| - 1]];
  }

  lemma {:induction false} InsertKeeps<T>(le: (T, T) -> bool, x: T, sorted: seq<T>)
    ensures multiset(Insert(le, x, sorted)) == multiset(sorted) + multiset{x}
  {
    if sorted != [] {
      InsertKeeps(le, x, sorted[..|sorted| - 1]);
      SplitLast(sorted);
    }
  }

  /** Sorting neither adds nor drops an element. */
  lemma {:induction false} SortKeeps<T>(le: (T, T) -> bool, s: seq<T>)
    ensures multiset(Sort(le, s)) == multiset(s)
  {
    hide Insert;
    if s != [] {
      SortKeeps(le, s[..|s| - 1]);
      InsertKeeps(le, s[|s| - 1], Sort(le, s[..|s| - 1]));
      SplitLast(s);
    }
  }

  lemma SortMembers<T(!new)>(le: (T, T) -> bool, s: seq<T>)
    ensures forall x :: x in Sort(le, s) <==> x in s
    ensures |Sort(le, s)| == |s|
  {
    hide Sort;
    SortKeeps(le, s);
    assert |multiset(Sort(le, s))| == |multiset(s)|;
    forall x
      ensures x in Sort(le, s) <==> x in s
    {
      assert x in multiset(Sort(le, s)) <==> x in multiset(s);
    }
  }

  lemma {:induction false} InsertOrdered<T(!new)>(le: (T, T) -> bool, x: T, sorted: seq<T>)
    requires TotalPreorder(le) && Ordered(le, sorted)
    ensures Ordered(le, Insert(le, x, sorted))
  {
    if sorted != [] {
      var front, last := sorted[..|sorted| - 1], sorted[|sorted| - 1];
      if le(last, x) {
        forall i | 0 <= i < |front|
          ensures le(front[i], x)
        {
          assert le(sorted[i], last);
        }
      } else {
        InsertOrdered(le, x, front);
        InsertKeeps(le, x, front);
        var inserted := Insert(le, x, front);
        forall i | 0 <= i < |inserted|
          ensures le(inserted[i], last)
        {
          assert inserted[i] in multiset(inserted);
          assert inserted[i] == x || inserted[i] in front;
        }
      }
    }
  }

  /** Sorting sorts. */
  lemma {:induction false} SortOrdered<T(!new)>(le: (T, T) -> bool, s: seq<T>)
    requires TotalPreorder(le)
    ensures Ordered(le, Sort(le, s))
  {
    hide Insert, TotalPreorder;
    if s != [] {
      SortOrdered(le, s[..|s| - 1]);
      InsertOrdered(le, s[|s| - 1], Sort(le, s[..|s| - 1]));
    }
  }

  /** What is in order already stays as it is. */
  lemma {:induction false} SortIdempotent<T>(le: (T, T) -> bool, s: seq<T>)
    requires Ordered(le, s)
    ensures Sort(le, s) == s
  {
    if |s| > 1 {
      SortIdempotent(le, s[..|s| - 1]);
    }
  }

  /** The elements that compare equal to `c`, in order. */
  function Equals<T>(le: (T, T) -> bool, c: T, s: seq<T>): seq<T> {
    if s == [] then []
    else
      var last := s[|s| - 1];
      Equals(le, c, s[..|s| - 1]) + if le(c, last) && le(last, c) then [last] else []
  }

  lemma {:induction false} InsertStable<T(!new)>(le: (T, T) -> bool, c: T, x: T, sorted: seq<T>)
    requires TotalPreorder(le)
    ensures Equals(le, c, Insert(le, x, sorted))
            == Equals(le, c, sorted) + if le(c, x) && le(x, c) then [x] else []
  {
    var n := |sorted|;
    if n > 0 && !le(sorted[n - 1], x) {
      var inserted := Insert(le, x, sorted[..n - 1]);
      InsertStable(le, c, x, sorted[..n - 1]);
      assert (inserted + [sorted[n - 1]])[..|inserted|] == inserted;
      var last := sorted[n - 1];
      assert !(le(c, x) && le(last, c));
    } else {
      assert (sorted + [x])[..n] == sorted;
    }
  }

  /** Elements that compare equal keep their order. */
  lemma {:induction false} SortStable<T(!new)>(le: (T, T) -> bool, c: T, s: seq<T>)
    requires TotalPreorder(le)
    ensures Equals(le, c, Sort(le, s)) == Equals(le, c, s)
  {
    hide Insert, TotalPreorder;
    if s != [] {
      SortStable(le, c, s[..|s| - 1]);
      InsertStable(le, c, s[|s| - 1], Sort(le, s[..|s| - 1]));
    }
  }

  ghost predicate Unique<T, K>(key: T -> K, s: seq<T>) {
    forall i, j :: 0 <= i < j < |s| ==> key(s[i]) != key(s[j])
  }

  lemma {:induction false} InsertUnique<T(!new), K>(le: (T, T) -> bool, key: T -> K, x: T, sorted: seq<T>)
    requires Unique(key, sorted) && forall y :: y in sorted ==> key(y) != key(x)
    ensures Unique(key, Insert(le, x, sorted))
  {
    if sorted != [] {
      var front, last := sorted[..|sorted| - 1], sorted[|sorted| - 1];
      InsertUnique(le, key, x, front);
      InsertKeeps(le, x, front);
      var inserted := Insert(le, x, front);
      forall i | 0 <= i < |inserted|
        ensures key(inserted[i]) != key(last)
      {
        assert inserted[i] in multiset(inserted);
        assert inserted[i] == x || inserted[i] in front;
      }
    }
  }

  /** Distinct keys stay distinct. */
  lemma {:induction false} SortUnique<T(!new), K>(le: (T, T) -> bool, key: T -> K, s: seq<T>)
    requires Unique(key, s)
    ensures Unique(key, Sort(le, s))
  {
    hide Insert;
    if s != [] {
      var front := s[..|s| - 1];
      SortUnique(le, key, front);
      SortMembers(le, front);
      forall y | y in Sort(le, front)
        ensures key(y) != key(s[|s| - 1])
      {
        assert y in front;
      }
      InsertUnique(le, key, s[|s| - 1], Sort(le, front));
    }
  }
}
