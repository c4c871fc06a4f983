/**
 `std::set` as the strictly increasing sequence that iterating over it yields.
*/
module OrderedSets {

  ghost predicate StrictTotalOrder<T(!new)>(less: (T, T) -> bool) {
    && (forall x :: !less(x, x))
    && (forall x, y, z | less(x, y) && less(y, z) :: less(x, z))
    && (forall x, y :: x == y || less(x, y) || less(y, x))
  }

  ghost predicate Increasing<T(!new)>(s: seq<T>, less: (T, T) -> bool) {
    forall i, j | 0 <= i < j < |s| :: less(s[i], s[j])
  }

  /** `std::set::insert`: an equivalent element already present is kept. */
  function Insert<T>(s: seq<T>, x: T, less: (T, T) -> bool): seq<T> {
    if |s| == 0 then [x]
    else if less(s[0], x) then [s[0]] + Insert(s[1..], x, less)
    else if less(x, s[0]) then [x] + s
    else s
  }

  lemma ConsIncreasing<T(!new)>(x: T, s: seq<T>, less: (T, T) -> bool)
    requires Increasing(s, less)
    requires forall i | 0 <= i < |s| :: less(x, s[i])
    ensures Increasing([x] + s, less)
  {
  }

  /** A set below its first element has nothing else below it. */
  lemma FirstIsLeast<T(!new)>(x: T, s: seq<T>, less: (T, T) -> bool)
    requires StrictTotalOrder(less) && Increasing(s, less)
    requires |s| > 0 && less(x, s[0])
    ensures forall i | 0 <= i < |s| :: less(x, s[i])
  {
    forall i | 0 <= i < |s|
      ensures less(x, s[i])
    {
      assert i > 0 ==> less(s[0], s[i]);
    }
  }

  lemma {:induction false} InsertAddsOne<T(!new)>(s: seq<T>, x: T, less: (T, T) -> bool)
    requires StrictTotalOrder(less) && Increasing(s, less)
    ensures Increasing(Insert(s, x, less), less)
    ensures forall y :: y in Insert(s, x, less) <==> y in s || y == x
    ensures x in s ==> Insert(s, x, less) == s
    ensures x !in s ==> |Insert(s, x, less)| == |s| + 1
  {
    if |s| == 0 {
    } else if less(s[0], x) {
      var rest := s[1..];
      var t := Insert(rest, x, less);
      assert s == [s[0]] + rest;
      InsertAddsOne(rest, x, less);
      forall i | 0 <= i < |t|
        ensures less(s[0], t[i])
      {
        assert t[i] in t;
        if t[i] != x {
          var j :| 0 <= j < |rest| && rest[j] == t[i];
          assert less(s[0], s[j + 1]);
        }
      }
      ConsIncreasing(s[0], t, less);
      assert x != s[0];
    } else if less(x, s[0]) {
      FirstIsLeast(x, s, less);
      ConsIncreasing(x, s, less);
      assert x !in s;
    } else {
      assert x == s[0];
    }
  }

  /** Nothing is lost by inserting, in whatever order the elements are. */
  lemma {:induction false} InsertMembers<T(!new)>(s: seq<T>, x: T, less: (T, T) -> bool)
    requires StrictTotalOrder(less)
    ensures forall y :: y in Insert(s, x, less) <==> y in s || y == x
  {
    if |s| > 0 && less(s[0], x) {
      InsertMembers(s[1..], x, less);
      assert s == [s[0]] + s[1..];
    }
  }

  /** Inserting a whole range, element by element (`std::set::insert(first, last)`). */
  function InsertAll<T>(s: seq<T>, xs: seq<T>, less: (T, T) -> bool): seq<T> {
    if |xs| == 0 then s else Insert(InsertAll(s, xs[..|xs| - 1], less), xs[|xs| - 1], less)
  }

  /** An insertion that leaves the size alone leaves the set alone. */
  lemma {:induction false} InsertGrows<T(!new)>(s: seq<T>, x: T, less: (T, T) -> bool)
    ensures |s| <= |Insert(s, x, less)|
    ensures |Insert(s, x, less)| == |s| ==> Insert(s, x, less) == s
  {
    if |s| > 0 && less(s[0], x) {
      InsertGrows(s[1..], x, less);
    }
  }

  lemma {:induction false} InsertAllGrows<T(!new)>(s: seq<T>, xs: seq<T>, less: (T, T) -> bool)
    ensures |s| <= |InsertAll(s, xs, less)|
    ensures |InsertAll(s, xs, less)| == |s| ==> InsertAll(s, xs, less) == s
  {
    if |xs| > 0 {
      var before := xs[..|xs| - 1];
      InsertAllGrows(s, before, less);
      InsertGrows(InsertAll(s, before, less), xs[|xs| - 1], less);
    }
  }

  lemma {:induction false} InsertAllAdds<T(!new)>(s: seq<T>, xs: seq<T>, less: (T, T) -> bool)
    requires StrictTotalOrder(less) && Increasing(s, less)
    ensures Increasing(InsertAll(s, xs, less), less)
    ensures forall y :: y in InsertAll(s, xs, less) <==> y in s || y in xs
  {
    if |xs| > 0 {
      var n := |xs| - 1;
      assert xs == xs[..n] + [xs[n]];
      InsertAllAdds(s, xs[..n], less);
      InsertAddsOne(InsertAll(s, xs[..n], less), xs[n], less);
    }
  }

  /** An ordered set is determined by its elements: there is one iteration order. */
  lemma {:induction false} SameElementsSameSequence<T(!new)>(a: seq<T>, b: seq<T>, less: (T, T) -> bool)
    requires StrictTotalOrder(less)
    requires Increasing(a, less) && Increasing(b, less)
    requires forall x :: x in a <==> x in b
    ensures a == b
  {
    assert |a| > 0 ==> a[0] in a;
    assert |b| > 0 ==> b[0] in b;
    if |a| > 0 {
      assert a[0] in b;
      assert b[0] in a;
      assert a[0] == b[0];
      forall x
        ensures x in a[1..] <==> x in b[1..]
      {
        assert x in a <==> x == a[0] || x in a[1..];
        assert x in b <==> x == b[0] || x in b[1..];
      }
      SameElementsSameSequence(a[1..], b[1..], less);
      assert a == [a[0]] + a[1..] && b == [b[0]] + b[1..];
    }
  }
}
