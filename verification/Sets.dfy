// Finite-set helpers.
module Sets {
  // Some element of a non-empty set.
  ghost function Pick<T>(s: set<T>): (x: T)
    requires s != {}
    ensures x in s
  {
    var x :| x in s;
    x
  }

  // An element of the larger of two different nested sets.
  ghost function Extra<T>(a: set<T>, b: set<T>): (x: T)
    requires b <= a && a != b
    ensures x in a && x !in b
  {
    var x :| x in a && x !in b;
    x
  }

  function Elements<T>(s: seq<T>): set<T> {
    set x | x in s
  }

  predicate Distinct<T(==)>(s: seq<T>) {
    forall i, j :: 0 <= i < j < |s| ==> s[i] != s[j]
  }

  // The elements of a set in some order, as a query returns rows.
  method Listed<T(==)>(s: set<T>) returns (c: seq<T>)
    ensures Elements(c) == s && Distinct(c)
  {
    c := [];
    var left := s;
    while left != {}
      invariant Elements(c) !! left && Elements(c) + left == s && Distinct(c)
      decreases |left|
    {
      var x :| x in left;
      left := left - {x};
      assert Elements(c + [x]) == Elements(c) + {x};
      c := c + [x];
    }
  }

  lemma NextElement<T>(c: seq<T>, i: nat)
    requires i < |c| && Distinct(c)
    ensures c[i] in Elements(c) && c[i] !in Elements(c[..i])
    ensures Elements(c[..i + 1]) == Elements(c[..i]) + {c[i]}
  {
    assert c[..i + 1] == c[..i] + [c[i]];
  }

  lemma {:induction false} SubsetIsSmaller<T>(a: set<T>, b: set<T>)
    requires a <= b
    ensures |a| <= |b|
    decreases b
  {
    if a != {} {
      var x := Pick(a);
      SubsetIsSmaller(a - {x}, b - {x});
    }
  }

  lemma {:induction false} DistinctCount<T>(s: seq<T>)
    requires Distinct(s)
    ensures |Elements(s)| == |s|
  {
    if s != [] {
      var init, last := s[..|s| - 1], s[|s| - 1];
      DistinctCount(init);
      assert s == init + [last];
      assert Elements(s) == Elements(init) + {last} && last !in Elements(init);
    }
  }

  lemma EmptyDifference<T>(a: set<T>, b: set<T>)
    requires a - b == {}
    ensures a <= b
  {
    assert forall x :: x in a && x !in b ==> x in a - b;
  }
}
