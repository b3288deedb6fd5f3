/** Client code in the shape of the crate's own tests: each method derives the
    tested outcome from the contracts of `BitmapSet` and `Iter` alone. */
module Scenarios {
  import opened Bitmap
  import opened BitmapSets

  /** Membership after building from `[1, 8, 42, 220]`. */
  method ContainsAfterBuild() {
    var s := BitmapSet.FromSeq(32, [1, 8, 42, 220]);
    assert ValuesOf([1, 8, 42, 220]) == {1, 8, 42, 220};
    assert s.Contains(1) && s.Contains(8) && s.Contains(42) && s.Contains(220);
    assert !s.Contains(0) && !s.Contains(255);
  }

  /** Removing 42 from `[1, 8, 42, 220]` equals building `[1, 8, 220]`. */
  method RemoveMatchesBuild() {
    var s := BitmapSet.FromSeq(32, [1, 8, 42, 220]);
    var expected := BitmapSet.FromSeq(32, [1, 8, 220]);
    assert ValuesOf([1, 8, 42, 220]) == {1, 8, 42, 220};
    assert ValuesOf([1, 8, 220]) == {1, 8, 220};
    s.Remove(42);
    assert s.Equals(expected);
  }

  /** Intersection, union and difference of `[1, 8, 32, 220]` and `[4, 8, 16, 32]`. */
  method SetAlgebra() {
    var a := BitmapSet.FromSeq(32, [1, 8, 32, 220]);
    var b := BitmapSet.FromSeq(32, [4, 8, 16, 32]);
    assert ValuesOf([1, 8, 32, 220]) == {1, 8, 32, 220};
    assert ValuesOf([4, 8, 16, 32]) == {4, 8, 16, 32};
    var i := a.Intersection(b);
    var u := a.Union(b);
    var d := a.Difference(b);
    assert i.Repr() == {8, 32};
    assert u.Repr() == {1, 4, 8, 16, 32, 220};
    assert d.Repr() == {1, 220};
  }

  /** Subset and superset tests on two-byte sets. */
  method SubsetOnSmallSets() {
    var s1 := new BitmapSet(2);
    var s2 := BitmapSet.FromSeq(2, [1, 2]);
    var s3 := BitmapSet.FromSeq(2, [1, 2, 8]);
    assert ValuesOf([1, 2]) == {1, 2};
    assert ValuesOf([1, 2, 8]) == {1, 2, 8};
    assert s1.IsSubset(s3) && s2.IsSubset(s3) && s3.IsSubset(s3);
    assert !s3.IsSubset(s2) by { assert 8 in s3.Repr() - s2.Repr(); }
    assert s3.IsSuperset(s1) && s3.IsSuperset(s2) && s3.IsSuperset(s3);
    assert !s2.IsSuperset(s3) by { assert 8 in s3.Repr() - s2.Repr(); }
  }

  /** Disjointness on two-byte sets. */
  method DisjointOnSmallSets() {
    var s1 := BitmapSet.FromSeq(2, [1, 2, 3, 4]);
    assert ValuesOf([1, 2, 3, 4]) == {1, 2, 3, 4};
    assert s1.Repr() == {1, 2, 3, 4};
    var s2 := BitmapSet.FromSeq(2, [3, 4, 5, 6]);
    assert ValuesOf([3, 4, 5, 6]) == {3, 4, 5, 6};
    assert s2.Repr() == {3, 4, 5, 6};
    var s3 := BitmapSet.FromSeq(2, [5, 6, 7, 8]);
    assert ValuesOf([5, 6, 7, 8]) == {5, 6, 7, 8};
    assert s3.Repr() == {5, 6, 7, 8};
    assert s1.IsDisjoint(s3);
    assert !s1.IsDisjoint(s2) by { assert 3 in s1.Repr() * s2.Repr(); }
    assert !s2.IsDisjoint(s3) by { assert 5 in s2.Repr() * s3.Repr(); }
  }

  /** Iterating the set built from `[0, 255, 1, 2, 8]` yields 0, 1, 2, 8, 255, then `None`. */
  method IterateInOrder() {
    var s := BitmapSet.FromSeq(32, [0, 255, 1, 2, 8]);
    assert ValuesOf([0, 255, 1, 2, 8]) == {0, 1, 2, 8, 255};
    var it := s.Iter();
    assert it.Remaining() == {0, 1, 2, 8, 255};
    var r := it.Next();
    assert r == Some(0) && it.Remaining() == {1, 2, 8, 255};
    r := it.Next();
    assert r == Some(1) && it.Remaining() == {2, 8, 255};
    r := it.Next();
    assert r == Some(2) && it.Remaining() == {8, 255};
    r := it.Next();
    assert r == Some(8) && it.Remaining() == {255};
    r := it.Next();
    assert r == Some(255) && it.Remaining() == {};
    r := it.Next();
    assert r == None;
    r := it.Next();
    assert r == None;
  }
}
