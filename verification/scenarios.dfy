/**
 Two concrete runs of the disjoint-set structure, with the values each call
 returns pinned down by the contracts of DisjointSet alone.
 */
module Scenarios {
  import opened Forest
  import opened Partitions
  import opened DisjointSets

  /** Union of two singletons of equal rank on the caller's view. */
  lemma UnionOfTwoSingletons()
    ensures UnionResult(map[1 := 1, 2 := 2], map[1 := 0, 2 := 0], 1, 2) ==
      (Some(2), map[1 := 1, 2 := 1], map[1 := 1, 2 := 0])
  {
    assert UnionPlan(map[1 := 1, 2 := 2], map[1 := 0, 2 := 0], 1, 2) == Absorbed(2, 1, true);
    assert MergeInto(map[1 := 1, 2 := 2], 2, 1) == map[1 := 1, 2 := 1];
    assert map[1 := 0, 2 := 0][1 := RankIn(map[1 := 0, 2 := 0], 1) + 1] == map[1 := 1, 2 := 0];
  }

  /** The same union with a third singleton beside it. */
  lemma UnionBesideSingleton()
    ensures UnionResult(map[1 := 1, 2 := 2, 3 := 3], map[1 := 0, 2 := 0, 3 := 0], 1, 2) ==
      (Some(2), map[1 := 1, 2 := 1, 3 := 3], map[1 := 1, 2 := 0, 3 := 0])
  {
    assert UnionPlan(map[1 := 1, 2 := 2, 3 := 3], map[1 := 0, 2 := 0, 3 := 0], 1, 2) == Absorbed(2, 1, true);
    assert MergeInto(map[1 := 1, 2 := 2, 3 := 3], 2, 1) == map[1 := 1, 2 := 1, 3 := 3];
    assert map[1 := 0, 2 := 0, 3 := 0][1 := RankIn(map[1 := 0, 2 := 0, 3 := 0], 1) + 1] ==
      map[1 := 1, 2 := 0, 3 := 0];
  }

  /** Union of a member of a rank-1 pair with a singleton of rank 0. */
  lemma UnionPairWithSingleton()
    ensures UnionResult(map[1 := 1, 2 := 1, 3 := 3], map[1 := 1, 2 := 0, 3 := 0], 2, 3) ==
      (Some(3), map[1 := 1, 2 := 1, 3 := 1], map[1 := 1, 2 := 0, 3 := 0])
  {
    assert UnionPlan(map[1 := 1, 2 := 1, 3 := 3], map[1 := 1, 2 := 0, 3 := 0], 2, 3) == Absorbed(3, 1, false);
    assert MergeInto(map[1 := 1, 2 := 1, 3 := 3], 3, 1) == map[1 := 1, 2 := 1, 3 := 1];
  }

  /** Two singletons of equal rank: union(1, 2) absorbs 2's root into 1's and
      returns the absorbed value 2; afterwards both find 1. */
  method RankTie() returns (absorbed: Option<int>, first: Option<int>, second: Option<int>)
    ensures absorbed == Some(2)
    ensures first == Some(1) && second == Some(1)
  {
    var s := new DisjointSet<int>();
    s.MakeSet(1);
    s.MakeSet(2);
    UnionOfTwoSingletons();
    absorbed := s.Union(1, 2);
    first := s.Find(1);
    second := s.Find(2);
  }

  /** Three singletons joined by union(1, 2) and then union(2, 3): the second
      union finds 1's root of rank 1 against 3's root of rank 0, absorbs 3 and
      returns it; all three then find 1, and 3's node points straight at 1. */
  method ChainedUnion() returns (s: DisjointSet<int>, results: seq<Option<int>>)
    ensures results == [Some(2), Some(3), Some(1), Some(1), Some(1)]
    ensures s.Valid() && 3 in s.elements && s.ParentOf(3) == Some(1)
  {
    s := new DisjointSet<int>();
    s.MakeSet(1);
    s.MakeSet(2);
    s.MakeSet(3);
    UnionBesideSingleton();
    var u1 := s.Union(1, 2);
    UnionPairWithSingleton();
    var u2 := s.Union(2, 3);
    var f1 := s.Find(1);
    var f2 := s.Find(2);
    var f3 := s.Find(3);
    results := [u1, u2, f1, f2, f3];
  }

  /** A value just registered is found as its own representative. */
  method FindAfterMakeSet<T(==)>(s: DisjointSet<T>, v: T) returns (r: Option<T>)
    requires s.Valid() && v !in s.elements
    modifies s
    ensures r == Some(v)
  {
    s.MakeSet(v);
    r := s.Find(v);
  }

  /** After a union of two registered values, finding either one returns the
      same representative. */
  method FindsAgreeAfterUnion<T(==)>(s: DisjointSet<T>, a: T, b: T) returns (ra: Option<T>, rb: Option<T>)
    requires s.Valid() && a in s.elements && b in s.elements
    modifies s
    ensures ra.Some? && ra == rb
  {
    PartitionIsCanonical(s.elements, s.nodes);
    UnionJoins(s.Partition(), s.Ranks(), a, b);
    var _ := s.Union(a, b);
    ra := s.Find(a);
    rb := s.Find(b);
  }
}
