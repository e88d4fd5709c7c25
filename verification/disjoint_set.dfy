/**
 The disjoint-set structure: a lookup table from element value to node index
 and the node arena of module Forest. The caller sees it through two maps:
 the partition (each registered value to the value of its root) and the ranks
 (each registered value to the rank of its node).
 */
module DisjointSets {
  import opened Forest
  import opened Partitions

  /** The table and the arena agree: each registered value names a node that
      carries that value, and each node's value names that node. */
  ghost predicate Indexed<T>(elements: map<T, nat>, nodes: seq<SubSet<T>>)
  {
    && (forall v :: v in elements ==> elements[v] < |nodes| && nodes[elements[v]].value == v)
    && (forall j :: 0 <= j < |nodes| ==> nodes[j].value in elements && elements[nodes[j].value] == j)
  }

  ghost predicate Consistent<T>(elements: map<T, nat>, nodes: seq<SubSet<T>>)
  {
    RankedForest(nodes) && Indexed(elements, nodes)
  }

  /** The value of the root of v's tree: the representative of v's partition. */
  ghost function Representative<T>(elements: map<T, nat>, nodes: seq<SubSet<T>>, v: T): (r: T)
    requires Consistent(elements, nodes) && v in elements
    ensures r in elements && elements[r] == Root(nodes, elements[v])
  {
    nodes[Root(nodes, elements[v])].value
  }

  /** The values of keys mapped to their representatives, built one key at
      a time. */
  ghost function PartitionOn<T>(elements: map<T, nat>, nodes: seq<SubSet<T>>, keys: set<T>): (reps: map<T, T>)
    requires Consistent(elements, nodes) && keys <= elements.Keys
    ensures reps.Keys == keys
    decreases keys
  {
    if keys == {} then map[]
    else
      var k :| k in keys;
      PartitionOn(elements, nodes, keys - {k})[k := Representative(elements, nodes, k)]
  }

  /** Each value among keys is mapped to its representative. */
  lemma {:induction false} PartitionOnLookup<T>(elements: map<T, nat>, nodes: seq<SubSet<T>>, keys: set<T>, v: T)
    requires Consistent(elements, nodes) && keys <= elements.Keys && v in keys
    ensures PartitionOn(elements, nodes, keys)[v] == Representative(elements, nodes, v)
    decreases keys
  {
    var k :| k in keys && PartitionOn(elements, nodes, keys) ==
      PartitionOn(elements, nodes, keys - {k})[k := Representative(elements, nodes, k)];
    if v != k {
      PartitionOnLookup(elements, nodes, keys - {k}, v);
    }
  }

  /** Each registered value mapped to its representative. */
  ghost function PartitionOf<T>(elements: map<T, nat>, nodes: seq<SubSet<T>>): (reps: map<T, T>)
    requires Consistent(elements, nodes)
    ensures reps.Keys == elements.Keys
  {
    PartitionOn(elements, nodes, elements.Keys)
  }

  /** The partition maps every registered value to its representative. */
  lemma PartitionLookup<T>(elements: map<T, nat>, nodes: seq<SubSet<T>>, v: T)
    requires Consistent(elements, nodes) && v in elements
    ensures PartitionOf(elements, nodes)[v] == Representative(elements, nodes, v)
  {
    PartitionOnLookup(elements, nodes, elements.Keys, v);
  }

  /** The same, for every registered value at once. */
  lemma PartitionLookups<T>(elements: map<T, nat>, nodes: seq<SubSet<T>>)
    requires Consistent(elements, nodes)
    ensures forall v :: v in elements ==> PartitionOf(elements, nodes)[v] == Representative(elements, nodes, v)
  {
    forall v | v in elements
      ensures PartitionOf(elements, nodes)[v] == Representative(elements, nodes, v)
    {
      PartitionLookup(elements, nodes, v);
    }
  }

  /** Every representative represents itself. */
  lemma PartitionIsCanonical<T>(elements: map<T, nat>, nodes: seq<SubSet<T>>)
    requires Consistent(elements, nodes)
    ensures Canonical(PartitionOf(elements, nodes))
  {
    var reps := PartitionOf(elements, nodes);
    forall v | v in reps
      ensures reps[v] in reps && reps[reps[v]] == reps[v]
    {
      PartitionLookup(elements, nodes, v);
      var r := Representative(elements, nodes, v);
      PartitionLookup(elements, nodes, r);
      assert Root(nodes, elements[r]) == elements[r];
    }
  }

  /** A lookup that is one-to-one on s maps s onto a set of the same size. */
  lemma {:induction false} InjectiveImageSize<T>(s: set<T>, f: map<T, nat>)
    requires s <= f.Keys
    requires forall x, y :: x in s && y in s && f[x] == f[y] ==> x == y
    ensures |set x | x in s :: f[x]| == |s|
    decreases s
  {
    if s != {} {
      var x :| x in s;
      var rest := s - {x};
      InjectiveImageSize(rest, f);
      assert (set y | y in s :: f[y]) == (set y | y in rest :: f[y]) + {f[x]};
    }
  }

  /** There are exactly as many partitions as nodes without a parent, and
      never more partitions than nodes or registered values. */
  lemma PartitionCount<T>(elements: map<T, nat>, nodes: seq<SubSet<T>>)
    requires Consistent(elements, nodes)
    ensures |PartitionOf(elements, nodes).Values| == |Roots(nodes)| <= |nodes|
    ensures |PartitionOf(elements, nodes).Values| <= |elements|
  {
    var reps := PartitionOf(elements, nodes);
    PartitionLookups(elements, nodes);
    assert reps.Values <= elements.Keys;
    forall r | r in Roots(nodes)
      ensures r in (set v | v in reps.Values :: elements[v])
    {
      var v := nodes[r].value;
      assert reps[v] == v && elements[v] == r;
    }
    assert Roots(nodes) == set v | v in reps.Values :: elements[v];
    InjectiveImageSize(reps.Values, elements);
    RootCountBound(nodes);
  }

  /** Each registered value mapped to the rank of its node. */
  ghost function RanksOf<T>(elements: map<T, nat>, nodes: seq<SubSet<T>>): (ranks: map<T, nat>)
    requires Indexed(elements, nodes)
    ensures ranks.Keys == elements.Keys
  {
    map v | v in elements :: nodes[elements[v]].rank
  }

  /** Maps with the same keys and the same value at every key are equal. */
  lemma SameMaps<K, V>(m: map<K, V>, m': map<K, V>)
    requires m.Keys == m'.Keys
    requires forall k :: k in m ==> m[k] == m'[k]
    ensures m == m'
  {
  }

  /** Two arenas that carry the same values at the same indices are indexed
      by the same table. */
  lemma ValuesKeptIndexed<T>(elements: map<T, nat>, a: seq<SubSet<T>>, b: seq<SubSet<T>>)
    requires Indexed(elements, a) && |a| == |b|
    requires forall j :: 0 <= j < |a| ==> a[j].value == b[j].value
    ensures Indexed(elements, b)
  {
  }

  /** Two arenas that give every registered value the same representative
      give the same partition. */
  lemma SamePartition<T>(elements: map<T, nat>, a: seq<SubSet<T>>, b: seq<SubSet<T>>)
    requires Consistent(elements, a) && Consistent(elements, b)
    requires forall v :: v in elements ==>
      Representative(elements, a, v) == Representative(elements, b, v)
    ensures PartitionOf(elements, a) == PartitionOf(elements, b)
  {
    PartitionLookups(elements, a);
    PartitionLookups(elements, b);
    SameMaps(PartitionOf(elements, a), PartitionOf(elements, b));
  }

  /** Two arenas that keep every node's rank give the same ranks. */
  lemma SameRanks<T>(elements: map<T, nat>, a: seq<SubSet<T>>, b: seq<SubSet<T>>)
    requires Indexed(elements, a) && Indexed(elements, b) && |a| == |b|
    requires forall j :: 0 <= j < |a| ==> a[j].rank == b[j].rank
    ensures RanksOf(elements, a) == RanksOf(elements, b)
  {
  }

  /** Appending a node for a fresh value, registered at the new index, keeps
      the table and the arena in agreement. */
  lemma AppendIndexed<T>(elements: map<T, nat>, nodes: seq<SubSet<T>>, value: T)
    requires Indexed(elements, nodes) && value !in elements
    ensures Indexed(elements[value := |nodes|], nodes + [NewSubSet(value)])
  {
    var elements', nodes' := elements[value := |nodes|], nodes + [NewSubSet(value)];
    forall j | 0 <= j < |nodes'|
      ensures nodes'[j].value in elements' && elements'[nodes'[j].value] == j
    {
      if j < |nodes| {
        assert nodes'[j] == nodes[j];
      }
    }
  }

  /** Registering a fresh value adds it as its own representative and leaves
      every other value's representative alone. */
  lemma AppendKeepsPartition<T>(elements: map<T, nat>, nodes: seq<SubSet<T>>, value: T)
    requires Consistent(elements, nodes) && value !in elements
    ensures Consistent(elements[value := |nodes|], nodes + [NewSubSet(value)])
    ensures PartitionOf(elements[value := |nodes|], nodes + [NewSubSet(value)]) ==
      PartitionOf(elements, nodes)[value := value]
  {
    var elements', nodes' := elements[value := |nodes|], nodes + [NewSubSet(value)];
    AppendSingleton(nodes, value);
    AppendIndexed(elements, nodes, value);
    var before, after := PartitionOf(elements, nodes), PartitionOf(elements', nodes');
    forall w | w in elements'
      ensures after[w] == before[value := value][w]
    {
      PartitionLookup(elements', nodes', w);
      if w != value {
        PartitionLookup(elements, nodes, w);
        var rw := Root(nodes, elements[w]);
        assert nodes'[rw] == nodes[rw];
      }
    }
    SameMaps(after, before[value := value]);
  }

  /** Registering a fresh value gives it rank 0 and leaves every other rank alone. */
  lemma AppendKeepsRanks<T>(elements: map<T, nat>, nodes: seq<SubSet<T>>, value: T)
    requires Indexed(elements, nodes) && value !in elements
    ensures Indexed(elements[value := |nodes|], nodes + [NewSubSet(value)])
    ensures RanksOf(elements[value := |nodes|], nodes + [NewSubSet(value)]) ==
      RanksOf(elements, nodes)[value := 0]
  {
    var elements', nodes' := elements[value := |nodes|], nodes + [NewSubSet(value)];
    AppendIndexed(elements, nodes, value);
    var ranks, ranks' := RanksOf(elements, nodes), RanksOf(elements', nodes');
    forall w | w in elements'
      ensures ranks'[w] == ranks[value := 0][w]
    {
      if w != value {
        assert nodes'[elements[w]] == nodes[elements[w]];
      }
    }
  }

  /** Path compression from v's node keeps the table consistent and changes
      neither the partition nor any rank. */
  lemma CompressKeepsPartition<T>(elements: map<T, nat>, nodes: seq<SubSet<T>>, v: T)
    requires Consistent(elements, nodes) && v in elements
    ensures var c := Compress(nodes, Path(nodes, elements[v]), Root(nodes, elements[v]));
      && Consistent(elements, c)
      && PartitionOf(elements, c) == PartitionOf(elements, nodes)
      && RanksOf(elements, c) == RanksOf(elements, nodes)
  {
    var i := elements[v];
    var c := Compress(nodes, Path(nodes, i), Root(nodes, i));
    CompressKeepsForest(nodes, i);
    ValuesKeptIndexed(elements, nodes, c);
    forall w | w in elements
      ensures Representative(elements, c, w) == Representative(elements, nodes, w)
    {
      CompressKeepsRoot(nodes, i, elements[w]);
    }
    SamePartition(elements, nodes, c);
    SameRanks(elements, nodes, c);
  }

  /** Two arenas indexed by the same table carry the same value at every index. */
  lemma IndexedValues<T>(elements: map<T, nat>, a: seq<SubSet<T>>, b: seq<SubSet<T>>, j: nat)
    requires Indexed(elements, a) && Indexed(elements, b) && j < |a| == |b|
    ensures a[j].value == b[j].value
  {
    var v, v' := a[j].value, b[j].value;
    assert elements[v] == j == elements[v'];
    assert b[elements[v]].value == v;
  }

  /** The representative of w after a link, given how the link moved the
      root of w's node: if that root was child, it is now parent. */
  lemma RedirectedRepresentative<T>(elements: map<T, nat>, a: seq<SubSet<T>>, b: seq<SubSet<T>>, child: nat, parent: nat, w: T)
    requires Consistent(elements, a) && Consistent(elements, b) && |a| == |b|
    requires child < |a| && parent < |a| && w in elements
    requires Root(b, elements[w]) == if Root(a, elements[w]) == child then parent else Root(a, elements[w])
    ensures Representative(elements, b, w) ==
      if Representative(elements, a, w) == a[child].value then a[parent].value else Representative(elements, a, w)
  {
    var rw := Root(a, elements[w]);
    IndexedValues(elements, a, b, rw);
    IndexedValues(elements, a, b, parent);
    assert a[rw].value == a[child].value <==> rw == child;
  }

  /** When every root of b is the root of a, except that child's trees now
      hang from parent, the partition of b folds child's value into parent's. */
  lemma RedirectMergesPartition<T>(elements: map<T, nat>, a: seq<SubSet<T>>, b: seq<SubSet<T>>, child: nat, parent: nat)
    requires Consistent(elements, a) && Consistent(elements, b) && |a| == |b|
    requires child < |a| && parent < |a|
    requires forall j :: 0 <= j < |a| ==> Root(b, j) == if Root(a, j) == child then parent else Root(a, j)
    ensures PartitionOf(elements, b) == MergeInto(PartitionOf(elements, a), a[child].value, a[parent].value)
  {
    var loser, winner := a[child].value, a[parent].value;
    forall w | w in elements
      ensures Representative(elements, b, w) ==
        if Representative(elements, a, w) == loser then winner else Representative(elements, a, w)
    {
      RedirectedRepresentative(elements, a, b, child, parent, w);
    }
    PartitionLookups(elements, a);
    PartitionLookups(elements, b);
    MergeIntoPointwise(PartitionOf(elements, a), PartitionOf(elements, b), loser, winner);
  }

  /** Attaching the root of lower rank under the other root merges the first
      root's partition into the second's. */
  lemma LinkMergesPartition<T>(elements: map<T, nat>, nodes: seq<SubSet<T>>, child: nat, parent: nat)
    requires Consistent(elements, nodes) && child < |nodes| && parent < |nodes|
    requires nodes[child].parent.None? && nodes[parent].parent.None?
    requires nodes[child].rank < nodes[parent].rank
    ensures var linked := Link(nodes, child, parent);
      && Consistent(elements, linked)
      && PartitionOf(elements, linked) ==
           MergeInto(PartitionOf(elements, nodes), nodes[child].value, nodes[parent].value)
      && linked[child].parent == Some(parent)
      && |Roots(linked)| == |Roots(nodes)| - 1
  {
    var linked := Link(nodes, child, parent);
    ValuesKeptIndexed(elements, nodes, linked);
    LinkKeepsForest(nodes, child, parent);
    forall j | 0 <= j < |nodes|
      ensures Root(linked, j) == if Root(nodes, j) == child then parent else Root(nodes, j)
    {
      LinkRedirectsRoot(nodes, child, parent, j);
    }
    RedirectMergesPartition(elements, nodes, linked, child, parent);
  }

  /** Attaching a root under a root of the same rank and then raising the
      survivor's rank merges the first root's partition into the second's. */
  lemma LinkEqualRanksMergesPartition<T>(elements: map<T, nat>, nodes: seq<SubSet<T>>, child: nat, parent: nat)
    requires Consistent(elements, nodes) && child < |nodes| && parent < |nodes| && child != parent
    requires nodes[child].parent.None? && nodes[parent].parent.None?
    requires nodes[child].rank == nodes[parent].rank
    ensures var merged := Promote(Link(nodes, child, parent), parent);
      && Consistent(elements, merged)
      && PartitionOf(elements, merged) ==
           MergeInto(PartitionOf(elements, nodes), nodes[child].value, nodes[parent].value)
      && merged[child].parent == Some(parent)
      && |Roots(merged)| == |Roots(nodes)| - 1
  {
    var merged := Promote(Link(nodes, child, parent), parent);
    LinkEqualRanks(nodes, child, parent);
    ValuesKeptIndexed(elements, nodes, merged);
    RedirectMergesPartition(elements, nodes, merged, child, parent);
  }

  /** The tie case of union raises the survivor's rank by exactly one and
      leaves every other rank alone. */
  lemma LinkEqualRanksPromotesSurvivor<T>(elements: map<T, nat>, nodes: seq<SubSet<T>>, child: nat, parent: nat)
    requires Indexed(elements, nodes) && child < |nodes| && parent < |nodes| && child != parent
    ensures Indexed(elements, Promote(Link(nodes, child, parent), parent))
    ensures RanksOf(elements, Promote(Link(nodes, child, parent), parent)) ==
      RanksOf(elements, nodes)[nodes[parent].value := RankIn(RanksOf(elements, nodes), nodes[parent].value) + 1]
  {
    var merged := Promote(Link(nodes, child, parent), parent);
    ValuesKeptIndexed(elements, nodes, merged);
    var ranks, ranks' := RanksOf(elements, nodes), RanksOf(elements, merged);
    var survivor := nodes[parent].value;
    assert RankIn(ranks, survivor) == nodes[parent].rank;
    forall w | w in elements
      ensures ranks'[w] == ranks[survivor := nodes[parent].rank + 1][w]
    {
      if w != survivor {
        assert elements[w] != parent;
      }
    }
  }

  /** When a and b already share a root, the union finds that root's value
      shared and changes nothing. */
  lemma SameRootIsUnion<T>(elements: map<T, nat>, nodes: seq<SubSet<T>>, a: T, b: T)
    requires Consistent(elements, nodes) && a in elements && b in elements
    requires Root(nodes, elements[a]) == Root(nodes, elements[b])
    ensures Canonical(PartitionOf(elements, nodes))
    ensures UnionPlan(PartitionOf(elements, nodes), RanksOf(elements, nodes), a, b) ==
      Shared(nodes[Root(nodes, elements[a])].value)
  {
    PartitionLookup(elements, nodes, a);
    PartitionLookup(elements, nodes, b);
    PartitionIsCanonical(elements, nodes);
  }

  /** When the roots of a and b differ in rank, the union absorbs the lower
      one (child) into the other (parent); attaching child under parent
      computes exactly the value and the partition that union on the
      caller's view yields. */
  lemma LinkIsUnion<T>(elements: map<T, nat>, nodes: seq<SubSet<T>>, a: T, b: T, child: nat, parent: nat)
    requires Consistent(elements, nodes) && a in elements && b in elements
    requires || (child == Root(nodes, elements[a]) && parent == Root(nodes, elements[b]))
             || (child == Root(nodes, elements[b]) && parent == Root(nodes, elements[a]))
    requires nodes[child].rank < nodes[parent].rank
    ensures Canonical(PartitionOf(elements, nodes))
    ensures UnionPlan(PartitionOf(elements, nodes), RanksOf(elements, nodes), a, b) ==
      Absorbed(nodes[child].value, nodes[parent].value, false)
    ensures var linked := Link(nodes, child, parent);
      var u := UnionResult(PartitionOf(elements, nodes), RanksOf(elements, nodes), a, b);
      && Consistent(elements, linked)
      && u.0 == Some(nodes[child].value)
      && PartitionOf(elements, linked) == u.1
      && PartitionOf(elements, linked)[a] == linked[parent].value
      && linked[child].parent == Some(parent)
      && |Roots(linked)| == |Roots(nodes)| - 1
  {
    PartitionIsCanonical(elements, nodes);
    var reps, ranks := PartitionOf(elements, nodes), RanksOf(elements, nodes);
    var loser, winner := nodes[child].value, nodes[parent].value;
    assert reps[a] == loser || reps[a] == winner by {
      PartitionLookup(elements, nodes, a);
    }
    assert UnionPlan(reps, ranks, a, b) == Absorbed(loser, winner, false) by {
      PartitionLookup(elements, nodes, a);
      PartitionLookup(elements, nodes, b);
      assert ranks[loser] == nodes[child].rank && ranks[winner] == nodes[parent].rank;
      PlanByLowerRank(reps, ranks, a, b, loser, winner);
    }
    AbsorbedResult(reps, ranks, a, b, loser, winner, false);
    assert MergeInto(reps, loser, winner)[a] == winner;
    LinkMergesPartition(elements, nodes, child, parent);
  }

  /** In the same case the ranks are untouched, as union on the caller's
      view says. */
  lemma LinkKeepsRanks<T>(elements: map<T, nat>, nodes: seq<SubSet<T>>, a: T, b: T, child: nat, parent: nat)
    requires Consistent(elements, nodes) && a in elements && b in elements
    requires || (child == Root(nodes, elements[a]) && parent == Root(nodes, elements[b]))
             || (child == Root(nodes, elements[b]) && parent == Root(nodes, elements[a]))
    requires nodes[child].rank < nodes[parent].rank
    ensures RanksOf(elements, Link(nodes, child, parent)) ==
      UnionResult(PartitionOf(elements, nodes), RanksOf(elements, nodes), a, b).2
  {
    var reps, ranks := PartitionOf(elements, nodes), RanksOf(elements, nodes);
    var loser, winner := nodes[child].value, nodes[parent].value;
    assert UnionPlan(reps, ranks, a, b) == Absorbed(loser, winner, false) by {
      PartitionIsCanonical(elements, nodes);
      PartitionLookup(elements, nodes, a);
      PartitionLookup(elements, nodes, b);
      assert ranks[loser] == nodes[child].rank && ranks[winner] == nodes[parent].rank;
      PlanByLowerRank(reps, ranks, a, b, loser, winner);
    }
    AbsorbedResult(reps, ranks, a, b, loser, winner, false);
    ValuesKeptIndexed(elements, nodes, Link(nodes, child, parent));
    SameRanks(elements, Link(nodes, child, parent), nodes);
  }

  /** When the distinct roots one of a and two of b have the same rank, the
      union absorbs two's value into one's and promotes one; attaching two
      under one and raising one's rank computes exactly the value, the
      partition and the ranks that union on the caller's view yields. */
  lemma TieLinkIsUnion<T>(elements: map<T, nat>, nodes: seq<SubSet<T>>, a: T, b: T, one: nat, two: nat)
    requires Consistent(elements, nodes) && a in elements && b in elements
    requires one == Root(nodes, elements[a]) && two == Root(nodes, elements[b]) && one != two
    requires nodes[one].rank == nodes[two].rank
    ensures Canonical(PartitionOf(elements, nodes))
    ensures UnionPlan(PartitionOf(elements, nodes), RanksOf(elements, nodes), a, b) ==
      Absorbed(nodes[two].value, nodes[one].value, true)
    ensures var tied := Promote(Link(nodes, two, one), one);
      var u := UnionResult(PartitionOf(elements, nodes), RanksOf(elements, nodes), a, b);
      && Consistent(elements, tied)
      && u.0 == Some(nodes[two].value)
      && PartitionOf(elements, tied) == u.1
      && PartitionOf(elements, tied)[a] == tied[one].value
      && tied[two].parent == Some(one)
      && |Roots(tied)| == |Roots(nodes)| - 1
  {
    PartitionIsCanonical(elements, nodes);
    var reps, ranks := PartitionOf(elements, nodes), RanksOf(elements, nodes);
    var loser, winner := nodes[two].value, nodes[one].value;
    assert reps[a] == winner by {
      PartitionLookup(elements, nodes, a);
    }
    assert UnionPlan(reps, ranks, a, b) == Absorbed(loser, winner, true) by {
      PartitionLookup(elements, nodes, b);
      assert ranks[winner] == nodes[one].rank && ranks[loser] == nodes[two].rank;
      PlanByEqualRank(reps, ranks, a, b, loser, winner);
    }
    AbsorbedResult(reps, ranks, a, b, loser, winner, true);
    assert MergeInto(reps, loser, winner)[a] == winner;
    LinkEqualRanksMergesPartition(elements, nodes, two, one);
  }

  /** In the same tie case, raising one's rank after the link yields exactly
      the ranks that union on the caller's view yields. */
  lemma TiePromotesRank<T>(elements: map<T, nat>, nodes: seq<SubSet<T>>, a: T, b: T, one: nat, two: nat)
    requires Consistent(elements, nodes) && a in elements && b in elements
    requires one == Root(nodes, elements[a]) && two == Root(nodes, elements[b]) && one != two
    requires nodes[one].rank == nodes[two].rank
    ensures RanksOf(elements, Promote(Link(nodes, two, one), one)) ==
      UnionResult(PartitionOf(elements, nodes), RanksOf(elements, nodes), a, b).2
  {
    var reps, ranks := PartitionOf(elements, nodes), RanksOf(elements, nodes);
    var loser, winner := nodes[two].value, nodes[one].value;
    assert UnionPlan(reps, ranks, a, b) == Absorbed(loser, winner, true) by {
      PartitionIsCanonical(elements, nodes);
      PartitionLookup(elements, nodes, a);
      PartitionLookup(elements, nodes, b);
      assert ranks[winner] == nodes[one].rank && ranks[loser] == nodes[two].rank;
      PlanByEqualRank(reps, ranks, a, b, loser, winner);
    }
    AbsorbedResult(reps, ranks, a, b, loser, winner, true);
    LinkEqualRanksPromotesSurvivor(elements, nodes, two, one);
  }

  /** A disjoint set over element values of type T. */
  class DisjointSet<T(==)> {
    /** The lookup table: element value to the index of its node. */
    var elements: map<T, nat>
    /** The node arena. */
    var nodes: seq<SubSet<T>>

    /** The arena is a ranked forest and the table indexes it exactly. */
    ghost predicate Valid()
      reads this
    {
      Consistent(elements, nodes)
    }

    /** The partition as the caller sees it. */
    ghost function Partition(): map<T, T>
      reads this
      requires Valid()
    {
      PartitionOf(elements, nodes)
    }

    /** The ranks as the caller sees them. */
    ghost function Ranks(): map<T, nat>
      reads this
      requires Valid()
    {
      RanksOf(elements, nodes)
    }

    /** The value of the parent of v's node, if it has a parent. */
    ghost function ParentOf(v: T): Option<T>
      reads this
      requires Valid() && v in elements
    {
      match nodes[elements[v]].parent
      case None => None
      case Some(p) => Some(nodes[p].value)
    }

    /** An empty structure. */
    constructor ()
      ensures Valid()
      ensures elements == map[] && nodes == []
      ensures Partition() == map[] && Ranks() == map[]
    {
      elements := map[];
      nodes := [];
    }

    /** Registers value as a singleton partition of rank 0. */
    method MakeSet(value: T)
      requires Valid() && value !in elements
      modifies this
      ensures Valid()
      ensures elements == old(elements)[value := |old(nodes)|]
      ensures nodes == old(nodes) + [NewSubSet(value)]
      ensures Partition() == old(Partition())[value := value]
      ensures Ranks() == old(Ranks())[value := 0]
      ensures ParentOf(value) == None
    {
      AppendKeepsPartition(elements, nodes, value);
      AppendKeepsRanks(elements, nodes, value);
      elements := elements[value := |nodes|];
      nodes := nodes + [NewSubSet(value)];
    }

    /** The representative of value's partition, or None when value is not
        registered. Every node visited on the way to the root is pointed
        directly at the root. */
    method Find(value: T) returns (r: Option<T>)
      requires Valid()
      modifies this
      ensures Valid()
      ensures elements == old(elements)
      ensures r.None? <==> value !in elements
      ensures value !in elements ==> nodes == old(nodes)
      ensures value in elements ==> r == Some(old(Partition())[value])
      ensures value in elements ==> r.value in elements && elements[r.value] == Root(old(nodes), elements[value])
      ensures value in elements ==>
        nodes == Compress(old(nodes), Path(old(nodes), elements[value]), Root(old(nodes), elements[value]))
      ensures value in elements ==>
        ParentOf(value) == if r == Some(value) then None else r
      ensures Partition() == old(Partition()) && Ranks() == old(Ranks())
      ensures Roots(nodes) == Roots(old(nodes))
    {
      if value !in elements {
        return None;
      }
      var start := elements[value];
      ghost var before := nodes;
      var root, changed := WalkToRoot(start);
      CompressPath(changed, root);
      CompressKeepsPartition(elements, before, value);
      CompressKeepsForest(before, start);
      PartitionLookup(elements, before, value);
      r := Some(nodes[root].value);
    }

    /** Follows parent links from node start up to its root, listing every
        node it leaves on the way. */
    method WalkToRoot(start: nat) returns (root: nat, visited: seq<nat>)
      requires RankedForest(nodes) && start < |nodes|
      ensures root == Root(nodes, start) && visited == Path(nodes, start)
      ensures root < |nodes| && forall m :: 0 <= m < |visited| ==> visited[m] < |nodes|
    {
      var arena := nodes;
      root := start;
      visited := [];
      while arena[root].parent.Some?
        invariant root < |arena|
        invariant forall m :: 0 <= m < |visited| ==> visited[m] < |arena|
        invariant Root(arena, root) == Root(arena, start)
        invariant visited + Path(arena, root) == Path(arena, start)
        decreases MaxRank(arena) - arena[root].rank
      {
        var parent := arena[root].parent.value;
        assert Path(arena, root) == [root] + Path(arena, parent);
        assert (visited + [root]) + Path(arena, parent) == visited + ([root] + Path(arena, parent));
        visited := visited + [root];
        root := parent;
      }
    }

    /** Points every node listed in path directly at root, one node at a
        time; nothing else changes. */
    method CompressPath(path: seq<nat>, root: nat)
      requires forall m :: 0 <= m < |path| ==> path[m] < |nodes|
      modifies this
      ensures elements == old(elements)
      ensures nodes == Compress(old(nodes), path, root)
    {
      for k := 0 to |path|
        invariant elements == old(elements)
        invariant |nodes| == |old(nodes)|
        invariant forall j :: 0 <= j < |nodes| ==>
          nodes[j] == if j in path[..k] then old(nodes)[j].(parent := Some(root)) else old(nodes)[j]
      {
        var n := path[k];
        assert path[..k + 1] == path[..k] + [n];
        nodes := nodes[n := nodes[n].(parent := Some(root))];
      }
      assert path[..|path|] == path;
    }

    /** Merges the partitions of a and b by rank, as UnionResult describes:
        None when either is unregistered; otherwise the representative that
        no longer heads its tree, or the shared representative when there
        was one already. Both finds compress their paths first. */
    method Union(a: T, b: T) returns (r: Option<T>)
      requires Valid()
      modifies this
      ensures Valid()
      ensures elements == old(elements) && |nodes| == |old(nodes)|
      ensures r == UnionResult(old(Partition()), old(Ranks()), a, b).0
      ensures Partition() == UnionResult(old(Partition()), old(Ranks()), a, b).1
      ensures Ranks() == UnionResult(old(Partition()), old(Ranks()), a, b).2
      ensures a !in elements ==> nodes == old(nodes)
      ensures a in elements && b !in elements ==>
        nodes == Compress(old(nodes), Path(old(nodes), elements[a]), Root(old(nodes), elements[a]))
      ensures a in elements && b in elements && old(Partition())[a] == old(Partition())[b] ==>
        Roots(nodes) == Roots(old(nodes))
      ensures a in elements && b in elements && old(Partition())[a] != old(Partition())[b] ==>
        && r.Some? && r.value in elements
        && ParentOf(r.value) == Some(Partition()[a])
        && |Roots(nodes)| == |Roots(old(nodes))| - 1
      ensures a in elements && b in elements ==>
        var found := FindCompress(FindCompress(old(nodes), elements[a]), elements[b]);
        nodes == LinkByRank(found, Root(found, elements[a]), Root(found, elements[b]))
    {
      ghost var initial := nodes;
      var rootOne := Find(a);
      if rootOne.None? {
        return None;
      }
      ghost var between := nodes;
      var rootTwo := Find(b);
      if rootTwo.None? {
        return None;
      }
      CompressKeepsRoot(initial, elements[a], elements[a]);
      CompressKeepsRoot(between, elements[b], elements[a]);
      CompressKeepsRoot(between, elements[b], elements[b]);
      r := LinkRoots(a, b, rootOne.value, rootTwo.value);
    }

    /** The linking half of Union, once both finds have returned the
        representatives rootOne of a and rootTwo of b. */
    method LinkRoots(a: T, b: T, rootOne: T, rootTwo: T) returns (r: Option<T>)
      requires Valid() && a in elements && b in elements
      requires rootOne in elements && elements[rootOne] == Root(nodes, elements[a])
      requires rootTwo in elements && elements[rootTwo] == Root(nodes, elements[b])
      modifies this
      ensures Valid()
      ensures elements == old(elements) && |nodes| == |old(nodes)|
      ensures r == UnionResult(old(Partition()), old(Ranks()), a, b).0
      ensures Partition() == UnionResult(old(Partition()), old(Ranks()), a, b).1
      ensures Ranks() == UnionResult(old(Partition()), old(Ranks()), a, b).2
      ensures rootOne == rootTwo ==> Roots(nodes) == Roots(old(nodes))
      ensures rootOne != rootTwo ==>
        && r.Some? && r.value in elements
        && ParentOf(r.value) == Some(Partition()[a])
        && |Roots(nodes)| == |Roots(old(nodes))| - 1
      ensures nodes == LinkByRank(old(nodes), Root(old(nodes), elements[a]), Root(old(nodes), elements[b]))
    {
      var one := elements[rootOne];
      var two := elements[rootTwo];
      var rankOne := nodes[one].rank;
      var rankTwo := nodes[two].rank;
      if rootOne == rootTwo {
        SameRootIsUnion(elements, nodes, a, b);
        return Some(rootOne);
      }
      if rankOne < rankTwo {
        r := AttachRoot(a, b, one, two);
      } else if rankOne > rankTwo {
        r := AttachRoot(a, b, two, one);
      } else {
        r := AttachTie(a, b, one, two);
      }
    }

    /** Union when the roots of a and b differ in rank: the lower root
        (child) is attached under the other (parent), whose rank stays. */
    method AttachRoot(a: T, b: T, child: nat, parent: nat) returns (r: Option<T>)
      requires Valid() && a in elements && b in elements
      requires || (child == Root(nodes, elements[a]) && parent == Root(nodes, elements[b]))
               || (child == Root(nodes, elements[b]) && parent == Root(nodes, elements[a]))
      requires nodes[child].rank < nodes[parent].rank
      modifies this
      ensures Valid()
      ensures elements == old(elements) && |nodes| == |old(nodes)|
      ensures r == UnionResult(old(Partition()), old(Ranks()), a, b).0
      ensures Partition() == UnionResult(old(Partition()), old(Ranks()), a, b).1
      ensures Ranks() == UnionResult(old(Partition()), old(Ranks()), a, b).2
      ensures r.Some? && r.value in elements
      ensures ParentOf(r.value) == Some(Partition()[a])
      ensures |Roots(nodes)| == |Roots(old(nodes))| - 1
      ensures nodes == Link(old(nodes), child, parent)
    {
      LinkIsUnion(elements, nodes, a, b, child, parent);
      LinkKeepsRanks(elements, nodes, a, b, child, parent);
      r := Some(nodes[child].value);
      nodes := Link(nodes, child, parent);
    }

    /** Union when the distinct roots of a and b have equal rank: b's root is
        attached under a's root, whose rank rises by one. */
    method AttachTie(a: T, b: T, one: nat, two: nat) returns (r: Option<T>)
      requires Valid() && a in elements && b in elements
      requires one == Root(nodes, elements[a]) && two == Root(nodes, elements[b]) && one != two
      requires nodes[one].rank == nodes[two].rank
      modifies this
      ensures Valid()
      ensures elements == old(elements) && |nodes| == |old(nodes)|
      ensures r == UnionResult(old(Partition()), old(Ranks()), a, b).0
      ensures Partition() == UnionResult(old(Partition()), old(Ranks()), a, b).1
      ensures Ranks() == UnionResult(old(Partition()), old(Ranks()), a, b).2
      ensures r.Some? && r.value in elements
      ensures ParentOf(r.value) == Some(Partition()[a])
      ensures |Roots(nodes)| == |Roots(old(nodes))| - 1
      ensures nodes == Promote(Link(old(nodes), two, one), one)
    {
      TieLinkIsUnion(elements, nodes, a, b, one, two);
      TiePromotesRank(elements, nodes, a, b, one, two);
      r := Some(nodes[two].value);
      nodes := Link(nodes, two, one);
      nodes := Promote(nodes, one);
    }
  }
}
