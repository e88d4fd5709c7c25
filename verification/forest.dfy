/**
 The node arena of the disjoint-set structure and the pure facts about it.

 Every node the structure owns lives at an index of a sequence (the arena);
 a parent link is the index of the parent node, and a node without one is
 the root, i.e. the representative, of its tree. The functions here describe
 what the structure's operations compute; the lemmas say that those
 operations keep the arena a forest and what they do to each node's root.
 */
module Forest {

  datatype Option<T> = None | Some(value: T)

  /** A node: its rank, its own copy of the element value, and the index of
      its parent node, if it has one. */
  datatype SubSet<T> = SubSet(rank: nat, value: T, parent: Option<nat>)

  /** A fresh singleton node: rank 0 and no parent. */
  function NewSubSet<T>(value: T): (s: SubSet<T>)
    ensures s.rank == 0 && s.value == value && s.parent.None?
  {
    SubSet(0, value, None)
  }

  /** Every parent link names a node of the arena whose rank is strictly
      higher. Union by rank and path compression both keep this, and it is
      what makes the parent relation free of cycles. */
  ghost predicate RankedForest<T>(nodes: seq<SubSet<T>>)
  {
    forall i {:trigger nodes[i].parent} :: 0 <= i < |nodes| && nodes[i].parent.Some? ==>
      nodes[i].parent.value < |nodes| && nodes[i].rank < nodes[nodes[i].parent.value].rank
  }

  /** An upper bound on every rank in the arena (the termination measure of
      every walk towards a root). */
  ghost function MaxRank<T>(nodes: seq<SubSet<T>>): (m: nat)
    ensures forall j :: 0 <= j < |nodes| ==> nodes[j].rank <= m
  {
    if nodes == [] then 0
    else
      var rest := MaxRank(nodes[1..]);
      assert forall j :: 1 <= j < |nodes| ==> nodes[j] == nodes[1..][j - 1];
      if nodes[0].rank > rest then nodes[0].rank else rest
  }

  /** The root reached from node i by following parent links. */
  ghost function Root<T>(nodes: seq<SubSet<T>>, i: nat): (r: nat)
    requires RankedForest(nodes) && i < |nodes|
    ensures r < |nodes| && nodes[r].parent.None?
    ensures nodes[i].parent.None? ==> r == i
    ensures nodes[i].parent.Some? ==> nodes[i].rank < nodes[r].rank
    decreases MaxRank(nodes) - nodes[i].rank
  {
    match nodes[i].parent
    case None => i
    case Some(p) => Root(nodes, p)
  }

  /** The nodes visited on the walk from node i to its root, in order,
      the root itself excluded. */
  ghost function Path<T>(nodes: seq<SubSet<T>>, i: nat): (p: seq<nat>)
    requires RankedForest(nodes) && i < |nodes|
    ensures p == [] <==> nodes[i].parent.None?
    ensures p != [] ==> p[0] == i
    decreases MaxRank(nodes) - nodes[i].rank
  {
    match nodes[i].parent
    case None => []
    case Some(p) => [i] + Path(nodes, p)
  }

  /** The nodes without a parent: one per partition. */
  ghost function Roots<T>(nodes: seq<SubSet<T>>): set<nat>
  {
    set j: nat | j < |nodes| && nodes[j].parent.None?
  }

  /** Path compression: every node listed in path is pointed directly at root. */
  function Compress<T>(nodes: seq<SubSet<T>>, path: seq<nat>, root: nat): (c: seq<SubSet<T>>)
    ensures |c| == |nodes|
    ensures forall j :: 0 <= j < |nodes| ==> c[j].rank == nodes[j].rank && c[j].value == nodes[j].value
    ensures forall j :: 0 <= j < |nodes| && j in path ==> c[j].parent == Some(root)
    ensures forall j :: 0 <= j < |nodes| && j !in path ==> c[j] == nodes[j]
  {
    seq(|nodes|, j requires 0 <= j < |nodes| =>
      if j in path then nodes[j].(parent := Some(root)) else nodes[j])
  }

  /** Attaching node child under node parent. */
  function Link<T>(nodes: seq<SubSet<T>>, child: nat, parent: nat): (linked: seq<SubSet<T>>)
    requires child < |nodes|
    ensures |linked| == |nodes| && linked[child].parent == Some(parent)
    ensures linked[child].rank == nodes[child].rank && linked[child].value == nodes[child].value
    ensures forall j :: 0 <= j < |nodes| && j != child ==> linked[j] == nodes[j]
  {
    nodes[child := nodes[child].(parent := Some(parent))]
  }

  /** Raising the rank of node i by one. */
  function Promote<T>(nodes: seq<SubSet<T>>, i: nat): (promoted: seq<SubSet<T>>)
    requires i < |nodes|
    ensures |promoted| == |nodes| && promoted[i].rank == nodes[i].rank + 1
    ensures promoted[i].value == nodes[i].value && promoted[i].parent == nodes[i].parent
    ensures forall j :: 0 <= j < |nodes| && j != i ==> promoted[j] == nodes[j]
  {
    nodes[i := nodes[i].(rank := nodes[i].rank + 1)]
  }

  /** The arena a find from node i leaves behind: every node of the walk
      points directly at the root. */
  ghost function FindCompress<T>(nodes: seq<SubSet<T>>, i: nat): (c: seq<SubSet<T>>)
    requires RankedForest(nodes) && i < |nodes|
    ensures RankedForest(c) && |c| == |nodes| && Roots(c) == Roots(nodes)
    ensures forall j :: 0 <= j < |nodes| && j in Path(nodes, i) ==> c[j].parent == Some(Root(nodes, i))
  {
    CompressKeepsForest(nodes, i);
    Compress(nodes, Path(nodes, i), Root(nodes, i))
  }

  /** The link union by rank makes between the roots one (of a) and two (of
      b): none when they coincide; otherwise the root of lower rank goes under
      the other, and on a tie two goes under one, whose rank rises by one. */
  ghost function LinkByRank<T>(nodes: seq<SubSet<T>>, one: nat, two: nat): (linked: seq<SubSet<T>>)
    requires one < |nodes| && two < |nodes| && nodes[one].parent.None? && nodes[two].parent.None?
    ensures |linked| == |nodes|
    ensures one == two ==> linked == nodes
    ensures forall j :: 0 <= j < |nodes| && j != one && j != two ==> linked[j] == nodes[j]
    ensures forall j :: 0 <= j < |nodes| ==> linked[j].value == nodes[j].value
    ensures one != two ==> (linked[one].parent == Some(two) <==> nodes[one].rank < nodes[two].rank)
    ensures one != two ==> (linked[two].parent == Some(one) <==> nodes[one].rank >= nodes[two].rank)
    ensures one != two ==> (linked[one].rank == nodes[one].rank + 1 <==> nodes[one].rank == nodes[two].rank)
  {
    if one == two then nodes
    else if nodes[one].rank < nodes[two].rank then Link(nodes, one, two)
    else if nodes[one].rank > nodes[two].rank then Link(nodes, two, one)
    else Promote(Link(nodes, two, one), one)
  }

  /** Every node on the walk from i is a non-root node of the arena whose
      root is the root of i; i is on its own walk exactly when it is not a root. */
  lemma {:induction false} PathLeadsToRoot<T>(nodes: seq<SubSet<T>>, i: nat)
    requires RankedForest(nodes) && i < |nodes|
    ensures forall j :: j in Path(nodes, i) ==>
      j < |nodes| && nodes[j].parent.Some? && Root(nodes, j) == Root(nodes, i)
    ensures i in Path(nodes, i) <==> nodes[i].parent.Some?
    decreases MaxRank(nodes) - nodes[i].rank
  {
    match nodes[i].parent
    case None =>
    case Some(p) =>
      PathLeadsToRoot(nodes, p);
  }

  /** The walk from i is a chain of parent links: each recorded node's parent
      is the next recorded node, and the last one's parent is the root. */
  lemma {:induction false} PathFollowsLinks<T>(nodes: seq<SubSet<T>>, i: nat)
    requires RankedForest(nodes) && i < |nodes|
    ensures forall k :: 0 <= k < |Path(nodes, i)| ==> Path(nodes, i)[k] < |nodes|
    ensures forall k :: 0 <= k < |Path(nodes, i)| - 1 ==> nodes[Path(nodes, i)[k]].parent == Some(Path(nodes, i)[k + 1])
    ensures Path(nodes, i) != [] ==> nodes[Path(nodes, i)[|Path(nodes, i)| - 1]].parent == Some(Root(nodes, i))
    decreases MaxRank(nodes) - nodes[i].rank
  {
    match nodes[i].parent
    case None =>
    case Some(p) =>
      PathFollowsLinks(nodes, p);
      var path, rest := Path(nodes, i), Path(nodes, p);
      assert path == [i] + rest;
      assert Root(nodes, i) == Root(nodes, p);
      forall k | 0 <= k < |path| - 1
        ensures nodes[path[k]].parent == Some(path[k + 1])
      {
        if k > 0 {
          assert path[k] == rest[k - 1] && path[k + 1] == rest[k];
        }
      }
      if rest == [] {
        assert Root(nodes, p) == p;
      } else {
        assert path[|path| - 1] == rest[|rest| - 1];
      }
  }

  /** A root depends only on the parent links: two forests that agree on the
      links of the first one's nodes have the same roots there. */
  lemma {:induction false} RootDependsOnlyOnLinks<T>(a: seq<SubSet<T>>, b: seq<SubSet<T>>, j: nat)
    requires RankedForest(a) && RankedForest(b) && j < |a| <= |b|
    requires forall k :: 0 <= k < |a| ==> a[k].parent == b[k].parent
    ensures Root(b, j) == Root(a, j)
    decreases MaxRank(a) - a[j].rank
  {
    match a[j].parent
    case None =>
    case Some(p) =>
      RootDependsOnlyOnLinks(a, b, p);
  }

  /** Registering a new value appends a singleton node: the arena stays a
      forest, the new node is its own root, and every other node keeps its root. */
  lemma AppendSingleton<T>(nodes: seq<SubSet<T>>, value: T)
    requires RankedForest(nodes)
    ensures var grown := nodes + [NewSubSet(value)];
      && RankedForest(grown)
      && Root(grown, |nodes|) == |nodes|
      && (forall j :: 0 <= j < |nodes| ==> Root(grown, j) == Root(nodes, j))
      && Roots(grown) == Roots(nodes) + {|nodes|}
  {
    var grown := nodes + [NewSubSet(value)];
    assert RankedForest(grown) by {
      forall i | 0 <= i < |grown| && grown[i].parent.Some?
        ensures grown[i].parent.value < |grown| && grown[i].rank < grown[grown[i].parent.value].rank
      {
        assert i < |nodes| && grown[i] == nodes[i];
      }
    }
    forall j | 0 <= j < |nodes|
      ensures Root(grown, j) == Root(nodes, j)
    {
      RootDependsOnlyOnLinks(nodes, grown, j);
    }
  }

  /** Path compression keeps the arena a ranked forest with the same roots,
      and leaves every compressed node one link below its root. */
  lemma CompressKeepsForest<T>(nodes: seq<SubSet<T>>, i: nat)
    requires RankedForest(nodes) && i < |nodes|
    ensures var c := Compress(nodes, Path(nodes, i), Root(nodes, i));
      && |c| == |nodes|
      && RankedForest(c)
      && Roots(c) == Roots(nodes)
      && (forall j :: 0 <= j < |nodes| ==> c[j].rank == nodes[j].rank && c[j].value == nodes[j].value)
      && (forall j :: 0 <= j < |nodes| && j in Path(nodes, i) ==> c[j].parent == Some(Root(nodes, i)))
      && c[i].parent == (if nodes[i].parent.None? then None else Some(Root(nodes, i)))
  {
    var root := Root(nodes, i);
    var path := Path(nodes, i);
    var c := Compress(nodes, path, root);
    PathLeadsToRoot(nodes, i);
    assert root !in path;
    forall j | 0 <= j < |c| && c[j].parent.Some?
      ensures c[j].parent.value < |c| && c[j].rank < c[c[j].parent.value].rank
    {
      if j in path {
        assert Root(nodes, j) == root;
        assert c[root] == nodes[root];
      } else {
        assert c[j] == nodes[j];
        var p := nodes[j].parent.value;
        assert c[p].rank == nodes[p].rank;
      }
    }
    assert Roots(c) == Roots(nodes) by {
      forall j: nat | j < |nodes|
        ensures c[j].parent.None? <==> nodes[j].parent.None?
      {
        if j in path { assert nodes[j].parent.Some?; }
      }
    }
  }

  /** Path compression keeps the root of every node. */
  lemma {:induction false} CompressKeepsRoot<T>(nodes: seq<SubSet<T>>, i: nat, j: nat)
    requires RankedForest(nodes) && i < |nodes| && j < |nodes|
    ensures RankedForest(Compress(nodes, Path(nodes, i), Root(nodes, i)))
    ensures Root(Compress(nodes, Path(nodes, i), Root(nodes, i)), j) == Root(nodes, j)
    decreases MaxRank(nodes) - nodes[j].rank
  {
    var root := Root(nodes, i);
    var path := Path(nodes, i);
    var c := Compress(nodes, path, root);
    CompressKeepsForest(nodes, i);
    PathLeadsToRoot(nodes, i);
    if j in path {
      assert root !in path;
      assert Root(c, root) == root;
    } else {
      match nodes[j].parent
      case None =>
      case Some(p) =>
        CompressKeepsRoot(nodes, i, p);
    }
  }

  /** Attaching one root under a root of strictly higher rank keeps the arena
      a ranked forest and removes exactly the attached root from the roots. */
  lemma LinkKeepsForest<T>(nodes: seq<SubSet<T>>, child: nat, parent: nat)
    requires RankedForest(nodes) && child < |nodes| && parent < |nodes|
    requires nodes[child].parent.None? && nodes[parent].parent.None?
    requires nodes[child].rank < nodes[parent].rank
    ensures RankedForest(Link(nodes, child, parent))
    ensures Roots(Link(nodes, child, parent)) == Roots(nodes) - {child}
    ensures |Roots(Link(nodes, child, parent))| == |Roots(nodes)| - 1
  {
    assert child in Roots(nodes);
  }

  /** After attaching root child under root parent, every node that reached
      child now reaches parent, and every other node keeps its root. */
  lemma {:induction false} LinkRedirectsRoot<T>(nodes: seq<SubSet<T>>, child: nat, parent: nat, j: nat)
    requires RankedForest(nodes) && child < |nodes| && parent < |nodes| && j < |nodes|
    requires nodes[child].parent.None? && nodes[parent].parent.None?
    requires nodes[child].rank < nodes[parent].rank
    ensures RankedForest(Link(nodes, child, parent))
    ensures Root(Link(nodes, child, parent), j) ==
      if Root(nodes, j) == child then parent else Root(nodes, j)
    decreases MaxRank(nodes) - nodes[j].rank
  {
    LinkKeepsForest(nodes, child, parent);
    var linked := Link(nodes, child, parent);
    if j == child {
      assert Root(linked, parent) == parent;
    } else {
      match nodes[j].parent
      case None =>
      case Some(p) =>
        LinkRedirectsRoot(nodes, child, parent, p);
    }
  }

  /** Raising the rank of a root keeps the arena a ranked forest with the
      same roots. */
  lemma PromoteKeepsForest<T>(nodes: seq<SubSet<T>>, i: nat)
    requires RankedForest(nodes) && i < |nodes| && nodes[i].parent.None?
    ensures RankedForest(Promote(nodes, i))
    ensures Roots(Promote(nodes, i)) == Roots(nodes)
    ensures forall j :: 0 <= j < |nodes| ==> Root(Promote(nodes, i), j) == Root(nodes, j)
  {
    var promoted := Promote(nodes, i);
    forall j | 0 <= j < |nodes|
      ensures Root(promoted, j) == Root(nodes, j)
    {
      RootDependsOnlyOnLinks(nodes, promoted, j);
    }
  }

  /** Attaching child under parent and raising parent's rank are updates of
      two different nodes, so their order does not matter. */
  lemma LinkPromoteCommute<T>(nodes: seq<SubSet<T>>, child: nat, parent: nat)
    requires child < |nodes| && parent < |nodes| && child != parent
    ensures Promote(Link(nodes, child, parent), parent) == Link(Promote(nodes, parent), child, parent)
  {
  }

  /** Linking two roots of equal rank and then raising the surviving root's
      rank (the order in which union does it) is the same as raising first
      and linking after; either way the forest stays ranked, the attached
      root's nodes move to the survivor, and one root disappears. */
  lemma LinkEqualRanks<T>(nodes: seq<SubSet<T>>, child: nat, parent: nat)
    requires RankedForest(nodes) && child < |nodes| && parent < |nodes| && child != parent
    requires nodes[child].parent.None? && nodes[parent].parent.None?
    requires nodes[child].rank == nodes[parent].rank
    ensures Promote(Link(nodes, child, parent), parent) == Link(Promote(nodes, parent), child, parent)
    ensures RankedForest(Link(Promote(nodes, parent), child, parent))
    ensures Roots(Link(Promote(nodes, parent), child, parent)) == Roots(nodes) - {child}
    ensures |Roots(Link(Promote(nodes, parent), child, parent))| == |Roots(nodes)| - 1
    ensures forall j :: 0 <= j < |nodes| ==>
      Root(Link(Promote(nodes, parent), child, parent), j) ==
        if Root(nodes, j) == child then parent else Root(nodes, j)
  {
    var promoted := Promote(nodes, parent);
    LinkPromoteCommute(nodes, child, parent);
    PromoteKeepsForest(nodes, parent);
    LinkKeepsForest(promoted, child, parent);
    forall j | 0 <= j < |nodes|
      ensures Root(Link(promoted, child, parent), j) ==
        if Root(nodes, j) == child then parent else Root(nodes, j)
    {
      LinkRedirectsRoot(promoted, child, parent, j);
    }
  }

  /** No arena has more roots than nodes. */
  lemma {:induction false} RootCountBound<T>(nodes: seq<SubSet<T>>)
    ensures |Roots(nodes)| <= |nodes|
  {
    if nodes != [] {
      var init := nodes[..|nodes| - 1];
      RootCountBound(init);
      assert Roots(nodes) <= Roots(init) + {|nodes| - 1};
      assert Roots(nodes) == Roots(init) + {|nodes| - 1} || Roots(nodes) == Roots(init);
    }
  }
}
