/**
 The disjoint-set structure as its caller sees it: a map from every
 registered value to the representative of its partition, and a map from
 every registered value to the rank of its node. Union is defined here on
 that view alone; module DisjointSets proves that the structure's Union
 method computes exactly this.
 */
module Partitions {
  import opened Forest

  /** Every representative is registered and represents itself. */
  ghost predicate Canonical<T>(reps: map<T, T>)
  {
    forall v :: v in reps ==> reps[v] in reps && reps[reps[v]] == reps[v]
  }

  /** The partition represented by loser is folded into the one represented
      by winner; every other value keeps its representative. */
  ghost function MergeInto<T>(reps: map<T, T>, loser: T, winner: T): map<T, T>
  {
    map v | v in reps :: if reps[v] == loser then winner else reps[v]
  }

  /** A view that sends every value where MergeInto would is MergeInto's view. */
  lemma MergeIntoPointwise<T>(before: map<T, T>, after: map<T, T>, loser: T, winner: T)
    requires after.Keys == before.Keys
    requires forall v :: v in before ==> after[v] == if before[v] == loser then winner else before[v]
    ensures after == MergeInto(before, loser, winner)
  {
  }

  /** The rank of v; every representative of a canonical view is
      registered, so the default 0 is never taken there. */
  ghost function RankIn<T>(ranks: map<T, nat>, v: T): nat
  {
    if v in ranks then ranks[v] else 0
  }

  /** What a union decides, before any map is rebuilt: one of the values is
      unregistered; both already share rep; or loser's partition is folded
      into winner's, and promoted says whether winner's rank rises. */
  datatype Outcome<T> = Unregistered | Shared(rep: T) | Absorbed(loser: T, winner: T, promoted: bool)

  /** Union by rank on the caller's view: the representative of lower rank
      is absorbed into the other; on a tie b's representative is absorbed
      into a's, whose rank rises by one. */
  ghost function UnionPlan<T>(reps: map<T, T>, ranks: map<T, nat>, a: T, b: T): (plan: Outcome<T>)
    ensures plan.Unregistered? <==> a !in reps || b !in reps
    ensures plan.Shared? <==> a in reps && b in reps && reps[a] == reps[b]
    ensures plan.Shared? ==> plan.rep == reps[a]
    ensures plan.Absorbed? ==>
      && a in reps && b in reps && plan.loser != plan.winner
      && {plan.loser, plan.winner} == {reps[a], reps[b]}
      && RankIn(ranks, plan.loser) <= RankIn(ranks, plan.winner)
      && (plan.promoted <==> RankIn(ranks, plan.loser) == RankIn(ranks, plan.winner))
      && (plan.promoted ==> plan.loser == reps[b])
  {
    if a !in reps || b !in reps then Unregistered
    else
      var one, two := reps[a], reps[b];
      if one == two then Shared(one)
      else if RankIn(ranks, one) < RankIn(ranks, two) then Absorbed(one, two, false)
      else if RankIn(ranks, one) > RankIn(ranks, two) then Absorbed(two, one, false)
      else Absorbed(two, one, true)
  }

  /** The result of a union on the caller's view: the value returned (None
      when either value is unregistered, otherwise the shared or the absorbed
      representative), the new partition and the new ranks. */
  ghost function UnionResult<T>(reps: map<T, T>, ranks: map<T, nat>, a: T, b: T): (u: (Option<T>, map<T, T>, map<T, nat>))
    ensures u.0.None? <==> a !in reps || b !in reps
    ensures u.0.None? ==> u.1 == reps && u.2 == ranks
    ensures u.0.Some? ==> a in reps && b in reps && (u.0.value == reps[a] || u.0.value == reps[b])
    ensures u.1.Keys == reps.Keys
    ensures a in reps && b in reps ==>
      forall v :: v in reps && reps[v] != reps[a] && reps[v] != reps[b] ==> u.1[v] == reps[v]
  {
    match UnionPlan(reps, ranks, a, b)
    case Unregistered => (None, reps, ranks)
    case Shared(rep) => (Some(rep), reps, ranks)
    case Absorbed(loser, winner, promoted) =>
      (Some(loser), MergeInto(reps, loser, winner), if promoted then ranks[winner := RankIn(ranks, winner) + 1] else ranks)
  }

  /** The result of a union whose plan absorbs loser into winner. */
  lemma AbsorbedResult<T>(reps: map<T, T>, ranks: map<T, nat>, a: T, b: T, loser: T, winner: T, promoted: bool)
    requires UnionPlan(reps, ranks, a, b) == Absorbed(loser, winner, promoted)
    ensures UnionResult(reps, ranks, a, b).0 == Some(loser)
    ensures UnionResult(reps, ranks, a, b).1 == MergeInto(reps, loser, winner)
    ensures UnionResult(reps, ranks, a, b).2 ==
      if promoted then ranks[winner := RankIn(ranks, winner) + 1] else ranks
  {
  }

  /** Representatives that differ in rank: the lower one is absorbed. */
  lemma PlanByLowerRank<T>(reps: map<T, T>, ranks: map<T, nat>, a: T, b: T, loser: T, winner: T)
    requires Canonical(reps) && reps.Keys == ranks.Keys && a in reps && b in reps
    requires (loser == reps[a] && winner == reps[b]) || (loser == reps[b] && winner == reps[a])
    requires ranks[loser] < ranks[winner]
    ensures UnionPlan(reps, ranks, a, b) == Absorbed(loser, winner, false)
  {
  }

  /** Distinct representatives of equal rank: b's is absorbed into a's, which
      is promoted. */
  lemma PlanByEqualRank<T>(reps: map<T, T>, ranks: map<T, nat>, a: T, b: T, loser: T, winner: T)
    requires Canonical(reps) && reps.Keys == ranks.Keys && a in reps && b in reps
    requires loser == reps[b] && winner == reps[a] && loser != winner
    requires ranks[loser] == ranks[winner]
    ensures UnionPlan(reps, ranks, a, b) == Absorbed(loser, winner, true)
  {
  }

  /** Folding one representative's partition into another's keeps the view
      canonical and leaves exactly one representative fewer. */
  lemma MergeKeepsCanonical<T>(reps: map<T, T>, loser: T, winner: T)
    requires Canonical(reps) && loser in reps && winner in reps && loser != winner
    requires reps[loser] == loser && reps[winner] == winner
    ensures Canonical(MergeInto(reps, loser, winner))
    ensures MergeInto(reps, loser, winner).Keys == reps.Keys
    ensures MergeInto(reps, loser, winner).Values == reps.Values - {loser}
    ensures |MergeInto(reps, loser, winner).Values| == |reps.Values| - 1
  {
    var merged := MergeInto(reps, loser, winner);
    forall w | w in reps.Values - {loser}
      ensures w in merged.Values
    {
      var v :| v in reps && reps[v] == w;
      assert merged[v] == w;
    }
    forall w | w in merged.Values
      ensures w in reps.Values - {loser}
    {
      var v :| v in merged && merged[v] == w;
      if reps[v] == loser {
        assert reps[winner] == winner;
      } else {
        assert reps[v] == w;
      }
    }
    assert merged.Values == reps.Values - {loser};
    assert loser in reps.Values by {
      assert reps[loser] == loser;
    }
  }

  /** After a union of two registered values they share a representative,
      and the view stays canonical over the same values. */
  lemma UnionJoins<T>(reps: map<T, T>, ranks: map<T, nat>, a: T, b: T)
    requires Canonical(reps) && reps.Keys == ranks.Keys && a in reps && b in reps
    ensures var u := UnionResult(reps, ranks, a, b);
      && u.0.Some?
      && Canonical(u.1) && u.1.Keys == reps.Keys && u.2.Keys == ranks.Keys
      && u.1[a] == u.1[b]
  {
    var one, two := reps[a], reps[b];
    if one != two {
      var u := UnionResult(reps, ranks, a, b);
      if ranks[one] < ranks[two] {
        assert u.1 == MergeInto(reps, one, two);
        MergeKeepsCanonical(reps, one, two);
      } else {
        assert u.1 == MergeInto(reps, two, one);
        MergeKeepsCanonical(reps, two, one);
      }
    }
  }

  /** A union of two values in different partitions returns one of their two
      representatives, and that one is no longer a representative afterwards:
      the number of partitions drops by exactly one. */
  lemma UnionAbsorbsReturned<T>(reps: map<T, T>, ranks: map<T, nat>, a: T, b: T)
    requires Canonical(reps) && reps.Keys == ranks.Keys && a in reps && b in reps
    requires reps[a] != reps[b]
    ensures var u := UnionResult(reps, ranks, a, b);
      && u.0.Some? && (u.0.value == reps[a] || u.0.value == reps[b])
      && u.1.Values == reps.Values - {u.0.value}
      && |u.1.Values| == |reps.Values| - 1
  {
    var one, two := reps[a], reps[b];
    var u := UnionResult(reps, ranks, a, b);
    if ranks[one] < ranks[two] {
      assert u == (Some(one), MergeInto(reps, one, two), ranks);
      MergeKeepsCanonical(reps, one, two);
    } else {
      assert u.0 == Some(two) && u.1 == MergeInto(reps, two, one);
      MergeKeepsCanonical(reps, two, one);
    }
  }

  /** Two values that share a representative keep sharing one through any
      later union. */
  lemma UnionKeepsJoined<T>(reps: map<T, T>, ranks: map<T, nat>, x: T, y: T, a: T, b: T)
    requires Canonical(reps) && reps.Keys == ranks.Keys && x in reps && y in reps
    requires reps[x] == reps[y]
    ensures UnionResult(reps, ranks, a, b).1[x] == UnionResult(reps, ranks, a, b).1[y]
  {
  }

  /** A union of a value with itself returns its representative and changes
      nothing. */
  lemma UnionWithItself<T>(reps: map<T, T>, ranks: map<T, nat>, a: T)
    requires Canonical(reps) && reps.Keys == ranks.Keys && a in reps
    ensures UnionResult(reps, ranks, a, a) == (Some(reps[a]), reps, ranks)
  {
  }
}
