/**
 Least-loaded partitioning of entry groups: `partitionUnifiedEntryGroups` (tsdown.config.ts), with
 Graham's bound for list scheduling against every other placement of the same groups.
 */
module EntryPartition {
  import opened Common

  // ----- placing groups -----

  /** k empty partitions. */
  function Empties<T>(k: nat): seq<seq<T>> { seq(k, _ => []) }

  ghost predicate IsPlacement(placement: seq<nat>, groups: nat, k: nat) {
    |placement| == groups && forall i :: 0 <= i < |placement| ==> placement[i] < k
  }

  /** Put every group, in order, whole, at the end of the partition the placement names. */
  function PlaceAll<T>(groups: seq<seq<T>>, placement: seq<nat>, k: nat): (parts: seq<seq<T>>)
    requires IsPlacement(placement, |groups|, k)
    ensures |parts| == k
    decreases |groups|
  {
    if groups == [] then Empties(k)
    else
      var n := |groups| - 1;
      var parts := PlaceAll(groups[..n], placement[..n], k);
      parts[placement[n] := parts[placement[n]] + groups[n]]
  }

  /** The first partition with the fewest entries. */
  function LeastLoaded<T>(parts: seq<seq<T>>): (least: nat)
    requires parts != []
    ensures least < |parts|
    ensures forall i :: 0 <= i < |parts| ==> |parts[least]| <= |parts[i]|
    ensures forall i :: 0 <= i < least ==> |parts[least]| < |parts[i]|
  {
    if |parts| == 1 then 0
    else
      var least := LeastLoaded(parts[..|parts| - 1]);
      if |parts[|parts| - 1]| < |parts[least]| then |parts| - 1 else least
  }

  /** Where the source puts the groups. */
  function Greedy<T>(groups: seq<seq<T>>, k: nat): (placement: seq<nat>)
    requires k > 0
    ensures IsPlacement(placement, |groups|, k)
    decreases |groups|
  {
    if groups == [] then []
    else
      var placement := Greedy(groups[..|groups| - 1], k);
      placement + [LeastLoaded(PlaceAll(groups[..|groups| - 1], placement, k))]
  }

  /** The partitions the source builds. */
  function Partition<T>(groups: seq<seq<T>>, k: nat): (parts: seq<seq<T>>)
    requires k > 0
    ensures |parts| == k
  {
    PlaceAll(groups, Greedy(groups, k), k)
  }

  /** The inner loop of the source: the first index with the fewest entries. */
  method FindTarget<T>(partitions: seq<seq<T>>) returns (targetIndex: nat)
    ensures partitions == [] ==> targetIndex == 0
    ensures partitions != [] ==> targetIndex == LeastLoaded(partitions)
  {
    targetIndex := 0;
    var index := 1;
    while index < |partitions|
      invariant partitions == [] ==> targetIndex == 0
      invariant partitions != [] ==> index <= |partitions| && targetIndex == LeastLoaded(partitions[..index])
    {
      if |partitions[index]| < |partitions[targetIndex]| {
        targetIndex := index;
      }
      assert partitions[..index + 1][..index] == partitions[..index];
      index := index + 1;
    }
    assert partitions[..|partitions|] == partitions;
  }

  method PartitionUnifiedEntryGroups<T>(entryGroups: seq<seq<T>>, partitionCount: nat)
    returns (result: Result<seq<seq<T>>, string>)
    ensures result.Err? <==> partitionCount == 0 && entryGroups != []
    ensures partitionCount == 0 && entryGroups == [] ==> result == Ok([])
    ensures partitionCount > 0 ==> result == Ok(Partition(entryGroups, partitionCount))
  {
    var partitions: seq<seq<T>> := seq(partitionCount, _ => []);
    for g := 0 to |entryGroups|
      invariant |partitions| == partitionCount && (partitionCount == 0 ==> g == 0)
      invariant partitionCount > 0 ==> partitions == Partition(entryGroups[..g], partitionCount)
    {
      hide Partition, LeastLoaded;
      var targetIndex := FindTarget(partitions);
      if targetIndex >= |partitions| {
        return Err("unified declaration partition count must be positive");
      }
      GreedyStep(entryGroups[..g], entryGroups[g], partitionCount);
      assert entryGroups[..g + 1] == entryGroups[..g] + [entryGroups[g]];
      partitions := partitions[targetIndex := partitions[targetIndex] + entryGroups[g]];
    }
    assert entryGroups[..|entryGroups|] == entryGroups;
    result := Ok(partitions);
  }

  lemma GreedyStep<T>(groups: seq<seq<T>>, group: seq<T>, k: nat)
    requires k > 0
    ensures var parts := Partition(groups, k); var target := LeastLoaded(parts);
      Partition(groups + [group], k) == parts[target := parts[target] + group]
  {
  }

  // ----- every entry once, every group whole -----

  /** The groups placed in partition j, in order. */
  function Gather<T>(groups: seq<seq<T>>, placement: seq<nat>, j: nat): seq<T>
    requires |placement| == |groups|
    decreases |groups|
  {
    if groups == [] then []
    else
      var n := |groups| - 1;
      Gather(groups[..n], placement[..n], j) + (if placement[n] == j then groups[n] else [])
  }

  lemma {:induction false} GroupsStayWhole<T>(groups: seq<seq<T>>, placement: seq<nat>, k: nat, j: nat)
    requires IsPlacement(placement, |groups|, k) && j < k
    ensures PlaceAll(groups, placement, k)[j] == Gather(groups, placement, j)
    decreases |groups|
  {
    if groups != [] { GroupsStayWhole(groups[..|groups| - 1], placement[..|groups| - 1], k, j); }
  }

  lemma {:induction false} FlattenAfterPush<T>(parts: seq<seq<T>>, t: nat, group: seq<T>)
    requires t < |parts|
    ensures multiset(Flatten(parts[t := parts[t] + group])) == multiset(Flatten(parts)) + multiset(group)
    decreases |parts|
  {
    var n := |parts| - 1;
    var after := parts[t := parts[t] + group];
    assert Flatten(parts) == Flatten(parts[..n]) + parts[n] && Flatten(after) == Flatten(after[..n]) + after[n];
    hide Flatten;
    if t == n {
      assert after[..n] == parts[..n];
    } else {
      assert after[..n] == parts[..n][t := parts[t] + group];
      FlattenAfterPush(parts[..n], t, group);
    }
  }

  lemma {:induction false} FlattenEmpties<T>(k: nat)
    ensures Flatten(Empties<T>(k)) == []
  {
    if k > 0 {
      assert Empties<T>(k)[..k - 1] == Empties<T>(k - 1);
      FlattenEmpties<T>(k - 1);
    }
  }

  /** Whatever the placement, the partitions hold every entry of the groups exactly as often. */
  lemma {:induction false} EntriesAreConserved<T>(groups: seq<seq<T>>, placement: seq<nat>, k: nat)
    requires IsPlacement(placement, |groups|, k)
    ensures multiset(Flatten(PlaceAll(groups, placement, k))) == multiset(Flatten(groups))
    decreases |groups|
  {
    if groups == [] {
      FlattenEmpties<T>(k);
    } else {
      var n := |groups| - 1;
      EntriesAreConserved(groups[..n], placement[..n], k);
      FlattenAfterPush(PlaceAll(groups[..n], placement[..n], k), placement[n], groups[n]);
    }
  }

  // ----- loads -----

  lemma {:induction false} FlattenIsAtMost<T>(parts: seq<seq<T>>, most: nat)
    requires forall i :: 0 <= i < |parts| ==> |parts[i]| <= most
    ensures |Flatten(parts)| <= |parts| * most
    decreases |parts|
  {
    if parts != [] {
      var n := |parts| - 1;
      FlattenIsAtMost(parts[..n], most);
      assert (n + 1) * most == n * most + most;
    }
  }

  lemma {:induction false} FlattenIsAtLeast<T>(parts: seq<seq<T>>, least: nat)
    requires forall i :: 0 <= i < |parts| ==> least <= |parts[i]|
    ensures |parts| * least <= |Flatten(parts)|
    decreases |parts|
  {
    if parts != [] {
      var n := |parts| - 1;
      FlattenIsAtLeast(parts[..n], least);
      assert (n + 1) * least == n * least + least;
    }
  }

  lemma {:induction false} TotalLoad<T>(groups: seq<seq<T>>, placement: seq<nat>, k: nat)
    requires IsPlacement(placement, |groups|, k)
    ensures |Flatten(PlaceAll(groups, placement, k))| == |Flatten(groups)|
  {
    EntriesAreConserved(groups, placement, k);
    assert |multiset(Flatten(PlaceAll(groups, placement, k)))| == |multiset(Flatten(groups))|;
  }

  /** Every group fits into some partition of any placement. */
  lemma {:induction false} GroupFits<T>(groups: seq<seq<T>>, placement: seq<nat>, k: nat, g: nat)
    requires IsPlacement(placement, |groups|, k) && g < |groups|
    ensures |groups[g]| <= |PlaceAll(groups, placement, k)[placement[g]]|
    decreases |groups|
  {
    var n := |groups| - 1;
    if g < n {
      GroupFits(groups[..n], placement[..n], k, g);
    }
  }

  /** At most the average of all entries plus the largest group, scaled by the number of partitions. */
  ghost predicate NearAverage(k: nat, load: nat, total: nat, largest: nat) {
    k * load <= total + (k - 1) * largest
  }

  lemma {:induction false} PushStaysNearAverage(k: nat, load: nat, group: nat, total: nat, largest: nat)
    requires k > 0 && k * load <= total && group <= largest
    ensures NearAverage(k, load + group, total + group, largest)
  {
    var spare := largest - group;
    assert (k - 1) * largest == (k - 1) * group + (k - 1) * spare by { assert largest == group + spare; }
    assert (k - 1) * spare >= 0;
    assert k * (load + group) == k * load + k * group;
  }

  lemma EmptyIsNearAverage(k: nat, largest: nat)
    requires k > 0
    ensures NearAverage(k, 0, 0, largest)
  {
  }

  lemma AverageIsBounded(k: nat, load: nat, total: nat, most: nat)
    requires k > 0 && NearAverage(k, load, total, most) && total <= k * most
    ensures k * load <= (2 * k - 1) * most
  {
  }

  /** Greedy partitions are balanced up to the largest group, and close to the average. */
  lemma {:induction false} GreedyIsBalanced<T>(groups: seq<seq<T>>, k: nat, largest: nat)
    requires k > 0 && forall g :: 0 <= g < |groups| ==> |groups[g]| <= largest
    ensures var parts := Partition(groups, k);
      && (forall i, j :: 0 <= i < k && 0 <= j < k ==> |parts[i]| <= |parts[j]| + largest)
      && (forall i :: 0 <= i < k ==> NearAverage(k, |parts[i]|, |Flatten(groups)|, largest))
    decreases |groups|
  {
    if groups == [] {
      EmptyIsNearAverage(k, largest);
    } else {
      var front, last := groups[..|groups| - 1], groups[|groups| - 1];
      GreedyIsBalanced(front, k, largest);
      assert groups == front + [last];
      GreedyStep(front, last, k);
      var parts := Partition(front, k);
      var t := LeastLoaded(parts);
      assert k * |parts[t]| <= |Flatten(front)| by {
        FlattenIsAtLeast(parts, |parts[t]|);
        TotalLoad(front, Greedy(front, k), k);
      }
      PushStaysNearAverage(k, |parts[t]|, |last|, |Flatten(front)|, largest);
      hide Partition, LeastLoaded;
      forall i | 0 <= i < k ensures NearAverage(k, |Partition(groups, k)[i]|, |Flatten(groups)|, largest) {
        if i != t { MoreTotalIsStillNear(k, |parts[i]|, |Flatten(front)|, |last|, largest); }
      }
    }
  }

  lemma MoreTotalIsStillNear(k: nat, load: nat, total: nat, more: nat, largest: nat)
    requires NearAverage(k, load, total, largest)
    ensures NearAverage(k, load, total + more, largest)
  {
  }

  /** Graham's bound: no partition of the source exceeds (2k - 1)/k times the largest partition of any
      other placement of the same groups. */
  lemma {:induction false} GreedyIsWithinGrahamsBound<T>(groups: seq<seq<T>>, k: nat, other: seq<nat>, most: nat, i: nat)
    requires k > 0 && i < k && IsPlacement(other, |groups|, k)
    requires forall j :: 0 <= j < k ==> |PlaceAll(groups, other, k)[j]| <= most
    ensures k * |Partition(groups, k)[i]| <= (2 * k - 1) * most
  {
    hide NearAverage, Partition;
    forall g | 0 <= g < |groups| ensures |groups[g]| <= most { GroupFits(groups, other, k, g); }
    GreedyIsBalanced(groups, k, most);
    assert |Flatten(groups)| <= k * most by {
      FlattenIsAtMost(PlaceAll(groups, other, k), most);
      TotalLoad(groups, other, k);
    }
    AverageIsBounded(k, |Partition(groups, k)[i]|, |Flatten(groups)|, most);
  }

  // ----- the bound cannot be improved -----

  /** q rounds of k single-entry groups and r more. */
  function Singles<T>(x: T, q: nat, r: nat, k: nat): (groups: seq<seq<T>>)
    requires r <= k
    ensures forall g :: 0 <= g < |groups| ==> groups[g] == [x]
    decreases q, r
  {
    if r > 0 then Singles(x, q, r - 1, k) + [[x]] else if q > 0 then Singles(x, q - 1, k, k) else []
  }

  /** The same groups filled into one partition after the other. */
  function Blocks(q: nat, r: nat, k: nat): (placement: seq<nat>)
    requires r <= k
    ensures forall g :: 0 <= g < |placement| ==> placement[g] <= q
    ensures r == 0 ==> forall g :: 0 <= g < |placement| ==> placement[g] < q
    decreases q, r
  {
    if r > 0 then Blocks(q, r - 1, k) + [q] else if q > 0 then Blocks(q - 1, k, k) else []
  }

  lemma FirstShortest<T>(parts: seq<seq<T>>, q: nat, r: nat)
    requires r < |parts| && forall i :: 0 <= i < |parts| ==> |parts[i]| == q + (if i < r then 1 else 0)
    ensures LeastLoaded(parts) == r
  {
  }

  lemma {:induction false} OneMoreSpreads<T>(groups: seq<seq<T>>, x: T, q: nat, r: nat, k: nat)
    requires r < k && forall j :: 0 <= j < k ==> |Partition(groups, k)[j]| == q + (if j < r then 1 else 0)
    ensures forall j :: 0 <= j < k ==>
      |Partition(groups + [[x]], k)[j]| == q + (if j < r + 1 then 1 else 0)
  {
    GreedyStep(groups, [x], k);
    hide Partition;
    FirstShortest(Partition(groups, k), q, r);
  }

  lemma {:induction false} SinglesUnfold<T>(x: T, q: nat, r: nat, k: nat)
    requires r <= k
    ensures r > 0 ==> Singles(x, q, r, k) == Singles(x, q, r - 1, k) + [[x]]
    ensures r == 0 && q > 0 ==> Singles(x, q, r, k) == Singles(x, q - 1, k, k)
    ensures r == 0 && q == 0 ==> Singles(x, q, r, k) == []
  {
  }

  lemma {:induction false} NothingSpreads<T>(k: nat)
    requires k > 0
    ensures forall i :: 0 <= i < k ==> |Partition<T>([], k)[i]| == 0
  {
  }

  lemma {:induction false} SinglesSpreadEvenly<T>(x: T, q: nat, r: nat, k: nat, i: nat)
    requires i < k && r <= k
    ensures |Partition(Singles(x, q, r, k), k)[i]| == q + (if i < r then 1 else 0)
    decreases q, r
  {
    hide Singles, Partition;
    SinglesUnfold(x, q, r, k);
    if r > 0 {
      var front := Singles(x, q, r - 1, k);
      forall j | 0 <= j < k ensures |Partition(front, k)[j]| == q + (if j < r - 1 then 1 else 0) {
        SinglesSpreadEvenly(x, q, r - 1, k, j);
      }
      OneMoreSpreads(front, x, q, r - 1, k);
    } else if q > 0 {
      SinglesSpreadEvenly(x, q - 1, k, k, i);
    } else {
      NothingSpreads<T>(k);
    }
  }

  lemma PlaceOneMore<T>(groups: seq<seq<T>>, placement: seq<nat>, k: nat, group: seq<T>, p: nat)
    requires IsPlacement(placement, |groups|, k) && p < k
    ensures IsPlacement(placement + [p], |groups + [group]|, k)
    ensures var parts := PlaceAll(groups, placement, k);
      PlaceAll(groups + [group], placement + [p], k) == parts[p := parts[p] + group]
  {
    assert (groups + [group])[..|groups|] == groups && (placement + [p])[..|groups|] == placement;
  }

  lemma OneMoreLands<T>(groups: seq<seq<T>>, placement: seq<nat>, k: nat, x: T, p: nat, j: nat)
    requires IsPlacement(placement, |groups|, k) && p < k && j < k
    ensures IsPlacement(placement + [p], |groups + [[x]]|, k)
    ensures |PlaceAll(groups + [[x]], placement + [p], k)[j]| == |PlaceAll(groups, placement, k)[j]| + (if j == p then 1 else 0)
  {
    PlaceOneMore(groups, placement, k, [x], p);
  }

  /** How full partition j is after q blocks of k and r more entries. */
  function BlockLoad(q: nat, r: nat, k: nat, j: nat): nat { if j < q then k else if j == q then r else 0 }

  ghost predicate BlocksAreFull<T>(x: T, q: nat, r: nat, k: nat, j: nat)
    requires r <= k && j < k
  {
    && IsPlacement(Blocks(q, r, k), |Singles(x, q, r, k)|, k)
    && |PlaceAll(Singles(x, q, r, k), Blocks(q, r, k), k)[j]| == BlockLoad(q, r, k, j)
  }

  lemma OneBlockMore<T>(x: T, q: nat, r: nat, k: nat, j: nat)
    requires 0 < r <= k && j < k && q < k && BlocksAreFull(x, q, r - 1, k, j)
    ensures BlocksAreFull(x, q, r, k, j)
  {
    assert Singles(x, q, r, k) == Singles(x, q, r - 1, k) + [[x]] && Blocks(q, r, k) == Blocks(q, r - 1, k) + [q];
    hide PlaceAll, Singles, Blocks, IsPlacement;
    OneMoreLands(Singles(x, q, r - 1, k), Blocks(q, r - 1, k), k, x, q, j);
  }

  lemma {:induction false} BlocksFillOneAfterTheOther<T>(x: T, q: nat, r: nat, k: nat, j: nat)
    requires r <= k && j < k && (q < k - 1 || (q == k - 1 && r == 0))
    ensures BlocksAreFull(x, q, r, k, j)
    decreases q, r
  {
    if r > 0 {
      hide BlocksAreFull;
      BlocksFillOneAfterTheOther(x, q, r - 1, k, j);
      OneBlockMore(x, q, r, k, j);
    } else if q > 0 {
      BlocksFillOneAfterTheOther(x, q - 1, k, k, j);
      assert Singles(x, q, 0, k) == Singles(x, q - 1, k, k) && Blocks(q, 0, k) == Blocks(q - 1, k, k);
      hide PlaceAll, Singles, Blocks, IsPlacement;
    }
  }

  /** k(k - 1) single entries followed by a group of k. */
  function TightGroups<T>(x: T, k: nat): seq<seq<T>>
    requires k > 0
  {
    Singles(x, k - 1, 0, k) + [seq(k, _ => x)]
  }

  lemma {:induction false} BestPlacementReachesK<T>(x: T, k: nat, j: nat)
    requires j < k
    ensures IsPlacement(Blocks(k - 1, 0, k) + [k - 1], |TightGroups(x, k)|, k)
    ensures |PlaceAll(TightGroups(x, k), Blocks(k - 1, 0, k) + [k - 1], k)[j]| == k
  {
    BlocksFillOneAfterTheOther(x, k - 1, 0, k, j);
    hide PlaceAll, Singles, Blocks;
    PlaceOneMore(Singles(x, k - 1, 0, k), Blocks(k - 1, 0, k), k, seq(k, _ => x), k - 1);
  }

  lemma {:induction false} GreedyReachesAlmostTwiceK<T>(x: T, k: nat)
    requires k > 0
    ensures |Partition(TightGroups(x, k), k)[0]| == 2 * k - 1
  {
    var singles := Singles(x, k - 1, 0, k);
    GreedyStep(singles, seq(k, _ => x), k);
    forall i | 0 <= i < k ensures |Partition(singles, k)[i]| == k - 1 { SinglesSpreadEvenly(x, k - 1, 0, k, i); }
    hide Partition, Singles;
    FirstShortest(Partition(singles, k), k - 1, 0);
  }

  /** The source piles the last group on a full partition and reaches 2k - 1 where k is possible: for
      every k Graham's bound is met exactly, so it cannot be improved. */
  lemma {:induction false} GrahamsBoundIsMet<T>(x: T, k: nat)
    requires k > 0
    ensures exists other ::
      && IsPlacement(other, |TightGroups(x, k)|, k)
      && (forall j :: 0 <= j < k ==> |PlaceAll(TightGroups(x, k), other, k)[j]| <= k)
      && k * |Partition(TightGroups(x, k), k)[0]| == (2 * k - 1) * k
  {
    GreedyReachesAlmostTwiceK(x, k);
    hide Partition, TightGroups, PlaceAll;
    var other := Blocks(k - 1, 0, k) + [k - 1];
    BestPlacementReachesK(x, k, 0);
    forall j | 0 <= j < k ensures |PlaceAll(TightGroups(x, k), other, k)[j]| <= k { BestPlacementReachesK(x, k, j); }
  }
}
