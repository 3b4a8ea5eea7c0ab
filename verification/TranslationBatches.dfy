/**
 The greedy batcher `buildTranslationBatches` (scripts/control-ui-i18n.ts): items go to the current
 batch until one more would exceed the character budget or the item limit.
 */
module TranslationBatches {
  import opened Common

  datatype Item = Item(key: string, text: string)

  const MAX_BATCH_ITEMS := 20

  /** estimateBatchChars of a single item; the 2 of the enclosing braces is counted for every item. */
  function ItemChars(item: Item): nat { 2 + |item.key| + |item.text| + 8 }

  function SumChars(items: seq<Item>): nat {
    if items == [] then 0 else SumChars(items[..|items| - 1]) + ItemChars(items[|items| - 1])
  }

  /** The running total the batcher keeps for a batch. */
  function BatchChars(items: seq<Item>): nat { 2 + SumChars(items) }

  /** estimateBatchChars of a whole batch. */
  function EstimateBatchChars(items: seq<Item>): nat
    decreases |items|
  {
    if items == [] then 2
    else EstimateBatchChars(items[..|items| - 1]) + |items[|items| - 1].key| + |items[|items| - 1].text| + 8
  }

  /** The limits of one batch; a single item may exceed the budget, since it cannot be divided. */
  predicate Fits(batch: seq<Item>, budget: int) {
    |batch| <= 1 || (|batch| <= MAX_BATCH_ITEMS && BatchChars(batch) <= budget)
  }

  /** An order-preserving division of the items into batches that all obey the limits. */
  ghost predicate Divides(batches: seq<seq<Item>>, items: seq<Item>, budget: int) {
    Flatten(batches) == items && forall i :: 0 <= i < |batches| ==> Fits(batches[i], budget)
  }

  // ----- the loop -----

  method BuildTranslationBatches(items: seq<Item>, budget: int) returns (batches: seq<seq<Item>>)
    ensures Divides(batches, items, budget)
    ensures forall i :: 0 <= i < |batches| ==> batches[i] != []
    ensures forall other :: Divides(other, items, budget) ==> |batches| <= |other|
  {
    hide Progress, Divides, Flatten;
    batches := [];
    var current: seq<Item> := [];
    var currentChars := 2;
    NothingBatched(budget);
    assert items[..0] == [];
    for n := 0 to |items|
      invariant Progress(batches, current, items[..n], budget)
      invariant currentChars == BatchChars(current)
    {
      var item := items[n];
      var itemChars := ItemChars(item);
      var wouldOverflow := |current| > 0 && currentChars + itemChars > budget;
      var reachedMaxItems := |current| >= MAX_BATCH_ITEMS;
      OneMoreItem(current, item);
      OneMoreItem([], item);
      assert items[..n + 1] == items[..n] + [item];
      if wouldOverflow || reachedMaxItems {
        PushKeepsProgress(batches, current, items[..n], item, budget);
        batches := batches + [current];
        current := [];
        currentChars := 2;
      } else {
        GrowKeepsProgress(batches, current, items[..n], item, budget);
      }
      current := current + [item];
      currentChars := currentChars + itemChars;
    }
    assert items[..|items|] == items;
    ProgressIsFewest(batches, current, items, budget);
    if |current| > 0 {
      batches := batches + [current];
    }
  }

  // ----- why it is the fewest -----

  /** A batch that could not also have taken the first item of the next one. */
  ghost predicate NoRoom(batch: seq<Item>, next: seq<Item>, budget: int) {
    batch != [] && next != [] && !Fits(batch + [next[0]], budget)
  }

  ghost predicate Tight(batches: seq<seq<Item>>, budget: int) {
    forall i :: 1 <= i < |batches| ==> NoRoom(batches[i - 1], batches[i], budget)
  }

  /** The finished batches and the current one hold exactly the items seen so far. */
  ghost predicate Progress(batches: seq<seq<Item>>, current: seq<Item>, seen: seq<Item>, budget: int) {
    && Flatten(batches + [current]) == seen
    && (forall i :: 0 <= i < |batches| ==> batches[i] != [] && Fits(batches[i], budget))
    && Fits(current, budget)
    && (seen != [] ==> current != [])
    && Tight(batches + [current], budget)
  }

  lemma {:induction false} NothingBatched(budget: int)
    ensures Progress([], [], [], budget)
  {
    FlattenSnoc<Item>([], []);
  }

  lemma {:induction false} OneMoreItem(current: seq<Item>, item: Item)
    ensures BatchChars(current + [item]) == BatchChars(current) + ItemChars(item)
  {
    assert (current + [item])[..|current|] == current;
  }

  lemma {:induction false} PushKeepsProgress(batches: seq<seq<Item>>, current: seq<Item>, seen: seq<Item>,
        item: Item, budget: int)
    requires Progress(batches, current, seen, budget) && current != [] && !Fits(current + [item], budget)
    ensures Progress(batches + [current], [item], seen + [item], budget)
  {
    FlattenSnoc(batches + [current], [item]);
    var was, now := batches + [current], batches + [current] + [[item]];
    forall i | 1 <= i < |now| ensures NoRoom(now[i - 1], now[i], budget) {
      if i < |was| { assert NoRoom(was[i - 1], was[i], budget); }
    }
  }

  lemma {:induction false} GrowKeepsProgress(batches: seq<seq<Item>>, current: seq<Item>, seen: seq<Item>,
        item: Item, budget: int)
    requires Progress(batches, current, seen, budget) && Fits(current + [item], budget)
    ensures Progress(batches, current + [item], seen + [item], budget)
  {
    FlattenSnoc(batches, current);
    FlattenSnoc(batches, current + [item]);
    var was, now := batches + [current], batches + [current + [item]];
    forall i | 1 <= i < |now| ensures NoRoom(now[i - 1], now[i], budget) {
      assert NoRoom(was[i - 1], was[i], budget) && now[i][0] == was[i][0];
    }
  }

  lemma {:induction false} ProgressIsFewest(batches: seq<seq<Item>>, current: seq<Item>, items: seq<Item>, budget: int)
    requires Progress(batches, current, items, budget)
    ensures var all := if current != [] then batches + [current] else batches;
      && Divides(all, items, budget)
      && (forall i :: 0 <= i < |all| ==> all[i] != [])
      && forall other :: Divides(other, items, budget) ==> |all| <= |other|
  {
    var all := if current != [] then batches + [current] else batches;
    if current == [] {
      FlattenSnoc(batches, current);
    }
    assert Divides(all, items, budget);
    assert Tight(all, budget) by {
      forall i | 1 <= i < |all| ensures NoRoom(all[i - 1], all[i], budget) {
        assert all[i - 1] == (batches + [current])[i - 1] && all[i] == (batches + [current])[i];
      }
    }
    hide Flatten, Fits, Tight;
    forall other | Divides(other, items, budget) ensures |all| <= |other| {
      assert [] + Flatten(all) == Flatten(all);
      TightNeedsNoMore(all, [], other, budget);
    }
  }

  lemma {:induction false} SumCharsOfConcat(a: seq<Item>, b: seq<Item>)
    ensures SumChars(a + b) == SumChars(a) + SumChars(b)
    decreases |b|
  {
    if b == [] {
      assert a + b == a;
    } else {
      assert (a + b)[..|a + b| - 1] == a + b[..|b| - 1];
      SumCharsOfConcat(a, b[..|b| - 1]);
    }
  }

  /** Any stretch of a batch that fits also fits. */
  lemma {:induction false} StretchFits(before: seq<Item>, stretch: seq<Item>, after: seq<Item>, budget: int)
    requires Fits(before + stretch + after, budget)
    ensures Fits(stretch, budget)
  {
    SumCharsOfConcat(before + stretch, after);
    SumCharsOfConcat(before, stretch);
  }

  /** A batch that starts no later than `batch` cannot reach past its end. */
  lemma {:induction false} CannotReachPast(before: seq<Item>, batch: seq<Item>, next: seq<Item>, rest: seq<Item>, o: seq<Item>,
        budget: int)
    requires NoRoom(batch, next, budget) && Fits(o, budget)
    requires o <= before + (batch + (next + rest))
    ensures |o| <= |before| + |batch|
  {
    if |o| > |before| + |batch| {
      var end := |before| + |batch| + 1;
      assert o == before + (batch + [next[0]]) + o[end..];
      StretchFits(before, batch + [next[0]], o[end..], budget);
    }
  }

  /** A tight division needs no more batches than any division of the same items, even one that
      starts earlier in the list. */
  lemma {:induction false} TightNeedsNoMore(batches: seq<seq<Item>>, before: seq<Item>, other: seq<seq<Item>>,
        budget: int)
    requires Tight(batches, budget) && forall i :: 0 <= i < |batches| ==> batches[i] != []
    requires Flatten(other) == before + Flatten(batches)
    requires forall i :: 0 <= i < |other| ==> Fits(other[i], budget)
    ensures |batches| <= |other|
    decreases |other|
  {
    if batches != [] {
      var b, items := batches[0], Flatten(batches);
      FlattenCons(batches);
      var o, others := other[0], other[1..];
      FlattenCons(other);
      assert Flatten(others) == (before + items)[|o|..];
      if |o| <= |before| {
        assert Flatten(others) == before[|o|..] + items;
        TightNeedsNoMore(batches, before[|o|..], others, budget);
      } else if |batches| > 1 {
        CannotReachPast(before, b, batches[1], Flatten(batches[2..]), o, budget) by {
          assert Flatten(batches[1..]) == batches[1] + Flatten(batches[2..]) by {
            FlattenCons(batches[1..]);
            assert batches[1..][1..] == batches[2..];
          }
          assert o == (before + items)[..|o|];
        }
        var taken := |o| - |before|;
        assert Flatten(others) == b[taken..] + Flatten(batches[1..]);
        TightNeedsNoMore(batches[1..], b[taken..], others, budget);
      }
    }
  }

  /** The batcher counts the two braces once per item, so it is stricter than the estimate of the whole
      batch: what it groups is what stays two characters per item below the budget, at most twenty items. */
  lemma {:induction false} GroupedBatchStaysBelowBudget(batch: seq<Item>, budget: int)
    ensures BatchChars(batch) == EstimateBatchChars(batch) + 2 * |batch|
    ensures Fits(batch, budget) <==>
      |batch| <= 1 || (|batch| <= 20 && EstimateBatchChars(batch) + 2 * |batch| <= budget)
    decreases |batch|
  {
    if batch != [] { GroupedBatchStaysBelowBudget(batch[..|batch| - 1], budget); }
  }
}
