/**
 How one translation is picked among the candidates of a source text: `chooseTranslation`
 (scripts/apple-app-i18n.ts) and `selectDeterministicTranslation` (scripts/android-app-i18n.ts). Both
 count the candidates, sort the distinct values and take the first.
 */
module TranslationChoice {
  import opened Common
  import opened Text

  type Counts = map<string, nat>

  function CountsOf(values: seq<string>): Counts {
    if values == [] then map[]
    else
      var front, last := CountsOf(values[..|values| - 1]), values[|values| - 1];
      front[last := (if last in front then front[last] else 0) + 1]
  }

  /** The counting loop both functions start with. */
  method CountValues(values: seq<string>) returns (counts: Counts)
    ensures counts == CountsOf(values)
  {
    counts := map[];
    for i := 0 to |values|
      invariant counts == CountsOf(values[..i])
    {
      assert values[..i + 1][..i] == values[..i];
      counts := counts[values[i] := (if values[i] in counts then counts[values[i]] else 0) + 1];
    }
    assert values[..|values|] == values;
  }

  lemma {:induction false} CountsAreMultiplicities(values: seq<string>)
    ensures forall value :: value in CountsOf(values) <==> value in values
    ensures forall value :: value in CountsOf(values) ==> CountsOf(values)[value] == multiset(values)[value]
    decreases |values|
  {
    if values != [] {
      var front := values[..|values| - 1];
      assert values == front + [values[|values| - 1]];
      CountsAreMultiplicities(front);
    }
  }

  // ----- the order of the sorted entries -----

  /** A demoted value comes last; then the higher count wins, then code-unit order. */
  predicate Before(demoted: Option<string>, counts: Counts, a: string, b: string)
    requires a in counts && b in counts
  {
    if (demoted == Some(a)) != (demoted == Some(b)) then demoted == Some(b)
    else if counts[a] != counts[b] then counts[a] > counts[b]
    else Less(a, b)
  }

  /** The head of the sorted entries. */
  ghost predicate IsFirst(demoted: Option<string>, counts: Counts, value: string) {
    value in counts && forall other :: other in counts && other != value ==> Before(demoted, counts, value, other)
  }

  lemma {:induction false} BeforeIsTotalOrder(demoted: Option<string>, counts: Counts, a: string, b: string, c: string)
    requires a in counts && b in counts && c in counts
    ensures a != b ==> Before(demoted, counts, a, b) != Before(demoted, counts, b, a)
    ensures Before(demoted, counts, a, b) && Before(demoted, counts, b, c) ==> Before(demoted, counts, a, c)
  {
    LessIsTotal(a, b);
    LessIsStrict(a, b);
    if Less(a, b) && Less(b, c) { LessIsTransitive(a, b, c); }
  }

  lemma {:induction false} FirstIsUnique(demoted: Option<string>, counts: Counts, a: string, b: string)
    requires IsFirst(demoted, counts, a) && IsFirst(demoted, counts, b)
    ensures a == b
  {
    if a != b { BeforeIsTotalOrder(demoted, counts, a, b, a); }
  }

  /** The best of the values seen so far. */
  function Best(demoted: Option<string>, counts: Counts, values: seq<string>): (best: string)
    requires values != [] && forall value :: value in values ==> value in counts
    ensures best in values
  {
    if |values| == 1 then values[0]
    else
      var best, last := Best(demoted, counts, values[..|values| - 1]), values[|values| - 1];
      if Before(demoted, counts, last, best) then last else best
  }

  lemma {:induction false} BestIsBeforeTheRest(demoted: Option<string>, counts: Counts, values: seq<string>)
    requires values != [] && forall value :: value in values ==> value in counts
    ensures var best := Best(demoted, counts, values);
      forall value :: value in values && value != best ==> Before(demoted, counts, best, value)
    decreases |values|
  {
    if |values| > 1 {
      var front, last := values[..|values| - 1], values[|values| - 1];
      BestIsBeforeTheRest(demoted, counts, front);
      var best := Best(demoted, counts, front);
      hide Before, Best;
      forall value | value in values && value != last ensures value in front { assert values == front + [last]; }
      BeforeIsTotalOrder(demoted, counts, last, best, last);
      forall value | value in front { BeforeIsTotalOrder(demoted, counts, last, best, value); }
    }
  }

  // ----- the two functions -----

  /** The first of the sorted distinct values. */
  function First(demoted: Option<string>, values: seq<string>): (first: string)
    requires values != []
    ensures IsFirst(demoted, CountsOf(values), first)
  {
    CountsAreMultiplicities(values);
    BestIsBeforeTheRest(demoted, CountsOf(values), values);
    Best(demoted, CountsOf(values), values)
  }

  function Choice(source: string, translations: seq<string>): string {
    if translations == [] then source else First(Some(source), translations)
  }

  function Without(source: string, values: seq<string>): seq<string> {
    if values == [] then []
    else Without(source, values[..|values| - 1]) +
         (if values[|values| - 1] != source then [values[|values| - 1]] else [])
  }

  function Selection(source: string, values: seq<string>): string {
    var translated := Without(source, values);
    var candidates := if translated != [] then translated else values;
    if candidates == [] then "" else First(None, candidates)
  }

  method FirstOf(demoted: Option<string>, values: seq<string>) returns (first: Option<string>)
    ensures first == if values == [] then None else Some(First(demoted, values))
  {
    var counts := CountValues(values);
    CountsAreMultiplicities(values);
    first := None;
    for i := 0 to |values|
      invariant first == if i == 0 then None else Some(Best(demoted, counts, values[..i]))
    {
      assert values[..i + 1][..i] == values[..i];
      if first.None? || Before(demoted, counts, values[i], first.value) {
        first := Some(values[i]);
      }
    }
    assert values[..|values|] == values;
  }

  method ChooseTranslation(source: string, translations: seq<string>) returns (choice: string)
    ensures choice == Choice(source, translations)
  {
    var first := FirstOf(Some(source), translations);
    choice := first.GetOr(source);
  }

  method SelectDeterministicTranslation(source: string, values: seq<string>) returns (selection: string)
    ensures selection == Selection(source, values)
  {
    var translated: seq<string> := [];
    for i := 0 to |values|
      invariant translated == Without(source, values[..i])
    {
      assert values[..i + 1][..i] == values[..i];
      if values[i] != source {
        translated := translated + [values[i]];
      }
    }
    assert values[..|values|] == values;
    var first := FirstOf(None, if translated != [] then translated else values);
    selection := first.GetOr("");
  }

  // ----- they agree, and order does not matter -----

  lemma {:induction false} WithoutCounts(source: string, values: seq<string>)
    ensures forall value :: value in CountsOf(Without(source, values)) <==> value in CountsOf(values) && value != source
    ensures forall value :: value in CountsOf(Without(source, values)) ==>
      CountsOf(Without(source, values))[value] == CountsOf(values)[value]
    decreases |values|
  {
    if values != [] {
      var front, last := values[..|values| - 1], values[|values| - 1];
      WithoutCounts(source, front);
      if last != source {
        assert (Without(source, front) + [last])[..|Without(source, front)|] == Without(source, front);
      } else {
        assert Without(source, values) == Without(source, front);
      }
    }
  }

  /** The Apple and the Android choice are the same on every candidate list that is not empty; on an empty
      one they differ unless the source is empty too. */
  lemma {:induction false} ChoicesAgree(source: string, values: seq<string>)
    ensures Choice(source, values) == Selection(source, values) <==> values != [] || source == ""
  {
    if values != [] {
      hide Before, Less;
      var all, translated := CountsOf(values), Without(source, values);
      WithoutCounts(source, values);
      CountsAreMultiplicities(values);
      CountsAreMultiplicities(translated);
      var choice := First(Some(source), values);
      if translated == [] {
        assert values[0] in all && values[0] == source;
        assert First(None, values) in all && choice in all;
      } else {
        SomeTranslationBeatsTheSource(source, all, translated[0], choice);
        assert IsFirst(None, CountsOf(translated), choice) by {
          forall other | other in CountsOf(translated) && other != choice
            ensures Before(None, CountsOf(translated), choice, other)
          {
            DemotionOnlyMattersToTheSource(source, all, CountsOf(translated), choice, other);
          }
        }
        FirstIsUnique(None, CountsOf(translated), choice, First(None, translated));
      }
    }
  }

  lemma SomeTranslationBeatsTheSource(source: string, counts: Counts, translation: string, choice: string)
    requires IsFirst(Some(source), counts, choice) && translation in counts && translation != source
    ensures choice != source
  {
  }

  lemma DemotionOnlyMattersToTheSource(source: string, counts: Counts, others: Counts, a: string, b: string)
    requires a in counts && b in counts && a in others && b in others && a != source && b != source
    requires counts[a] == others[a] && counts[b] == others[b]
    ensures Before(Some(source), counts, a, b) == Before(None, others, a, b)
  {
  }

  lemma NothingToChoose(source: string)
    ensures Choice(source, []) == source
  {
  }

  /** More often among the values, or as often and smaller. */
  ghost predicate IsPreferred(values: seq<string>, a: string, b: string) {
    multiset(values)[a] > multiset(values)[b] || (multiset(values)[a] == multiset(values)[b] && Less(a, b))
  }

  /** Both rules choose the source only if nothing else is there, and otherwise the most frequent of the other values,
      the smallest of those if there are several. */
  lemma {:induction false} WhatIsChosen(source: string, values: seq<string>)
    requires values != []
    ensures var choice := Choice(source, values);
      && Selection(source, values) == choice && choice in values
      && (choice == source ==> forall other :: other in values ==> other == source)
      && forall other :: other in values && other != source && other != choice ==> IsPreferred(values, choice, other)
  {
    ChoicesAgree(source, values);
    CountsAreMultiplicities(values);
    hide Less, CountsOf, Selection;
    var choice := First(Some(source), values);
    assert IsFirst(Some(source), CountsOf(values), choice);
    forall other | other in values && other != source ensures choice != source {
      SomeTranslationBeatsTheSource(source, CountsOf(values), other, choice);
    }
  }

  /** Only how often each value occurs matters. */
  lemma {:induction false} ChoiceIgnoresOrder(source: string, values: seq<string>, permuted: seq<string>)
    requires multiset(values) == multiset(permuted)
    ensures Choice(source, values) == Choice(source, permuted)
  {
    assert |multiset(values)| == |multiset(permuted)|;
    if values != [] {
      CountsAreMultiplicities(values);
      CountsAreMultiplicities(permuted);
      forall value ensures value in values <==> value in permuted {
        assert value in multiset(values) <==> value in multiset(permuted);
      }
      assert CountsOf(values) == CountsOf(permuted);
      FirstIsUnique(Some(source), CountsOf(values), First(Some(source), values), First(Some(source), permuted));
    }
  }
}
