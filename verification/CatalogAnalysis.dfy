/**
 `analyzeControlUiCatalogs` (scripts/control-ui-i18n-verify.ts): every locale's flat catalogue compared
 with the English one. A flat catalogue is a Map, so it is a list of distinct keys with their texts.
 */
module CatalogAnalysis {
  import opened Placeholders

  datatype Flat = Flat(keys: seq<string>, texts: map<string, string>)

  ghost predicate IsMap(flat: Flat) {
    && (forall i, j :: 0 <= i < j < |flat.keys| ==> flat.keys[i] != flat.keys[j])
    && forall key :: key in flat.texts <==> key in flat.keys
  }

  type Locale = string

  datatype LocaleFlat = LocaleFlat(locale: Locale, flat: Flat)

  datatype Error =
    | OrphanKeys(locale: Locale, keys: seq<string>)
    | NotInCatalogOrder(locale: Locale)
    | PlaceholderMismatch(locale: Locale, key: string)

  /** `keys.filter(...)` by presence in a catalogue. */
  function Present(keys: seq<string>, flat: Flat): seq<string> {
    if keys == [] then []
    else
      var last := keys[|keys| - 1];
      Present(keys[..|keys| - 1], flat) + (if last in flat.texts then [last] else [])
  }

  function Absent(keys: seq<string>, flat: Flat): seq<string> {
    if keys == [] then []
    else
      var last := keys[|keys| - 1];
      Absent(keys[..|keys| - 1], flat) + (if last in flat.texts then [] else [last])
  }

  predicate TextsAgree(source: Flat, flat: Flat, key: string) {
    key in source.texts && key in flat.texts ==>
      ExtractPlaceholders(source.texts[key]) == ExtractPlaceholders(flat.texts[key])
  }

  function Mismatches(source: Flat, entry: LocaleFlat, keys: seq<string>): seq<Error> {
    if keys == [] then []
    else
      var last := keys[|keys| - 1];
      Mismatches(source, entry, keys[..|keys| - 1]) +
      (if TextsAgree(source, entry.flat, last) then [] else [PlaceholderMismatch(entry.locale, last)])
  }

  /** The errors of one locale. */
  function ErrorsOf(source: Flat, entry: LocaleFlat): seq<Error> {
    var orphans := Absent(entry.flat.keys, source);
    (if orphans != [] then [OrphanKeys(entry.locale, orphans)] else []) +
    (if Present(entry.flat.keys, source) != Present(source.keys, entry.flat) then [NotInCatalogOrder(entry.locale)] else []) +
    Mismatches(source, entry, source.keys)
  }

  function AllErrors(source: Flat, entries: seq<LocaleFlat>): seq<Error> {
    if entries == [] then []
    else AllErrors(source, entries[..|entries| - 1]) + ErrorsOf(source, entries[|entries| - 1])
  }

  type Fallbacks = map<string, seq<Locale>>

  function LocalesOf(fallbacks: Fallbacks, key: string): seq<Locale> { if key in fallbacks then fallbacks[key] else [] }

  /** The locales that fall back to English for a key. */
  function FallbackLocales(entries: seq<LocaleFlat>, key: string): seq<Locale> {
    if entries == [] then []
    else
      FallbackLocales(entries[..|entries| - 1], key) +
      (if key in entries[|entries| - 1].flat.texts then [] else [entries[|entries| - 1].locale])
  }

  /** The table holds exactly the fallbacks of the source keys. */
  ghost predicate IsFallbackTable(source: Flat, entries: seq<LocaleFlat>, fallbacks: Fallbacks) {
    && (forall key :: key in fallbacks ==> key in source.keys && fallbacks[key] != [])
    && forall key :: key in source.keys ==> LocalesOf(fallbacks, key) == FallbackLocales(entries, key)
  }

  // ----- the loops; the locales come in the order of localeCompare -----

  method Filter(keys: seq<string>, flat: Flat) returns (present: seq<string>, absent: seq<string>)
    ensures present == Present(keys, flat) && absent == Absent(keys, flat)
  {
    present, absent := [], [];
    for i := 0 to |keys|
      invariant present == Present(keys[..i], flat) && absent == Absent(keys[..i], flat)
    {
      assert keys[..i + 1][..i] == keys[..i];
      if keys[i] in flat.texts {
        present := present + [keys[i]];
      } else {
        absent := absent + [keys[i]];
      }
    }
    assert keys[..|keys|] == keys;
  }

  /** After the first n source keys of one locale have been looked at. */
  ghost predicate IsPartialTable(source: Flat, entries: seq<LocaleFlat>, entry: LocaleFlat, n: nat,
        fallbacks: Fallbacks)
    requires n <= |source.keys|
  {
    && (forall key :: key in fallbacks ==> key in source.keys && fallbacks[key] != [])
    && (forall i :: 0 <= i < n ==> LocalesOf(fallbacks, source.keys[i]) == FallbackLocales(entries + [entry], source.keys[i]))
    && (forall i :: n <= i < |source.keys| ==> LocalesOf(fallbacks, source.keys[i]) == FallbackLocales(entries, source.keys[i]))
  }

  function WithFallback(fallbacks: Fallbacks, entry: LocaleFlat, key: string): Fallbacks {
    if key in entry.flat.texts then fallbacks else fallbacks[key := LocalesOf(fallbacks, key) + [entry.locale]]
  }

  lemma OtherKeysStay(fallbacks: Fallbacks, entry: LocaleFlat, key: string, other: string)
    ensures other != key ==> LocalesOf(WithFallback(fallbacks, entry, key), other) == LocalesOf(fallbacks, other)
  {
  }

  lemma ThisKeyGrows(fallbacks: Fallbacks, entry: LocaleFlat, key: string)
    ensures var after := WithFallback(fallbacks, entry, key);
      && LocalesOf(after, key) == LocalesOf(fallbacks, key) + (if key in entry.flat.texts then [] else [entry.locale])
      && forall other :: other in after ==>
           (other in fallbacks && after[other] == fallbacks[other]) || (other == key && after[other] != [])
  {
  }

  lemma {:induction false} PartialStep(source: Flat, entries: seq<LocaleFlat>, entry: LocaleFlat, n: nat, fallbacks: Fallbacks)
    requires IsMap(source) && n < |source.keys| && IsPartialTable(source, entries, entry, n, fallbacks)
    ensures IsPartialTable(source, entries, entry, n + 1, WithFallback(fallbacks, entry, source.keys[n]))
  {
    hide FallbackLocales, WithFallback, LocalesOf;
    var key := source.keys[n];
    assert key in source.keys;
    OneMoreFallback(entries, entry, key);
    ThisKeyGrows(fallbacks, entry, key);
    forall i | 0 <= i < |source.keys| && i != n
      ensures LocalesOf(WithFallback(fallbacks, entry, key), source.keys[i]) == LocalesOf(fallbacks, source.keys[i])
    {
      OtherKeysStay(fallbacks, entry, key, source.keys[i]);
    }
  }

  lemma OneMoreFallback(entries: seq<LocaleFlat>, entry: LocaleFlat, key: string)
    ensures FallbackLocales(entries + [entry], key) ==
      FallbackLocales(entries, key) + (if key in entry.flat.texts then [] else [entry.locale])
  {
  }

  lemma AbsentAgrees(source: Flat, flat: Flat, key: string)
    ensures key !in flat.texts ==> TextsAgree(source, flat, key)
  {
  }

  method CompareTexts(source: Flat, ghost entries: seq<LocaleFlat>, entry: LocaleFlat, errorsBefore: seq<Error>,
        fallbacksBefore: Fallbacks)
    returns (errors: seq<Error>, fallbacks: Fallbacks)
    requires IsMap(source) && IsPartialTable(source, entries, entry, 0, fallbacksBefore)
    ensures errors == errorsBefore + Mismatches(source, entry, source.keys)
    ensures IsPartialTable(source, entries, entry, |source.keys|, fallbacks)
  {
    hide IsPartialTable, TextsAgree, IsMap;
    errors, fallbacks := errorsBefore, fallbacksBefore;
    for n := 0 to |source.keys|
      invariant errors == errorsBefore + Mismatches(source, entry, source.keys[..n])
      invariant IsPartialTable(source, entries, entry, n, fallbacks)
    {
      var key := source.keys[n];
      PartialStep(source, entries, entry, n, fallbacks);
      assert source.keys[..n + 1][..n] == source.keys[..n];
      if key !in entry.flat.texts {
        AbsentAgrees(source, entry.flat, key);
        fallbacks := fallbacks[key := LocalesOf(fallbacks, key) + [entry.locale]];
        continue;
      }
      if !TextsAgree(source, entry.flat, key) {
        errors := errors + [PlaceholderMismatch(entry.locale, key)];
      }
    }
    assert source.keys[..|source.keys|] == source.keys;
  }

  lemma PartialStart(source: Flat, entries: seq<LocaleFlat>, entry: LocaleFlat, fallbacks: Fallbacks)
    requires IsFallbackTable(source, entries, fallbacks)
    ensures IsPartialTable(source, entries, entry, 0, fallbacks)
  {
  }

  lemma PartialEnd(source: Flat, entries: seq<LocaleFlat>, entry: LocaleFlat, fallbacks: Fallbacks)
    requires IsPartialTable(source, entries, entry, |source.keys|, fallbacks)
    ensures IsFallbackTable(source, entries + [entry], fallbacks)
  {
  }

  method AnalyzeLocale(source: Flat, ghost entries: seq<LocaleFlat>, entry: LocaleFlat, errorsBefore: seq<Error>,
        fallbacksBefore: Fallbacks)
    returns (errors: seq<Error>, fallbacks: Fallbacks)
    requires IsMap(source) && IsFallbackTable(source, entries, fallbacksBefore)
    ensures errors == errorsBefore + ErrorsOf(source, entry)
    ensures IsFallbackTable(source, entries + [entry], fallbacks)
  {
    hide IsFallbackTable, IsPartialTable, IsMap, Mismatches, Present, Absent;
    errors := errorsBefore;
    var actualPresentOrder, orphanKeys := Filter(entry.flat.keys, source);
    if |orphanKeys| > 0 {
      errors := errors + [OrphanKeys(entry.locale, orphanKeys)];
    }
    var expectedPresentOrder, missing := Filter(source.keys, entry.flat);
    if actualPresentOrder != expectedPresentOrder {
      errors := errors + [NotInCatalogOrder(entry.locale)];
    }
    PartialStart(source, entries, entry, fallbacksBefore);
    errors, fallbacks := CompareTexts(source, entries, entry, errors, fallbacksBefore);
    PartialEnd(source, entries, entry, fallbacks);
  }

  method AnalyzeControlUiCatalogs(source: Flat, entries: seq<LocaleFlat>) returns (errors: seq<Error>,
        fallbacks: Fallbacks)
    requires IsMap(source) && forall i :: 0 <= i < |entries| ==> IsMap(entries[i].flat)
    ensures errors == AllErrors(source, entries)
    ensures IsFallbackTable(source, entries, fallbacks)
  {
    errors, fallbacks := [], map[];
    for i := 0 to |entries|
      invariant errors == AllErrors(source, entries[..i])
      invariant IsFallbackTable(source, entries[..i], fallbacks)
    {
      hide IsFallbackTable, ErrorsOf;
      assert entries[..i + 1] == entries[..i] + [entries[i]];
      assert entries[..i + 1][..i] == entries[..i];
      errors, fallbacks := AnalyzeLocale(source, entries[..i], entries[i], errors, fallbacks);
    }
    assert entries[..|entries|] == entries;
  }

  // ----- no errors means the catalogues line up -----

  /** The locale has the source's keys in the source's order, with some left out, and the same placeholders. */
  ghost predicate LinesUp(source: Flat, flat: Flat) {
    && flat.keys == Present(source.keys, flat)
    && forall key :: key in flat.texts ==> TextsAgree(source, flat, key)
  }

  lemma {:induction false} FilterMembers(keys: seq<string>, flat: Flat)
    ensures forall key :: key in Present(keys, flat) <==> key in keys && key in flat.texts
    ensures forall key :: key in Absent(keys, flat) <==> key in keys && key !in flat.texts
    ensures |Present(keys, flat)| + |Absent(keys, flat)| == |keys|
    ensures Absent(keys, flat) == [] ==> Present(keys, flat) == keys
    decreases |keys|
  {
    if keys != [] {
      assert keys == keys[..|keys| - 1] + [keys[|keys| - 1]];
      FilterMembers(keys[..|keys| - 1], flat);
    }
  }

  lemma {:induction false} NoMismatch(source: Flat, entry: LocaleFlat, keys: seq<string>)
    ensures Mismatches(source, entry, keys) == [] <==> forall key :: key in keys ==> TextsAgree(source, entry.flat, key)
    decreases |keys|
  {
    hide TextsAgree;
    if keys != [] {
      assert keys == keys[..|keys| - 1] + [keys[|keys| - 1]];
      NoMismatch(source, entry, keys[..|keys| - 1]);
    }
  }

  lemma {:induction false} NothingIn(keys: seq<string>)
    ensures (forall key :: key !in keys) ==> keys == []
  {
    if keys != [] { assert keys[0] in keys; }
  }

  lemma {:induction false} LocaleIsCleanIffItLinesUp(source: Flat, entry: LocaleFlat)
    requires IsMap(source) && IsMap(entry.flat)
    ensures ErrorsOf(source, entry) == [] <==> LinesUp(source, entry.flat)
  {
    hide TextsAgree;
    FilterMembers(entry.flat.keys, source);
    FilterMembers(source.keys, entry.flat);
    NoMismatch(source, entry, source.keys);
    forall key ensures key !in entry.flat.texts ==> TextsAgree(source, entry.flat, key) { AbsentAgrees(source, entry.flat, key); }
    NothingIn(Absent(entry.flat.keys, source));
  }

  lemma {:induction false} NoErrorsIffAllLineUp(source: Flat, entries: seq<LocaleFlat>)
    requires IsMap(source) && forall i :: 0 <= i < |entries| ==> IsMap(entries[i].flat)
    ensures AllErrors(source, entries) == [] <==> forall i :: 0 <= i < |entries| ==> LinesUp(source, entries[i].flat)
    decreases |entries|
  {
    hide ErrorsOf, LinesUp;
    if entries != [] {
      NoErrorsIffAllLineUp(source, entries[..|entries| - 1]);
      LocaleIsCleanIffItLinesUp(source, entries[|entries| - 1]);
    }
  }

  // ----- what each error says -----

  /** x stands before y. */
  ghost predicate Precedes(keys: seq<string>, x: string, y: string) {
    exists i, j :: 0 <= i < j < |keys| && keys[i] == x && keys[j] == y
  }

  lemma {:induction false} PrecedesGrows(keys: seq<string>, last: string, x: string, y: string)
    ensures Precedes(keys + [last], x, y) <==> Precedes(keys, x, y) || (x in keys && y == last)
  {
    var more := keys + [last];
    if Precedes(keys, x, y) {
      var i, j :| 0 <= i < j < |keys| && keys[i] == x && keys[j] == y;
      assert more[i] == x && more[j] == y;
    }
    if x in keys && y == last {
      var i :| 0 <= i < |keys| && keys[i] == x;
      assert more[i] == x && more[|keys|] == y;
    }
  }

  /** Filtering keeps the order. */
  lemma {:induction false} FilterKeepsOrder(keys: seq<string>, flat: Flat, x: string, y: string)
    ensures Precedes(Present(keys, flat), x, y) <==> Precedes(keys, x, y) && x in flat.texts && y in flat.texts
    ensures Precedes(Absent(keys, flat), x, y) <==> Precedes(keys, x, y) && x !in flat.texts && y !in flat.texts
    decreases |keys|
  {
    if keys != [] {
      var front, last := keys[..|keys| - 1], keys[|keys| - 1];
      var present, absent := Present(front, flat), Absent(front, flat);
      assert keys == front + [last];
      assert Present(keys, flat) == if last in flat.texts then present + [last] else present;
      assert Absent(keys, flat) == if last in flat.texts then absent else absent + [last];
      hide Precedes, Present, Absent;
      FilterKeepsOrder(front, flat, x, y);
      FilterMembers(front, flat);
      PrecedesGrows(front, last, x, y);
      PrecedesGrows(present, last, x, y);
      PrecedesGrows(absent, last, x, y);
    }
  }

  ghost predicate NoneTwice(keys: seq<string>) { forall i, j :: 0 <= i < j < |keys| ==> keys[i] != keys[j] }

  /** Lists of the same keys, none twice, are the same if no two keys change places. */
  lemma {:induction false} SameOrder(a: seq<string>, b: seq<string>)
    requires NoneTwice(a) && NoneTwice(b) && forall x :: x in a <==> x in b
    requires forall x, y :: Precedes(a, x, y) ==> Precedes(b, x, y)
    ensures a == b
    decreases |a|
  {
    if a == [] {
      NothingIn(b);
    } else {
      var m, last := |a| - 1, a[|a| - 1];
      assert last in a;
      var n := |b| - 1;
      LastIsLast(a, b);
      FrontMembers(a);
      FrontMembers(b);
      assert b[n] == last;
      forall x ensures x in a[..m] <==> x in b[..n] {
        assert x in a[..m] <==> x in a && x != last;
        assert x in b[..n] <==> x in b && x != last;
      }
      forall x, y | Precedes(a[..m], x, y) ensures Precedes(b[..n], x, y) { OrderOfFronts(a, b, x, y); }
      SameOrder(a[..m], b[..n]);
      assert a == a[..m] + [last] && b == b[..n] + [last];
    }
  }

  lemma {:induction false} FrontMembers(keys: seq<string>)
    requires NoneTwice(keys) && keys != []
    ensures forall x :: x in keys[..|keys| - 1] <==> x in keys && x != keys[|keys| - 1]
  {
    assert keys == keys[..|keys| - 1] + [keys[|keys| - 1]];
  }

  lemma {:induction false} LastIsLast(a: seq<string>, b: seq<string>)
    requires NoneTwice(b) && a != [] && b != [] && forall x :: x in a <==> x in b
    requires forall x, y :: Precedes(a, x, y) ==> Precedes(b, x, y)
    ensures b[|b| - 1] == a[|a| - 1]
  {
    assert b[|b| - 1] in b && a[|a| - 1] in a;
    OthersPrecedeTheLast(a, b[|b| - 1]);
    LastPrecedesNothing(b, a[|a| - 1]);
    hide Precedes;
  }

  lemma {:induction false} OthersPrecedeTheLast(keys: seq<string>, x: string)
    requires keys != [] && x in keys
    ensures x != keys[|keys| - 1] ==> Precedes(keys, x, keys[|keys| - 1])
  {
    var i :| 0 <= i < |keys| && keys[i] == x;
    assert keys[|keys| - 1] == keys[|keys| - 1];
  }

  lemma {:induction false} LastPrecedesNothing(keys: seq<string>, x: string)
    requires NoneTwice(keys) && keys != []
    ensures !Precedes(keys, keys[|keys| - 1], x)
  {
  }

  lemma {:induction false} OrderOfFronts(a: seq<string>, b: seq<string>, x: string, y: string)
    requires NoneTwice(a) && a != [] && b != [] && a[|a| - 1] == b[|b| - 1]
    requires Precedes(a[..|a| - 1], x, y) && (Precedes(a, x, y) ==> Precedes(b, x, y))
    ensures Precedes(b[..|b| - 1], x, y)
  {
    var front, last := a[..|a| - 1], a[|a| - 1];
    var i, j :| 0 <= i < j < |front| && front[i] == x && front[j] == y;
    assert a[i] == x && a[j] == y;
    assert y != last;
    PrecedesGrows(b[..|b| - 1], last, x, y);
    assert b == b[..|b| - 1] + [last];
  }

  lemma {:induction false} FilteredNoneTwice(keys: seq<string>, flat: Flat)
    requires NoneTwice(keys)
    ensures NoneTwice(Present(keys, flat)) && NoneTwice(Absent(keys, flat))
    decreases |keys|
  {
    if keys != [] {
      var front, last := keys[..|keys| - 1], keys[|keys| - 1];
      FilteredNoneTwice(front, flat);
      FilterMembers(front, flat);
    }
  }

  /** Two keys that both catalogues have stand in one order here and in the other there. */
  ghost predicate ChangesPlaces(source: Flat, flat: Flat) {
    exists x, y :: Precedes(flat.keys, x, y) && Precedes(source.keys, y, x)
  }

  lemma {:induction false} PrecedesOneWay(keys: seq<string>, x: string, y: string)
    requires NoneTwice(keys)
    ensures !(Precedes(keys, x, y) && Precedes(keys, y, x))
    ensures x in keys && y in keys && x != y ==> Precedes(keys, x, y) || Precedes(keys, y, x)
    ensures Precedes(keys, x, y) ==> x in keys && y in keys
  {
    if x in keys && y in keys && x != y {
      var i :| 0 <= i < |keys| && keys[i] == x;
      var j :| 0 <= j < |keys| && keys[j] == y;
      if i < j { assert Precedes(keys, x, y); } else { assert Precedes(keys, y, x); }
    }
  }

  lemma {:induction false} OrderErrorIff(source: Flat, flat: Flat)
    requires IsMap(source) && IsMap(flat)
    ensures Present(flat.keys, source) != Present(source.keys, flat) <==> ChangesPlaces(source, flat)
  {
    var a, b := Present(flat.keys, source), Present(source.keys, flat);
    FilteredNoneTwice(flat.keys, source);
    FilteredNoneTwice(source.keys, flat);
    FilterMembers(flat.keys, source);
    FilterMembers(source.keys, flat);
    hide Present, Precedes;
    forall x, y
      ensures Precedes(a, x, y) <==> Precedes(flat.keys, x, y) && x in source.texts && y in source.texts
      ensures Precedes(b, x, y) <==> Precedes(source.keys, x, y) && x in flat.texts && y in flat.texts
      ensures Precedes(flat.keys, x, y) ==> x in flat.keys && y in flat.keys
      ensures Precedes(source.keys, x, y) ==> x in source.keys && y in source.keys
      ensures !(Precedes(source.keys, x, y) && Precedes(source.keys, y, x))
      ensures x in source.keys && y in source.keys && x != y ==> Precedes(source.keys, x, y) || Precedes(source.keys, y, x)
      ensures !Precedes(flat.keys, x, x)
    {
      FilterKeepsOrder(flat.keys, source, x, y);
      FilterKeepsOrder(source.keys, flat, x, y);
      PrecedesOneWay(flat.keys, x, y);
      PrecedesOneWay(flat.keys, x, x);
      PrecedesOneWay(source.keys, x, y);
    }
    if !ChangesPlaces(source, flat) { SameOrder(a, b); }
  }

  /** What is reported of one locale. */
  ghost predicate IsErrorOf(source: Flat, entry: LocaleFlat, e: Error) {
    && e.locale == entry.locale
    && match e
       case OrphanKeys(_, keys) =>
         && keys != [] && NoneTwice(keys)
         && (forall key :: key in keys <==> key in entry.flat.keys && key !in source.keys)
         && forall x, y :: Precedes(keys, x, y) ==> Precedes(entry.flat.keys, x, y)
       case NotInCatalogOrder(_) => ChangesPlaces(source, entry.flat)
       case PlaceholderMismatch(_, key) =>
         && key in source.texts && key in entry.flat.texts
         && ExtractPlaceholders(source.texts[key]) != ExtractPlaceholders(entry.flat.texts[key])
  }

  lemma {:induction false} MismatchIff(source: Flat, entry: LocaleFlat, keys: seq<string>, e: Error)
    ensures e in Mismatches(source, entry, keys) <==>
      e.PlaceholderMismatch? && e.locale == entry.locale && e.key in keys && !TextsAgree(source, entry.flat, e.key)
    decreases |keys|
  {
    hide TextsAgree;
    if keys != [] {
      assert keys == keys[..|keys| - 1] + [keys[|keys| - 1]];
      MismatchIff(source, entry, keys[..|keys| - 1], e);
    }
  }

  lemma {:induction false} OrphansAre(source: Flat, flat: Flat, keys: seq<string>)
    requires IsMap(source) && IsMap(flat)
    ensures keys == Absent(flat.keys, source) <==>
      && NoneTwice(keys)
      && (forall key :: key in keys <==> key in flat.keys && key !in source.keys)
      && forall x, y :: Precedes(keys, x, y) ==> Precedes(flat.keys, x, y)
  {
    var orphans := Absent(flat.keys, source);
    FilteredNoneTwice(flat.keys, source);
    FilterMembers(flat.keys, source);
    hide Absent, Precedes;
    forall x, y
      ensures Precedes(orphans, x, y) <==> Precedes(flat.keys, x, y) && x !in source.texts && y !in source.texts
      ensures Precedes(keys, x, y) && NoneTwice(keys) ==> x in keys && y in keys
    {
      FilterKeepsOrder(flat.keys, source, x, y);
      if NoneTwice(keys) { PrecedesOneWay(keys, x, y); }
    }
    if && NoneTwice(keys) && (forall key :: key in keys <==> key in flat.keys && key !in source.keys)
       && forall x, y :: Precedes(keys, x, y) ==> Precedes(flat.keys, x, y)
    {
      SameOrder(keys, orphans);
    }
  }

  /** The errors are exactly these: the keys of a locale that the source lacks, in order; two keys that have changed
      places; and the keys both have whose texts have different placeholders. */
  lemma {:induction false} ErrorIff(source: Flat, entry: LocaleFlat, e: Error)
    requires IsMap(source) && IsMap(entry.flat)
    ensures e in ErrorsOf(source, entry) <==> IsErrorOf(source, entry, e)
  {
    OrderErrorIff(source, entry.flat);
    MismatchIff(source, entry, source.keys, e);
    if e.OrphanKeys? { OrphansAre(source, entry.flat, e.keys); }
    hide Absent, Present, Mismatches, ChangesPlaces, Precedes;
  }

  lemma {:induction false} AllErrorsIff(source: Flat, entries: seq<LocaleFlat>, e: Error)
    requires IsMap(source) && forall i :: 0 <= i < |entries| ==> IsMap(entries[i].flat)
    ensures e in AllErrors(source, entries) <==> exists entry :: entry in entries && IsErrorOf(source, entry, e)
    decreases |entries|
  {
    hide ErrorsOf, IsErrorOf;
    if entries != [] {
      var front, last := entries[..|entries| - 1], entries[|entries| - 1];
      assert entries == front + [last];
      AllErrorsIff(source, front, e);
      ErrorIff(source, last, e);
    }
  }

  // ----- no errors: each locale is the source minus its reported fallbacks -----

  ghost predicate DistinctLocales(entries: seq<LocaleFlat>) {
    forall i, j :: 0 <= i < j < |entries| ==> entries[i].locale != entries[j].locale
  }

  lemma {:induction false} ListedIffAbsent(entries: seq<LocaleFlat>, key: string, locale: Locale)
    ensures locale in FallbackLocales(entries, key) <==>
      exists i :: 0 <= i < |entries| && entries[i].locale == locale && key !in entries[i].flat.texts
    decreases |entries|
  {
    if entries != [] {
      var rest, last := entries[..|entries| - 1], entries[|entries| - 1];
      ListedIffAbsent(rest, key, locale);
      assert last.locale == locale && key !in last.flat.texts ==> locale in FallbackLocales(entries, key);
      assert forall i :: 0 <= i < |rest| ==> entries[i] == rest[i];
    }
  }

  function LocalesIn(entries: seq<LocaleFlat>): seq<Locale> {
    if entries == [] then [] else LocalesIn(entries[..|entries| - 1]) + [entries[|entries| - 1].locale]
  }

  /** The fallbacks of a key come in the order of the locales. */
  lemma {:induction false} FallbacksInOrder(entries: seq<LocaleFlat>, key: string, a: Locale, b: Locale)
    requires Precedes(FallbackLocales(entries, key), a, b)
    ensures Precedes(LocalesIn(entries), a, b)
    decreases |entries|
  {
    var front, last := entries[..|entries| - 1], entries[|entries| - 1];
    var before := FallbackLocales(front, key);
    assert FallbackLocales(entries, key) == before + (if key in last.flat.texts then [] else [last.locale]);
    assert before + [] == before;
    hide Precedes, FallbackLocales;
    PrecedesGrows(before, last.locale, a, b);
    PrecedesGrows(LocalesIn(front), last.locale, a, b);
    FallbacksAreLocales(front, key);
    if Precedes(before, a, b) { FallbacksInOrder(front, key, a, b); }
  }

  lemma {:induction false} FallbacksAreLocales(entries: seq<LocaleFlat>, key: string)
    ensures forall locale :: locale in FallbackLocales(entries, key) ==> locale in LocalesIn(entries)
    decreases |entries|
  {
    if entries != [] { FallbacksAreLocales(entries[..|entries| - 1], key); }
  }

  /** The source keys that the table does not give to the locale as fallbacks. */
  function WithoutFallbacks(keys: seq<string>, fallbacks: Fallbacks, locale: Locale): seq<string> {
    if keys == [] then []
    else
      var last := keys[|keys| - 1];
      WithoutFallbacks(keys[..|keys| - 1], fallbacks, locale) + (if locale in LocalesOf(fallbacks, last) then [] else [last])
  }

  lemma {:induction false} PresentIsWithoutFallbacks(
      source: Flat, entries: seq<LocaleFlat>, fallbacks: Fallbacks, k: nat, keys: seq<string>)
    requires IsFallbackTable(source, entries, fallbacks) && DistinctLocales(entries) && k < |entries|
    requires forall key :: key in keys ==> key in source.keys
    ensures Present(keys, entries[k].flat) == WithoutFallbacks(keys, fallbacks, entries[k].locale)
    decreases |keys|
  {
    if keys != [] {
      var last := keys[|keys| - 1];
      assert last in keys;
      PresentIsWithoutFallbacks(source, entries, fallbacks, k, keys[..|keys| - 1]);
      ListedIffAbsent(entries, last, entries[k].locale);
    }
  }

  /** The report is complete: from the source and the fallbacks alone a reader can tell every locale's key sequence. */
  lemma {:induction false} CleanLocaleIsSourceMinusFallbacks(source: Flat, entries: seq<LocaleFlat>,
        fallbacks: Fallbacks, k: nat)
    requires IsMap(source) && forall i :: 0 <= i < |entries| ==> IsMap(entries[i].flat)
    requires DistinctLocales(entries) && k < |entries|
    requires AllErrors(source, entries) == [] && IsFallbackTable(source, entries, fallbacks)
    ensures entries[k].flat.keys == WithoutFallbacks(source.keys, fallbacks, entries[k].locale)
  {
    NoErrorsIffAllLineUp(source, entries);
    PresentIsWithoutFallbacks(source, entries, fallbacks, k, source.keys);
  }

  // ----- counting -----

  function FallbackPairs(keys: seq<string>, fallbacks: Fallbacks): nat {
    if keys == [] then 0 else FallbackPairs(keys[..|keys| - 1], fallbacks) + |LocalesOf(fallbacks, keys[|keys| - 1])|
  }

  function PresentEntries(entries: seq<LocaleFlat>): nat {
    if entries == [] then 0 else PresentEntries(entries[..|entries| - 1]) + |entries[|entries| - 1].flat.keys|
  }

  /** The same pairs counted key by key and locale by locale. */
  function PairsByKey(keys: seq<string>, entries: seq<LocaleFlat>): nat {
    if keys == [] then 0 else PairsByKey(keys[..|keys| - 1], entries) + |FallbackLocales(entries, keys[|keys| - 1])|
  }

  lemma {:induction false} OneMoreLocale(keys: seq<string>, entries: seq<LocaleFlat>, entry: LocaleFlat)
    ensures PairsByKey(keys, entries + [entry]) == PairsByKey(keys, entries) + |Absent(keys, entry.flat)|
    decreases |keys|
  {
    if keys != [] {
      OneMoreLocale(keys[..|keys| - 1], entries, entry);
      assert (entries + [entry])[..|entries|] == entries;
    }
  }

  lemma {:induction false} NoLocales(keys: seq<string>)
    ensures PairsByKey(keys, []) == 0
    decreases |keys|
  {
    if keys != [] { NoLocales(keys[..|keys| - 1]); }
  }

  lemma OneMoreRow(keys: nat, n: nat)
    ensures keys * (n + 1) == keys * n + keys
  {
  }

  lemma {:induction false} PairsAndEntries(source: Flat, entries: seq<LocaleFlat>)
    requires forall i :: 0 <= i < |entries| ==> entries[i].flat.keys == Present(source.keys, entries[i].flat)
    ensures PairsByKey(source.keys, entries) + PresentEntries(entries) == |source.keys| * |entries|
    decreases |entries|
  {
    hide PairsByKey, Present, Absent;
    if entries == [] {
      NoLocales(source.keys);
    } else {
      var n := |entries| - 1;
      PairsAndEntries(source, entries[..n]);
      assert entries == entries[..n] + [entries[n]];
      OneMoreLocale(source.keys, entries[..n], entries[n]);
      FilterMembers(source.keys, entries[n].flat);
      OneMoreRow(|source.keys|, n);
    }
  }

  lemma {:induction false} TableCounts(source: Flat, entries: seq<LocaleFlat>, fallbacks: Fallbacks, keys: seq<string>)
    requires IsFallbackTable(source, entries, fallbacks) && forall key :: key in keys ==> key in source.keys
    ensures FallbackPairs(keys, fallbacks) == PairsByKey(keys, entries)
    decreases |keys|
  {
    if keys != [] { TableCounts(source, entries, fallbacks, keys[..|keys| - 1]); }
  }

  /** Without errors every source key is, in every locale, either translated or listed as a fallback. */
  lemma {:induction false} FallbacksAndEntriesAddUp(source: Flat, entries: seq<LocaleFlat>, fallbacks: Fallbacks)
    requires IsMap(source) && forall i :: 0 <= i < |entries| ==> IsMap(entries[i].flat)
    requires AllErrors(source, entries) == [] && IsFallbackTable(source, entries, fallbacks)
    ensures FallbackPairs(source.keys, fallbacks) + PresentEntries(entries) == |source.keys| * |entries|
  {
    NoErrorsIffAllLineUp(source, entries);
    TableCounts(source, entries, fallbacks, source.keys);
    PairsAndEntries(source, entries);
  }
}
