/**
 `buildAppleCatalog` (scripts/apple-app-i18n.ts): the catalogue of every live source in every required
 locale, built from the existing catalogue and the translation artifacts. The rules that say which
 entries count and how a text is written are arbitrary functions here.
 */
module AppleCatalog {
  import opened Common
  import T = Text
  import opened TranslationChoice

  type Locale = string

  datatype SourceEntry = SourceEntry(id: string, source: string, kind: string, path: string, surface: string)

  datatype ArtifactEntry = ArtifactEntry(id: string, source: string, translated: string)

  datatype Artifact = Artifact(locale: Locale, entries: seq<ArtifactEntry>)

  /** includesEntry and appleCatalogValue. */
  datatype Rules = Rules(includes: SourceEntry -> bool, value: string -> string)

  datatype StringUnit = StringUnit(state: Option<string>, value: Option<string>)

  /** The string units of a catalogue by source and locale. */
  type Strings = map<string, map<Locale, StringUnit>>

  /** More than one distinct candidate. The source lists these sorted by source, locale and value; a set
      determines the sorted list. */
  datatype Contradiction = Contradiction(locale: Locale, source: string, translations: set<string>)

  /** The inputs of one build besides the existing catalogue; `locales` is REQUIRED_LOCALES. */
  datatype Inputs = Inputs(rules: Rules, locales: seq<Locale>, native: seq<SourceEntry>, artifacts: seq<Artifact>)

  // ----- what the loops compute -----

  function LiveSources(rules: Rules, native: seq<SourceEntry>): set<string> {
    set entry <- native | rules.includes(entry) :: rules.value(entry.source)
  }

  /** The ids under which a source occurs. */
  function Ids(rules: Rules, native: seq<SourceEntry>, source: string): set<string> {
    set entry <- native | rules.includes(entry) && rules.value(entry.source) == source :: entry.id
  }

  /** The candidate values of a source in one artifact, in order. */
  function Candidates(rules: Rules, ids: set<string>, entries: seq<ArtifactEntry>, source: string): seq<string> {
    if entries == [] then []
    else
      var last := entries[|entries| - 1];
      Candidates(rules, ids, entries[..|entries| - 1], source) +
      (if rules.value(last.source) == source && last.id in ids then [rules.value(last.translated)] else [])
  }

  /** `new Map(translations.map(...))`: the last artifact of a locale counts. */
  function EntriesOf(artifacts: seq<Artifact>, locale: Locale): seq<ArtifactEntry> {
    if artifacts == [] then []
    else if artifacts[|artifacts| - 1].locale == locale then artifacts[|artifacts| - 1].entries
    else EntriesOf(artifacts[..|artifacts| - 1], locale)
  }

  predicate IsShipped(unit: StringUnit) {
    unit.value.Some? && unit.value.value != "" && unit.state == Some("translated")
  }

  function Existing(strings: Strings, source: string, locale: Locale): Option<StringUnit> {
    if source in strings && locale in strings[source] then Some(strings[source][locale]) else None
  }

  /** The unit of one source in one locale. */
  function ChooseUnit(existing: Option<StringUnit>, locale: Locale, source: string,
        candidates: seq<string>): StringUnit {
    if existing.Some? && IsShipped(existing.value) then existing.value
    else if locale == "en" then StringUnit(Some("translated"), Some(source))
    else
      var value := Choice(source, candidates);
      StringUnit(Some(if value == source then "new" else "translated"), Some(value))
  }

  function CandidatesFor(inputs: Inputs, source: string, locale: Locale): seq<string> {
    Candidates(inputs.rules, Ids(inputs.rules, inputs.native, source), EntriesOf(inputs.artifacts, locale), source)
  }

  function UnitFor(inputs: Inputs, existing: Strings, source: string, locale: Locale): StringUnit {
    ChooseUnit(Existing(existing, source, locale), locale, source, CandidatesFor(inputs, source, locale))
  }

  /** The localizations of a source, locale by locale. */
  function UnitsOf(inputs: Inputs, existing: Strings, source: string, locales: seq<Locale>): map<Locale, StringUnit> {
    if locales == [] then map[]
    else
      var last := locales[|locales| - 1];
      UnitsOf(inputs, existing, source, locales[..|locales| - 1])[last := UnitFor(inputs, existing, source, last)]
  }

  function Distinct(values: seq<string>): set<string> { set value <- values :: value }

  function ContradictionsOf(inputs: Inputs, source: string, locales: seq<Locale>): set<Contradiction> {
    if locales == [] then {}
    else
      var last := locales[|locales| - 1];
      var distinct := Distinct(CandidatesFor(inputs, source, last));
      ContradictionsOf(inputs, source, locales[..|locales| - 1]) +
      (if |distinct| > 1 then {Contradiction(last, source, distinct)} else {})
  }

  function Live(inputs: Inputs): set<string> { LiveSources(inputs.rules, inputs.native) }

  /** The strings of the built catalogue. */
  function Build(inputs: Inputs, existing: Strings): Strings {
    map source <- Live(inputs) :: source := UnitsOf(inputs, existing, source, inputs.locales)
  }

  function ContradictionsAmong(inputs: Inputs, sources: set<string>): set<Contradiction> {
    set source <- sources, contradiction <- ContradictionsOf(inputs, source, inputs.locales) :: contradiction
  }

  function BuildContradictions(inputs: Inputs): set<Contradiction> { ContradictionsAmong(inputs, Live(inputs)) }

  // ----- the loops -----

  /** `bySource.get(source) ?? []` */
  function ValuesOf(bySource: map<string, seq<string>>, source: string): seq<string> {
    if source in bySource then bySource[source] else []
  }

  /** appleIdsBySource holds the ids of exactly the live sources. */
  ghost predicate IsIdTable(rules: Rules, native: seq<SourceEntry>, idsBySource: map<string, set<string>>) {
    && idsBySource.Keys == LiveSources(rules, native)
    && forall source :: source in idsBySource ==> idsBySource[source] == Ids(rules, native, source)
  }

  method CollectIds(rules: Rules, native: seq<SourceEntry>) returns (idsBySource: map<string, set<string>>)
    ensures IsIdTable(rules, native, idsBySource)
  {
    idsBySource := map[];
    for i := 0 to |native|
      invariant IsIdTable(rules, native[..i], idsBySource)
    {
      var entry := native[i];
      assert native[..i + 1] == native[..i] + [entry];
      if rules.includes(entry) {
        var source := rules.value(entry.source);
        assert source !in idsBySource ==> Ids(rules, native[..i], source) == {};
        idsBySource := idsBySource[source := (if source in idsBySource then idsBySource[source] else {}) + {entry.id}];
      }
    }
    assert native[..|native|] == native;
  }

  ghost predicate IsCandidateTable(rules: Rules, native: seq<SourceEntry>, entries: seq<ArtifactEntry>,
                                   bySource: map<string, seq<string>>) {
    forall source :: source in LiveSources(rules, native) ==>
      ValuesOf(bySource, source) == Candidates(rules, Ids(rules, native, source), entries, source)
  }

  method GroupArtifact(rules: Rules, ghost native: seq<SourceEntry>, idsBySource: map<string, set<string>>,
        entries: seq<ArtifactEntry>)
    returns (bySource: map<string, seq<string>>)
    requires IsIdTable(rules, native, idsBySource)
    ensures IsCandidateTable(rules, native, entries, bySource)
  {
    bySource := map[];
    for i := 0 to |entries|
      invariant IsCandidateTable(rules, native, entries[..i], bySource)
    {
      var entry := entries[i];
      assert entries[..i + 1][..i] == entries[..i];
      var source := rules.value(entry.source);
      if source in idsBySource && entry.id in idsBySource[source] {
        bySource := bySource[source := ValuesOf(bySource, source) + [rules.value(entry.translated)]];
      }
    }
    assert entries[..|entries|] == entries;
  }

  method GroupByLocale(rules: Rules, ghost native: seq<SourceEntry>, idsBySource: map<string, set<string>>,
        artifacts: seq<Artifact>)
    returns (byLocale: map<Locale, map<string, seq<string>>>)
    requires IsIdTable(rules, native, idsBySource)
    ensures forall locale ::
      IsCandidateTable(rules, native, EntriesOf(artifacts, locale), if locale in byLocale then byLocale[locale] else map[])
  {
    byLocale := map[];
    for i := 0 to |artifacts|
      invariant forall locale ::
        IsCandidateTable(rules, native, EntriesOf(artifacts[..i], locale), if locale in byLocale then byLocale[locale] else map[])
    {
      hide IsCandidateTable;
      assert artifacts[..i + 1][..i] == artifacts[..i];
      var bySource := GroupArtifact(rules, native, idsBySource, artifacts[i].entries);
      byLocale := byLocale[artifacts[i].locale := bySource];
    }
    assert artifacts[..|artifacts|] == artifacts;
  }

  method ChooseLocalization(existing: Option<StringUnit>, locale: Locale, source: string, candidates: seq<string>)
    returns (unit: StringUnit)
    ensures unit == ChooseUnit(existing, locale, source, candidates)
  {
    if existing.Some? && IsShipped(existing.value) {
      return existing.value;
    }
    if locale == "en" {
      return StringUnit(Some("translated"), Some(source));
    }
    var value := ChooseTranslation(source, candidates);
    unit := StringUnit(Some(if value == source then "new" else "translated"), Some(value));
  }

  lemma {:induction false} OneMoreLocale(inputs: Inputs, existing: Strings, source: string, locales: seq<Locale>, i: nat)
    requires i < |locales|
    ensures UnitsOf(inputs, existing, source, locales[..i + 1]) ==
      UnitsOf(inputs, existing, source, locales[..i])[locales[i] := UnitFor(inputs, existing, source, locales[i])]
    ensures ContradictionsOf(inputs, source, locales[..i + 1]) ==
      var distinct := Distinct(CandidatesFor(inputs, source, locales[i]));
      ContradictionsOf(inputs, source, locales[..i]) +
      (if |distinct| > 1 then {Contradiction(locales[i], source, distinct)} else {})
  {
    hide UnitFor, Distinct, CandidatesFor;
    assert locales[..i + 1][..i] == locales[..i];
  }

  method BuildUnits(inputs: Inputs, existing: Strings, source: string, byLocale: map<Locale, map<string, seq<string>>>)
    returns (localizations: map<Locale, StringUnit>, found: set<Contradiction>)
    requires source in Live(inputs)
    requires forall locale ::
      IsCandidateTable(inputs.rules, inputs.native, EntriesOf(inputs.artifacts, locale),
                       if locale in byLocale then byLocale[locale] else map[])
    ensures localizations == UnitsOf(inputs, existing, source, inputs.locales)
    ensures found == ContradictionsOf(inputs, source, inputs.locales)
  {
    localizations, found := map[], {};
    var locales := inputs.locales;
    for i := 0 to |locales|
      invariant localizations == UnitsOf(inputs, existing, source, locales[..i])
      invariant found == ContradictionsOf(inputs, source, locales[..i])
    {
      var locale := locales[i];
      var candidates := ValuesOf(if locale in byLocale then byLocale[locale] else map[], source);
      assert candidates == CandidatesFor(inputs, source, locale);
      hide IsCandidateTable, CandidatesFor, ChooseUnit, Distinct, UnitsOf, ContradictionsOf;
      OneMoreLocale(inputs, existing, source, locales, i);
      var distinct := Distinct(candidates);
      if |distinct| > 1 {
        found := found + {Contradiction(locale, source, distinct)};
      }
      var unit := ChooseLocalization(Existing(existing, source, locale), locale, source, candidates);
      localizations := localizations[locale := unit];
    }
    assert locales[..|locales|] == locales;
  }

  lemma OneMoreSource(inputs: Inputs, sources: set<string>, source: string)
    ensures ContradictionsAmong(inputs, sources + {source}) ==
      ContradictionsAmong(inputs, sources) + ContradictionsOf(inputs, source, inputs.locales)
  {
  }

  /** The catalogue after some of the sources. */
  ghost predicate BuiltSoFar(inputs: Inputs, existing: Strings, built: set<string>, strings: Strings,
        contradictions: set<Contradiction>) {
    && strings.Keys == built
    && (forall source :: source in built ==> strings[source] == UnitsOf(inputs, existing, source, inputs.locales))
    && contradictions == ContradictionsAmong(inputs, built)
  }

  lemma NothingBuilt(inputs: Inputs, existing: Strings)
    ensures BuiltSoFar(inputs, existing, {}, map[], {})
  {
  }

  lemma {:induction false} OneMoreBuilt(inputs: Inputs, existing: Strings, built: set<string>, strings: Strings,
        contradictions: set<Contradiction>, source: string)
    requires BuiltSoFar(inputs, existing, built, strings, contradictions)
    ensures BuiltSoFar(inputs, existing, built + {source}, strings[source := UnitsOf(inputs, existing, source, inputs.locales)],
                       contradictions + ContradictionsOf(inputs, source, inputs.locales))
  {
    hide UnitsOf, ContradictionsOf, ContradictionsAmong;
    OneMoreSource(inputs, built, source);
  }

  lemma AllBuilt(inputs: Inputs, existing: Strings, strings: Strings, contradictions: set<Contradiction>)
    requires BuiltSoFar(inputs, existing, Live(inputs), strings, contradictions)
    ensures strings == Build(inputs, existing) && contradictions == BuildContradictions(inputs)
  {
  }

  method BuildAppleCatalog(inputs: Inputs, existing: Strings) returns (strings: Strings,
        contradictions: set<Contradiction>)
    ensures strings == Build(inputs, existing)
    ensures contradictions == BuildContradictions(inputs)
  {
    hide UnitsOf, ContradictionsOf, BuiltSoFar, Build, BuildContradictions, IsCandidateTable;
    var idsBySource := CollectIds(inputs.rules, inputs.native);
    var byLocale := GroupByLocale(inputs.rules, inputs.native, idsBySource, inputs.artifacts);
    ghost var live := Live(inputs);
    var rest := idsBySource.Keys;
    strings, contradictions := map[], {};
    NothingBuilt(inputs, existing);
    assert live - rest == {};
    while rest != {}
      invariant rest <= live
      invariant BuiltSoFar(inputs, existing, live - rest, strings, contradictions)
      decreases |rest|
    {
      hide Live;
      var source :| source in rest;
      var localizations, found := BuildUnits(inputs, existing, source, byLocale);
      OneMoreBuilt(inputs, existing, live - rest, strings, contradictions, source);
      assert live - (rest - {source}) == (live - rest) + {source};
      strings := strings[source := localizations];
      contradictions := contradictions + found;
      rest := rest - {source};
    }
    assert live - rest == live;
    AllBuilt(inputs, existing, strings, contradictions);
  }

  // ----- what a built catalogue is -----

  lemma {:induction false} UnitsCover(inputs: Inputs, existing: Strings, source: string, locales: seq<Locale>)
    ensures forall locale :: locale in UnitsOf(inputs, existing, source, locales) <==> locale in locales
    ensures forall locale :: locale in UnitsOf(inputs, existing, source, locales) ==>
      UnitsOf(inputs, existing, source, locales)[locale] == UnitFor(inputs, existing, source, locale)
    decreases |locales|
  {
    hide UnitFor;
    if locales != [] {
      UnitsCover(inputs, existing, source, locales[..|locales| - 1]);
      assert locales == locales[..|locales| - 1] + [locales[|locales| - 1]];
    }
  }

  lemma {:induction false} BuiltUnit(inputs: Inputs, existing: Strings, source: string, locale: Locale)
    requires source in Live(inputs) && locale in inputs.locales
    ensures Existing(Build(inputs, existing), source, locale) == Some(UnitFor(inputs, existing, source, locale))
  {
    hide UnitFor;
    UnitsCover(inputs, existing, source, inputs.locales);
  }

  /** The catalogue has exactly the live sources, each with exactly the required locales. */
  lemma {:induction false} BuiltIff(inputs: Inputs, existing: Strings, source: string, locale: Locale)
    ensures source in Build(inputs, existing) <==> IsLive(inputs, source)
    ensures Existing(Build(inputs, existing), source, locale).Some? <==> IsLive(inputs, source) && locale in inputs.locales
  {
    hide UnitFor, Live, IsLive;
    LiveIff(inputs, source);
    UnitsCover(inputs, existing, source, inputs.locales);
  }

  /** What a unit says unless a shipped translation is kept: English is its own source; elsewhere the source is taken
      as new if no candidate differs from it, and else the preferred one of the others as translated. */
  lemma {:induction false} WhatAUnitSays(existing: Option<StringUnit>, locale: Locale, source: string, candidates: seq<string>)
    requires existing.Some? ==> existing.value.state != Some("translated") || existing.value.value.GetOr("") == ""
    ensures var unit := ChooseUnit(existing, locale, source, candidates);
      if locale == "en" then unit == StringUnit(Some("translated"), Some(source))
      else if forall candidate :: candidate in candidates ==> candidate == source then
        unit == StringUnit(Some("new"), Some(source))
      else
        && unit.state == Some("translated") && unit.value.Some?
        && unit.value.value in candidates && unit.value.value != source
        && forall other :: other in candidates && other != source && other != unit.value.value ==>
             IsPreferred(candidates, unit.value.value, other)
  {
    hide Choice, IsPreferred, Selection;
    if candidates == [] {
      assert Choice(source, candidates) == source by { NothingToChoose(source); }
    } else {
      WhatIsChosen(source, candidates);
      if Choice(source, candidates) != source { assert Choice(source, candidates) in candidates; }
    }
  }

  // ----- what a unit says about the inputs -----

  /** Some included native entry has this id and this text. */
  ghost predicate IsNative(inputs: Inputs, id: string, source: string) {
    exists entry :: entry in inputs.native && inputs.rules.includes(entry) && entry.id == id &&
      inputs.rules.value(entry.source) == source
  }

  lemma IdsAreNative(inputs: Inputs, id: string, source: string)
    ensures id in Ids(inputs.rules, inputs.native, source) <==> IsNative(inputs, id, source)
  {
  }

  ghost predicate IsLive(inputs: Inputs, source: string) { exists id :: IsNative(inputs, id, source) }

  /** The entry gives `translated` as the translation of the source. */
  ghost predicate IsVote(inputs: Inputs, source: string, entry: ArtifactEntry, translated: string) {
    && inputs.rules.value(entry.source) == source && inputs.rules.value(entry.translated) == translated
    && IsNative(inputs, entry.id, source)
  }

  ghost function Votes(inputs: Inputs, source: string, entries: seq<ArtifactEntry>, translated: string): set<nat> {
    set i: nat | i < |entries| && IsVote(inputs, source, entries[i], translated)
  }

  lemma {:induction false} VotesGrow(inputs: Inputs, source: string, entries: seq<ArtifactEntry>, translated: string)
    requires entries != []
    ensures var n := |entries| - 1; var before := Votes(inputs, source, entries[..n], translated);
      && n !in before
      && Votes(inputs, source, entries, translated) ==
           before + (if IsVote(inputs, source, entries[n], translated) then {n} else {})
  {
    hide IsVote;
  }

  /** Every candidate is a candidate as often as an entry of the artifact votes for it. */
  lemma {:induction false} CandidatesAreVotes(inputs: Inputs, source: string, entries: seq<ArtifactEntry>, translated: string)
    ensures multiset(Candidates(inputs.rules, Ids(inputs.rules, inputs.native, source), entries, source))[translated] ==
      |Votes(inputs, source, entries, translated)|
    decreases |entries|
  {
    hide Ids, IsNative, Votes;
    if entries == [] {
      assert Votes(inputs, source, entries, translated) == {} by { NoVotes(inputs, source, translated); }
    } else {
      var last := entries[|entries| - 1];
      CandidatesAreVotes(inputs, source, entries[..|entries| - 1], translated);
      VotesGrow(inputs, source, entries, translated);
      IdsAreNative(inputs, last.id, source);
    }
  }

  lemma NoVotes(inputs: Inputs, source: string, translated: string)
    ensures Votes(inputs, source, [], translated) == {}
  {
  }

  predicate IsLastOf(artifacts: seq<Artifact>, locale: Locale, i: nat) {
    i < |artifacts| && artifacts[i].locale == locale && forall j :: i < j < |artifacts| ==> artifacts[j].locale != locale
  }

  /** The entries of the last artifact of a locale. */
  ghost predicate AreEntriesOf(artifacts: seq<Artifact>, locale: Locale, entries: seq<ArtifactEntry>) {
    || (entries == [] && forall i :: 0 <= i < |artifacts| ==> artifacts[i].locale != locale)
    || exists i: nat :: IsLastOf(artifacts, locale, i) && artifacts[i].entries == entries
  }

  lemma {:induction false} EntriesAreOfTheLast(artifacts: seq<Artifact>, locale: Locale)
    ensures AreEntriesOf(artifacts, locale, EntriesOf(artifacts, locale))
    decreases |artifacts|
  {
    if artifacts != [] {
      var n := |artifacts| - 1;
      var front := artifacts[..n];
      EntriesAreOfTheLast(front, locale);
      hide EntriesOf;
      if artifacts[n].locale == locale {
        assert IsLastOf(artifacts, locale, n);
      } else if i: nat :| IsLastOf(front, locale, i) && front[i].entries == EntriesOf(front, locale) {
        assert IsLastOf(artifacts, locale, i) && artifacts[i] == front[i];
      }
    }
  }

  ghost predicate IsVotedFor(inputs: Inputs, source: string, entries: seq<ArtifactEntry>, v: string) {
    exists entry :: entry in entries && IsVote(inputs, source, entry, v)
  }

  /** A value is a candidate exactly if some entry of the locale's artifact translates the source by it, under the id
      of an included native entry with the same text. */
  lemma {:induction false} CandidateIff(inputs: Inputs, source: string, locale: Locale, entries: seq<ArtifactEntry>, v: string)
    requires entries == EntriesOf(inputs.artifacts, locale)
    ensures AreEntriesOf(inputs.artifacts, locale, entries)
    ensures v in CandidatesFor(inputs, source, locale) <==> IsVotedFor(inputs, source, entries, v)
  {
    EntriesAreOfTheLast(inputs.artifacts, locale);
    CandidatesAreVotes(inputs, source, entries, v);
    hide Candidates, IsVote;
    var candidates, votes := CandidatesFor(inputs, source, locale), Votes(inputs, source, entries, v);
    assert v in candidates <==> multiset(candidates)[v] > 0;
    if entry :| entry in entries && IsVote(inputs, source, entry, v) {
      var i: nat :| i < |entries| && entries[i] == entry;
      assert i in votes;
    }
    if votes != {} {
      var i :| i in votes;
      assert entries[i] in entries;
    }
  }

  lemma {:induction false} LiveIff(inputs: Inputs, source: string)
    ensures source in Live(inputs) <==> IsLive(inputs, source)
  {
    if source in Live(inputs) {
      var entry :| entry in inputs.native && inputs.rules.includes(entry) && inputs.rules.value(entry.source) == source;
      assert IsNative(inputs, entry.id, source);
    }
  }

  /** More entries vote for a, or as many and it is smaller. */
  ghost predicate Outvotes(inputs: Inputs, source: string, entries: seq<ArtifactEntry>, a: string, b: string) {
    var m, n := |Votes(inputs, source, entries, a)|, |Votes(inputs, source, entries, b)|;
    m > n || (m == n && T.Less(a, b))
  }

  /** A non-empty value of state `translated` stays; English is its own source; elsewhere the source is taken as new if
      no entry translates it otherwise, and else the other text most entries vote for is taken as translated. */
  lemma {:induction false} WhatIsBuilt(inputs: Inputs, existing: Strings, source: string, locale: Locale)
    returns (unit: StringUnit)
    requires IsLive(inputs, source) && locale in inputs.locales
    ensures Existing(Build(inputs, existing), source, locale) == Some(unit)
    ensures AreEntriesOf(inputs.artifacts, locale, EntriesOf(inputs.artifacts, locale))
    ensures var before := Existing(existing, source, locale);
      var entries := EntriesOf(inputs.artifacts, locale);
      if before.Some? && before.value.state == Some("translated") && before.value.value.GetOr("") != "" then
        unit == before.value
      else if locale == "en" then unit == StringUnit(Some("translated"), Some(source))
      else if forall v :: IsVotedFor(inputs, source, entries, v) ==> v == source then
        unit == StringUnit(Some("new"), Some(source))
      else
        && unit.state == Some("translated") && unit.value.Some? && unit.value.value != source
        && IsVotedFor(inputs, source, entries, unit.value.value)
        && forall v :: v != source && v != unit.value.value && IsVotedFor(inputs, source, entries, v) ==>
             Outvotes(inputs, source, entries, unit.value.value, v)
  {
    hide Candidates, IsVotedFor, Votes, IsLive, Live, Build, Choice;
    LiveIff(inputs, source);
    EntriesAreOfTheLast(inputs.artifacts, locale);
    BuiltUnit(inputs, existing, source, locale);
    unit := UnitFor(inputs, existing, source, locale);
    var entries, candidates := EntriesOf(inputs.artifacts, locale), CandidatesFor(inputs, source, locale);
    var before := Existing(existing, source, locale);
    if !(before.Some? && before.value.state == Some("translated") && before.value.value.GetOr("") != "") {
      WhatAUnitSays(before, locale, source, candidates);
    }
    hide ChooseUnit, CandidatesFor;
    forall v
      ensures v in candidates <==> IsVotedFor(inputs, source, entries, v)
      ensures multiset(candidates)[v] == |Votes(inputs, source, entries, v)|
    {
      CandidateIff(inputs, source, locale, entries, v);
      CandidatesAreVotes(inputs, source, entries, v);
    }
  }

  /** So a translation all entries agree on is taken. */
  lemma {:induction false} AgreedTranslationIsBuilt(inputs: Inputs, existing: Strings, source: string, locale: Locale,
        entry: ArtifactEntry, t: string)
    requires locale in inputs.locales && locale != "en" && t != source
    requires var before := Existing(existing, source, locale);
      !(before.Some? && before.value.state == Some("translated") && before.value.value.GetOr("") != "")
    requires entry in EntriesOf(inputs.artifacts, locale) && IsVote(inputs, source, entry, t)
    requires forall v :: IsVotedFor(inputs, source, EntriesOf(inputs.artifacts, locale), v) ==> v == t
    ensures Existing(Build(inputs, existing), source, locale) == Some(StringUnit(Some("translated"), Some(t)))
  {
    assert IsLive(inputs, source) && IsVotedFor(inputs, source, EntriesOf(inputs.artifacts, locale), t);
    hide IsLive, IsVotedFor, Build;
    var unit := WhatIsBuilt(inputs, existing, source, locale);
  }

  lemma {:induction false} ContradictionsOfASource(inputs: Inputs, source: string, locales: seq<Locale>,
        c: Contradiction)
    ensures c in ContradictionsOf(inputs, source, locales) <==>
      && c.locale in locales && c.source == source
      && c.translations == Distinct(CandidatesFor(inputs, source, c.locale)) && |c.translations| > 1
    decreases |locales|
  {
    hide CandidatesFor, Distinct;
    if locales != [] {
      assert locales == locales[..|locales| - 1] + [locales[|locales| - 1]];
      ContradictionsOfASource(inputs, source, locales[..|locales| - 1], c);
    }
  }

  /** A contradiction is reported exactly of a live source for which the entries of a required locale give more than one
      text, with all of these texts. */
  lemma {:induction false} ContradictionIff(inputs: Inputs, c: Contradiction)
    ensures c in BuildContradictions(inputs) <==>
      && IsLive(inputs, c.source) && c.locale in inputs.locales && |c.translations| > 1
      && forall v :: v in c.translations <==> IsVotedFor(inputs, c.source, EntriesOf(inputs.artifacts, c.locale), v)
  {
    hide CandidatesFor, Live, ContradictionsOf, IsLive, IsVotedFor;
    LiveIff(inputs, c.source);
    var candidates := CandidatesFor(inputs, c.source, c.locale);
    forall v ensures v in candidates <==> IsVotedFor(inputs, c.source, EntriesOf(inputs.artifacts, c.locale), v) {
      CandidateIff(inputs, c.source, c.locale, EntriesOf(inputs.artifacts, c.locale), v);
    }
    assert forall v :: v in Distinct(candidates) <==> v in candidates;
    ContradictionsOfASource(inputs, c.source, inputs.locales, c);
    if c in BuildContradictions(inputs) {
      var from :| from in Live(inputs) && c in ContradictionsOf(inputs, from, inputs.locales);
      ContradictionsOfASource(inputs, from, inputs.locales, c);
    }
  }

  /** So one is reported exactly where two entries disagree. */
  lemma {:induction false} ContradictionsAreTheDisagreements(inputs: Inputs, source: string, locale: Locale)
    ensures (exists c :: c in BuildContradictions(inputs) && c.source == source && c.locale == locale) <==>
      && IsLive(inputs, source) && locale in inputs.locales
      && var entries := EntriesOf(inputs.artifacts, locale);
         exists a, b :: a != b && IsVotedFor(inputs, source, entries, a) && IsVotedFor(inputs, source, entries, b)
  {
    hide CandidatesFor, BuildContradictions, IsLive, IsVotedFor;
    var candidates, entries := CandidatesFor(inputs, source, locale), EntriesOf(inputs.artifacts, locale);
    forall v ensures v in candidates <==> IsVotedFor(inputs, source, entries, v) {
      CandidateIff(inputs, source, locale, entries, v);
    }
    TwoOfThem(candidates);
    ContradictionIff(inputs, Contradiction(locale, source, Distinct(candidates)));
    if c :| c in BuildContradictions(inputs) && c.source == source && c.locale == locale {
      ContradictionIff(inputs, c);
      assert c.translations == Distinct(candidates);
    }
  }

  lemma {:induction false} TwoOfThem(values: seq<string>)
    ensures |Distinct(values)| > 1 <==> exists a, b :: a in values && b in values && a != b
  {
    var distinct := Distinct(values);
    if a, b :| a in values && b in values && a != b {
      assert {a, b} <= distinct;
      SubsetIsSmaller({a, b}, distinct);
    }
    if |distinct| > 1 {
      var a :| a in distinct;
      var rest := distinct - {a};
      assert distinct == rest + {a};
      assert |rest| > 0;
      var b :| b in rest;
      assert a in values && b in values && a != b;
    }
  }

  lemma {:induction false} SubsetIsSmaller(a: set<string>, b: set<string>)
    requires a <= b
    ensures |a| <= |b|
  {
    assert b == a + (b - a);
  }

  /** A unit the build has chosen is chosen again when it is found in the existing catalogue. */
  lemma ChosenAgain(existing: Option<StringUnit>, locale: Locale, source: string, candidates: seq<string>)
    ensures var unit := ChooseUnit(existing, locale, source, candidates);
      ChooseUnit(Some(unit), locale, source, candidates) == unit
  {
  }

  /** Rebuilding from a build's own output changes nothing. */
  lemma {:induction false} BuildIsAFixpoint(inputs: Inputs, existing: Strings)
    ensures Build(inputs, Build(inputs, existing)) == Build(inputs, existing)
  {
    var once := Build(inputs, existing);
    forall source | source in Live(inputs)
      ensures UnitsOf(inputs, once, source, inputs.locales) == UnitsOf(inputs, existing, source, inputs.locales)
    {
      hide UnitsOf, Live, Build;
      UnitsCover(inputs, existing, source, inputs.locales);
      UnitsCover(inputs, once, source, inputs.locales);
      forall locale | locale in inputs.locales
        ensures UnitFor(inputs, once, source, locale) == UnitFor(inputs, existing, source, locale)
      {
        BuiltUnit(inputs, existing, source, locale);
        ChosenAgain(Existing(existing, source, locale), locale, source, CandidatesFor(inputs, source, locale));
      }
    }
  }

  /** Builds one after the other, each with its own inputs. */
  function BuildAll(builds: seq<Inputs>, existing: Strings): Strings {
    if builds == [] then existing else BuildAll(builds[1..], Build(builds[0], existing))
  }

  /** A shipped translation of a source that stays live survives every later build, whatever the
      artifacts of those builds say. */
  lemma {:induction false} ShippedTranslationSurvives(builds: seq<Inputs>, existing: Strings, source: string,
        locale: Locale)
    requires Existing(existing, source, locale).Some?
    requires var unit := Existing(existing, source, locale).value;
      unit.state == Some("translated") && unit.value.GetOr("") != ""
    requires forall i :: 0 <= i < |builds| ==> source in Live(builds[i]) && locale in builds[i].locales
    ensures Existing(BuildAll(builds, existing), source, locale) == Existing(existing, source, locale)
    decreases |builds|
  {
    hide Live, Build;
    if builds != [] {
      BuiltUnit(builds[0], existing, source, locale);
      ShippedTranslationSurvives(builds[1..], Build(builds[0], existing), source, locale);
    }
  }

  // ----- the order of the inputs does not matter -----

  /** The same entries in any order. */
  ghost predicate SameInputs(a: Inputs, b: Inputs) {
    && a.rules == b.rules && a.locales == b.locales
    && multiset(a.native) == multiset(b.native)
    && forall locale :: multiset(EntriesOf(a.artifacts, locale)) == multiset(EntriesOf(b.artifacts, locale))
  }

  lemma {:induction false} SameEntries<T>(a: seq<T>, b: seq<T>)
    requires multiset(a) == multiset(b)
    ensures forall entry :: entry in a <==> entry in b
  {
    forall entry ensures entry in a <==> entry in b {
      assert entry in multiset(a) <==> entry in multiset(b);
    }
  }

  lemma {:induction false} SameSources(a: Inputs, b: Inputs, source: string)
    requires SameInputs(a, b)
    ensures Live(a) == Live(b) && Ids(a.rules, a.native, source) == Ids(b.rules, b.native, source)
  {
    SameEntries(a.native, b.native);
  }

  lemma CandidatesSnoc(rules: Rules, ids: set<string>, entries: seq<ArtifactEntry>, last: ArtifactEntry, source: string)
    ensures Candidates(rules, ids, entries + [last], source) ==
      Candidates(rules, ids, entries, source) + Candidates(rules, ids, [last], source)
  {
  }

  lemma WithoutLast<T>(a: seq<T>, i: nat)
    requires i < |a|
    ensures var n := |a| - 1; var without := a[..i] + a[i + 1..];
      && a == a[..n] + [a[n]]
      && without == if i == n then a[..n] else a[..n][..i] + a[..n][i + 1..] + [a[n]]
  {
  }

  /** Taking one entry out of the list takes its candidate out of the candidates. */
  lemma {:induction false} CandidatesWithout(rules: Rules, ids: set<string>, entries: seq<ArtifactEntry>,
        source: string, i: nat)
    requires i < |entries|
    ensures multiset(Candidates(rules, ids, entries, source)) ==
      multiset(Candidates(rules, ids, entries[..i] + entries[i + 1..], source))
      + multiset(Candidates(rules, ids, [entries[i]], source))
    decreases |entries|
  {
    var n := |entries| - 1;
    WithoutLast(entries, i);
    hide Candidates;
    CandidatesSnoc(rules, ids, entries[..n], entries[n], source);
    if i < n {
      var shorter := entries[..n][..i] + entries[..n][i + 1..];
      CandidatesSnoc(rules, ids, shorter, entries[n], source);
      CandidatesWithout(rules, ids, entries[..n], source, i);
    }
  }

  lemma {:induction false} RemoveOne<T>(a: seq<T>, i: nat)
    requires i < |a|
    ensures multiset(a[..i] + a[i + 1..]) == multiset(a) - multiset{a[i]}
  {
    assert a == a[..i] + [a[i]] + a[i + 1..];
  }

  /** Where the last entry of one list stands in the other; without it the lists still hold the same. */
  lemma {:induction false} Matching<T>(a: seq<T>, b: seq<T>) returns (j: nat)
    requires multiset(a) == multiset(b) && a != []
    ensures j < |b| && b[j] == a[|a| - 1]
    ensures multiset(a[..|a| - 1]) == multiset(b[..j] + b[j + 1..])
  {
    var n := |a| - 1;
    assert a[n] in b by { SameEntries(a, b); }
    j :| 0 <= j < |b| && b[j] == a[n];
    RemoveOne(a, n);
    RemoveOne(b, j);
    assert a[..n] + a[n + 1..] == a[..n];
  }

  lemma {:induction false} CandidatesIgnoreOrder(rules: Rules, ids: set<string>, a: seq<ArtifactEntry>,
        b: seq<ArtifactEntry>, source: string)
    requires multiset(a) == multiset(b)
    ensures multiset(Candidates(rules, ids, a, source)) == multiset(Candidates(rules, ids, b, source))
    decreases |a|
  {
    assert |multiset(a)| == |multiset(b)|;
    if a != [] {
      var n := |a| - 1;
      var j := Matching(a, b);
      var without := b[..j] + b[j + 1..];
      CandidatesIgnoreOrder(rules, ids, a[..n], without, source);
      CandidatesWithout(rules, ids, b, source, j);
      CandidatesWithout(rules, ids, a, source, n);
      assert a[..n] + a[n + 1..] == a[..n];
    }
  }

  lemma {:induction false} UnitIgnoresOrder(a: Inputs, b: Inputs, existing: Strings, source: string, locale: Locale)
    requires SameInputs(a, b)
    ensures UnitFor(a, existing, source, locale) == UnitFor(b, existing, source, locale)
    ensures Distinct(CandidatesFor(a, source, locale)) == Distinct(CandidatesFor(b, source, locale))
  {
    hide Candidates, Choice, Live;
    SameSources(a, b, source);
    var ids := Ids(a.rules, a.native, source);
    CandidatesIgnoreOrder(a.rules, ids, EntriesOf(a.artifacts, locale), EntriesOf(b.artifacts, locale), source);
    ChoiceIgnoresOrder(source, CandidatesFor(a, source, locale), CandidatesFor(b, source, locale));
    SameEntries(CandidatesFor(a, source, locale), CandidatesFor(b, source, locale));
  }

  lemma {:induction false} SourceIgnoresOrder(a: Inputs, b: Inputs, existing: Strings, source: string,
        locales: seq<Locale>)
    requires SameInputs(a, b)
    ensures UnitsOf(a, existing, source, locales) == UnitsOf(b, existing, source, locales)
    ensures ContradictionsOf(a, source, locales) == ContradictionsOf(b, source, locales)
    decreases |locales|
  {
    hide UnitFor, Distinct, CandidatesFor;
    if locales != [] {
      UnitIgnoresOrder(a, b, existing, source, locales[|locales| - 1]);
      SourceIgnoresOrder(a, b, existing, source, locales[..|locales| - 1]);
    }
  }

  /** Permuting the source entries and the entries of the artifacts leaves the build unchanged. */
  lemma {:induction false} BuildIgnoresOrder(a: Inputs, b: Inputs, existing: Strings)
    requires SameInputs(a, b)
    ensures Build(a, existing) == Build(b, existing) && BuildContradictions(a) == BuildContradictions(b)
  {
    SameSources(a, b, "");
    hide Live, UnitsOf, ContradictionsOf, SameInputs;
    forall source { SourceIgnoresOrder(a, b, existing, source, a.locales); }
  }

  /** Every locale occurs in one artifact at most, as the reader of the artifacts makes sure. */
  ghost predicate DistinctLocales(artifacts: seq<Artifact>) {
    forall i, j :: 0 <= i < j < |artifacts| ==> artifacts[i].locale != artifacts[j].locale
  }

  lemma {:induction false} EntriesOfTheLocale(artifacts: seq<Artifact>, locale: Locale)
    requires DistinctLocales(artifacts)
    ensures forall i :: 0 <= i < |artifacts| && artifacts[i].locale == locale ==>
      EntriesOf(artifacts, locale) == artifacts[i].entries
    ensures (forall i :: 0 <= i < |artifacts| ==> artifacts[i].locale != locale) ==> EntriesOf(artifacts, locale) == []
    decreases |artifacts|
  {
    if artifacts != [] { EntriesOfTheLocale(artifacts[..|artifacts| - 1], locale); }
  }

  /** With distinct locales the order of the artifacts does not matter either. */
  lemma {:induction false} ArtifactOrderDoesNotMatter(a: Inputs, artifacts: seq<Artifact>)
    requires multiset(artifacts) == multiset(a.artifacts) && DistinctLocales(artifacts) && DistinctLocales(a.artifacts)
    ensures SameInputs(a, a.(artifacts := artifacts))
  {
    SameEntries(artifacts, a.artifacts);
    forall locale ensures EntriesOf(artifacts, locale) == EntriesOf(a.artifacts, locale) {
      EntriesOfTheLocale(artifacts, locale);
      EntriesOfTheLocale(a.artifacts, locale);
      if i :| 0 <= i < |artifacts| && artifacts[i].locale == locale {
        assert artifacts[i] in a.artifacts;
      } else if j :| 0 <= j < |a.artifacts| && a.artifacts[j].locale == locale {
        assert a.artifacts[j] in artifacts;
      }
    }
  }
}
