/**
 `buildUnifiedDeclarationPartitions` (tsdown.config.ts): which declaration build every entry goes to, and
 the one family of names that goes to none.
 */
module DeclarationPartitions {
  import opened Common
  import opened EntryPartition

  datatype Entry = Entry(name: string, source: string)

  /** `name.split("/", 3)[1]` of a name behind its first slash. */
  function FirstSegment(s: string): string {
    if s == "" || s[0] == '/' then "" else [s[0]] + FirstSegment(s[1..])
  }

  datatype Bin = Base | PublicSdk | PrivateSdk | Extension(id: string)

  const DROPPED := Extension("")

  function BinOf(entry: Entry, publicNames: set<string>): Bin {
    if "plugin-sdk/" <= entry.name then (if entry.name in publicNames then PublicSdk else PrivateSdk)
    else if "extensions/" <= entry.name then Extension(FirstSegment(entry.name[|"extensions/"|..]))
    else Base
  }

  /** The entries of one bin, in order. */
  function Select(entries: seq<Entry>, publicNames: set<string>, bin: Bin): seq<Entry> {
    if entries == [] then []
    else
      var last := entries[|entries| - 1];
      Select(entries[..|entries| - 1], publicNames, bin) + (if BinOf(last, publicNames) == bin then [last] else [])
  }

  function Selections(entries: seq<Entry>, publicNames: set<string>, bins: seq<Bin>): seq<seq<Entry>> {
    seq(|bins|, i requires 0 <= i < |bins| => Select(entries, publicNames, bins[i]))
  }

  function ExtensionBins(ids: seq<string>): seq<Bin> { seq(|ids|, i requires 0 <= i < |ids| => Extension(ids[i])) }

  /** The extensions that have an entry. */
  function Ids(entries: seq<Entry>, publicNames: set<string>): set<string> {
    if entries == [] then {}
    else
      var bin := BinOf(entries[|entries| - 1], publicNames);
      Ids(entries[..|entries| - 1], publicNames) + (if bin.Extension? && bin != DROPPED then {bin.id} else {})
  }

  /** The keys in the order a sort of them gives. */
  ghost predicate IsOrderOf(order: seq<string>, ids: set<string>) {
    && (forall id :: id in order <==> id in ids)
    && forall i, j :: 0 <= i < j < |order| ==> order[i] != order[j]
  }

  const FIXED_BINS := [Base, PublicSdk, PrivateSdk]

  function Build(entries: seq<Entry>, publicNames: set<string>, order: seq<string>): seq<seq<Entry>> {
    Selections(entries, publicNames, FIXED_BINS) + Partition(Selections(entries, publicNames, ExtensionBins(order)), 5)
  }

  // ----- the code -----

  lemma SelectGrows(entries: seq<Entry>, entry: Entry, publicNames: set<string>, bin: Bin)
    ensures Select(entries + [entry], publicNames, bin) ==
      Select(entries, publicNames, bin) + (if BinOf(entry, publicNames) == bin then [entry] else [])
  {
  }

  ghost predicate IsIndex(byId: map<string, seq<Entry>>, entries: seq<Entry>, publicNames: set<string>) {
    && byId.Keys == Ids(entries, publicNames)
    && forall id :: id != "" ==>
         Select(entries, publicNames, Extension(id)) == if id in byId then byId[id] else []
  }

  lemma IndexGrows(byId: map<string, seq<Entry>>, entries: seq<Entry>, entry: Entry, publicNames: set<string>)
    requires IsIndex(byId, entries, publicNames)
    ensures var bin := BinOf(entry, publicNames);
      var after :=
        if bin.Extension? && bin != DROPPED then byId[bin.id := (if bin.id in byId then byId[bin.id] else []) + [entry]]
        else byId;
      IsIndex(after, entries + [entry], publicNames)
  {
  }

  method CollectExtensions(sortedEntries: seq<Entry>, publicNames: set<string>) returns (byId: map<string, seq<Entry>>)
    ensures IsIndex(byId, sortedEntries, publicNames)
  {
    byId := map[];
    assert IsIndex(byId, sortedEntries[..0], publicNames);
    hide IsIndex;
    for i := 0 to |sortedEntries|
      invariant IsIndex(byId, sortedEntries[..i], publicNames)
    {
      var entry := sortedEntries[i];
      IndexGrows(byId, sortedEntries[..i], entry, publicNames);
      assert sortedEntries[..i + 1] == sortedEntries[..i] + [entry];
      var bin := BinOf(entry, publicNames);
      if !bin.Extension? || bin.id == "" {
        continue;
      }
      var extensionEntries := if bin.id in byId then byId[bin.id] else [];
      byId := byId[bin.id := extensionEntries + [entry]];
    }
    assert sortedEntries[..|sortedEntries|] == sortedEntries;
  }

  /** `order` is the result of sorting the keys of the table. */
  method BuildUnifiedDeclarationPartitions(sortedEntries: seq<Entry>, publicNames: set<string>, order: seq<string>)
    returns (result: Result<seq<seq<Entry>>, string>)
    requires IsOrderOf(order, Ids(sortedEntries, publicNames))
    ensures result == Ok(Build(sortedEntries, publicNames, order))
    ensures result.Ok? && |result.value| == 8
  {
    var byId := CollectExtensions(sortedEntries, publicNames);
    IdsAreNotEmpty(sortedEntries, publicNames);
    var groups := seq(|order|, i requires 0 <= i < |order| && order[i] in byId => byId[order[i]]);
    assert groups == Selections(sortedEntries, publicNames, ExtensionBins(order));
    var extensionPartitions := PartitionUnifiedEntryGroups(groups, 5);
    match extensionPartitions
    case Ok(partitions) =>
      result := Ok(Selections(sortedEntries, publicNames, FIXED_BINS) + partitions);
    case Err(message) =>
      result := Err(message);
  }

  lemma {:induction false} IdsAreNotEmpty(entries: seq<Entry>, publicNames: set<string>)
    ensures "" !in Ids(entries, publicNames)
    decreases |entries|
  {
    if entries != [] { IdsAreNotEmpty(entries[..|entries| - 1], publicNames); }
  }

  // ----- where the entries go -----

  /** The entries that do not fall out. */
  function Live(entries: seq<Entry>, publicNames: set<string>): seq<Entry> {
    if entries == [] then []
    else
      var last := entries[|entries| - 1];
      Live(entries[..|entries| - 1], publicNames) + (if BinOf(last, publicNames) == DROPPED then [] else [last])
  }

  ghost predicate Distinct(bins: seq<Bin>) { forall i, j :: 0 <= i < j < |bins| ==> bins[i] != bins[j] }

  /** One more entry changes the selection of its own bin alone. */
  lemma {:induction false} EntryJoinsItsBin(entries: seq<Entry>, entry: Entry, publicNames: set<string>, bins: seq<Bin>, i: nat)
    requires Distinct(bins) && i < |bins| && bins[i] == BinOf(entry, publicNames)
    ensures var before := Selections(entries, publicNames, bins);
      Selections(entries + [entry], publicNames, bins) == before[i := before[i] + [entry]]
  {
    hide BinOf, Select;
    var before, after := Selections(entries, publicNames, bins), Selections(entries + [entry], publicNames, bins);
    forall j | 0 <= j < |bins| ensures after[j] == before[i := before[i] + [entry]][j] {
      SelectGrows(entries, entry, publicNames, bins[j]);
    }
    assert after == before[i := before[i] + [entry]];
  }

  lemma {:induction false} EntryIsNowhere(entries: seq<Entry>, entry: Entry, publicNames: set<string>, bins: seq<Bin>)
    requires BinOf(entry, publicNames) !in bins
    ensures Selections(entries + [entry], publicNames, bins) == Selections(entries, publicNames, bins)
  {
    hide BinOf, Select;
    var before, after := Selections(entries, publicNames, bins), Selections(entries + [entry], publicNames, bins);
    forall j | 0 <= j < |bins| ensures after[j] == before[j] { SelectGrows(entries, entry, publicNames, bins[j]); }
    assert after == before;
  }

  /** Distinct bins that include those of all live entries hold exactly the live entries. */
  lemma {:induction false} SelectionsHoldTheLive(entries: seq<Entry>, publicNames: set<string>, bins: seq<Bin>)
    requires Distinct(bins) && DROPPED !in bins
    requires forall entry :: entry in entries && BinOf(entry, publicNames) != DROPPED ==> BinOf(entry, publicNames) in bins
    ensures multiset(Flatten(Selections(entries, publicNames, bins))) == multiset(Live(entries, publicNames))
    decreases |entries|
  {
    hide BinOf;
    if entries == [] {
      assert Selections(entries, publicNames, bins) == Empties(|bins|);
      FlattenEmpties<Entry>(|bins|);
    } else {
      var front, last := entries[..|entries| - 1], entries[|entries| - 1];
      assert entries == front + [last];
      SelectionsHoldTheLive(front, publicNames, bins);
      if BinOf(last, publicNames) == DROPPED {
        EntryIsNowhere(front, last, publicNames, bins);
      } else {
        var i :| 0 <= i < |bins| && bins[i] == BinOf(last, publicNames);
        EntryJoinsItsBin(front, last, publicNames, bins, i);
        hide Selections;
        FlattenAfterPush(Selections(front, publicNames, bins), i, [last]);
      }
    }
  }

  lemma {:induction false} BinsAreCovered(entries: seq<Entry>, publicNames: set<string>, entry: Entry)
    requires entry in entries && BinOf(entry, publicNames) != DROPPED
    ensures var bin := BinOf(entry, publicNames); bin.Extension? ==> bin.id in Ids(entries, publicNames)
    decreases |entries|
  {
    hide BinOf;
    if entry != entries[|entries| - 1] {
      BinsAreCovered(entries[..|entries| - 1], publicNames, entry);
    }
  }

  lemma AllBinsAreDistinct(order: seq<string>, ids: set<string>)
    requires IsOrderOf(order, ids) && "" !in ids
    ensures Distinct(FIXED_BINS + ExtensionBins(order)) && DROPPED !in FIXED_BINS + ExtensionBins(order)
  {
  }

  lemma {:induction false} LiveAreSelected(entries: seq<Entry>, publicNames: set<string>, order: seq<string>)
    requires IsOrderOf(order, Ids(entries, publicNames))
    ensures multiset(Flatten(Selections(entries, publicNames, FIXED_BINS + ExtensionBins(order))))
         == multiset(Live(entries, publicNames))
  {
    hide BinOf, Select, Flatten, Live, Ids;
    var bins := FIXED_BINS + ExtensionBins(order);
    IdsAreNotEmpty(entries, publicNames);
    AllBinsAreDistinct(order, Ids(entries, publicNames));
    forall entry | entry in entries && BinOf(entry, publicNames) != DROPPED ensures BinOf(entry, publicNames) in bins {
      BinsAreCovered(entries, publicNames, entry);
      InBins(BinOf(entry, publicNames), order);
    }
    SelectionsHoldTheLive(entries, publicNames, bins);
  }

  /** Every entry is built exactly once, except the names `extensions/` with nothing before the next slash. */
  lemma {:induction false} EntriesAreBuiltOnceUnlessDropped(entries: seq<Entry>, publicNames: set<string>, order: seq<string>)
    requires IsOrderOf(order, Ids(entries, publicNames))
    ensures multiset(Flatten(Build(entries, publicNames, order))) == multiset(Live(entries, publicNames))
  {
    hide BinOf, Select, Flatten, Live, Ids, PlaceAll, Greedy;
    var fixed, groups := Selections(entries, publicNames, FIXED_BINS), Selections(entries, publicNames, ExtensionBins(order));
    LiveAreSelected(entries, publicNames, order);
    assert Selections(entries, publicNames, FIXED_BINS + ExtensionBins(order)) == fixed + groups;
    FlattenConcat(fixed, groups);
    FlattenConcat(fixed, Partition(groups, 5));
    EntriesAreConserved(groups, Greedy(groups, 5), 5);
  }

  lemma {:induction false} InBins(bin: Bin, order: seq<string>)
    requires bin.Extension? ==> bin.id in order
    ensures bin in FIXED_BINS + ExtensionBins(order)
  {
    var bins := FIXED_BINS + ExtensionBins(order);
    match bin
    case Base => assert bins[0] == bin;
    case PublicSdk => assert bins[1] == bin;
    case PrivateSdk => assert bins[2] == bin;
    case Extension(id) =>
      var i :| 0 <= i < |order| && order[i] == id;
      assert bins[3 + i] == bin;
  }

  /** The bin of the dropped names, read off the name: nothing, or a slash, behind `extensions/`. */
  lemma {:induction false} DroppedIff(entry: Entry, publicNames: set<string>)
    ensures BinOf(entry, publicNames) == DROPPED <==>
      entry.name == "extensions/" || "extensions//" <= entry.name
  {
    var prefix, name := "extensions/", entry.name;
    if prefix <= name {
      assert name == prefix + name[|prefix|..];
      assert name[0] == 'e';
      assert "extensions//" == prefix + "/";
    }
  }

  lemma {:induction false} SelectedIff(entries: seq<Entry>, publicNames: set<string>, bin: Bin, entry: Entry)
    ensures entry in Select(entries, publicNames, bin) <==> entry in entries && BinOf(entry, publicNames) == bin
    decreases |entries|
  {
    hide BinOf;
    if entries != [] {
      assert entries == entries[..|entries| - 1] + [entries[|entries| - 1]];
      SelectedIff(entries[..|entries| - 1], publicNames, bin, entry);
    }
  }

  lemma {:induction false} GatheredIff<T>(groups: seq<seq<T>>, placement: seq<nat>, j: nat, x: T)
    requires |placement| == |groups|
    ensures x in Gather(groups, placement, j) <==> exists g :: 0 <= g < |groups| && placement[g] == j && x in groups[g]
    decreases |groups|
  {
    if groups != [] {
      var n := |groups| - 1;
      GatheredIff(groups[..n], placement[..n], j, x);
      assert forall g :: 0 <= g < n ==> groups[..n][g] == groups[g] && placement[..n][g] == placement[g];
    }
  }

  // ----- which build, by the name -----

  /** The name is that of the extension itself or of something under it. */
  predicate IsUnder(name: string, id: string) {
    name == "extensions/" + id || "extensions/" + id + "/" <= name
  }

  predicate IsId(id: string) { id != "" && '/' !in id }

  /** The segment is everything up to the first slash. */
  lemma {:induction false} FirstSegmentIs(s: string, id: string)
    ensures '/' !in FirstSegment(s) && FirstSegment(s) <= s
    ensures '/' !in id ==> (FirstSegment(s) == id <==> s == id || id + "/" <= s)
  {
    if s != "" && s[0] != '/' {
      FirstSegmentIs(s[1..], if id == "" then "" else id[1..]);
      if id != "" {
        assert id == [id[0]] + id[1..] && s == [s[0]] + s[1..];
        assert id + "/" == [id[0]] + (id[1..] + "/");
      }
    }
  }

  lemma {:induction false} SplitPrefix(prefix: string, rest: string, name: string)
    ensures prefix <= name ==> (prefix + rest <= name <==> rest <= name[|prefix|..])
    ensures prefix + rest == name <==> prefix <= name && name[|prefix|..] == rest
    ensures prefix + rest <= name ==> prefix <= name
  {
    if prefix <= name { assert name == prefix + name[|prefix|..]; }
    if prefix + rest <= name { assert name[..|prefix|] == prefix; }
  }

  lemma {:induction false} BinIff(entry: Entry, publicNames: set<string>, id: string)
    ensures var bin, name := BinOf(entry, publicNames), entry.name;
      && (bin == Base <==> !("plugin-sdk/" <= name) && !("extensions/" <= name))
      && (bin == PublicSdk <==> "plugin-sdk/" <= name && name in publicNames)
      && (bin == PrivateSdk <==> "plugin-sdk/" <= name && name !in publicNames)
      && (IsId(id) ==> (bin == Extension(id) <==> IsUnder(name, id)))
  {
    var prefix, name := "extensions/", entry.name;
    assert prefix + id + "/" == prefix + (id + "/");
    SplitPrefix(prefix, id, name);
    SplitPrefix(prefix, id + "/", name);
    if "plugin-sdk/" <= name { assert name[0] == 'p'; }
    if prefix <= name {
      assert name[0] == 'e';
      FirstSegmentIs(name[|prefix|..], id);
    }
  }

  /** Every name below `extensions/` belongs to an extension, except those that are dropped. */
  lemma {:induction false} ExtensionOf(entry: Entry, publicNames: set<string>) returns (id: string)
    requires "extensions/" <= entry.name
    ensures IsUnder(entry.name, id) && '/' !in id
    ensures id == "" <==> BinOf(entry, publicNames) == DROPPED
  {
    var prefix, name := "extensions/", entry.name;
    id := FirstSegment(name[|prefix|..]);
    assert prefix + id + "/" == prefix + (id + "/");
    assert name[0] == 'e';
    SplitPrefix(prefix, id, name);
    SplitPrefix(prefix, id + "/", name);
    FirstSegmentIs(name[|prefix|..], id);
  }

  /** The first three builds: the names without either prefix, and those of the plugin SDK, public or not. */
  lemma {:induction false} FixedBuildsIff(entries: seq<Entry>, publicNames: set<string>, order: seq<string>, entry: Entry)
    ensures var build, name := Build(entries, publicNames, order), entry.name;
      && |build| == 8
      && (entry in build[0] <==> entry in entries && !("plugin-sdk/" <= name) && !("extensions/" <= name))
      && (entry in build[1] <==> entry in entries && "plugin-sdk/" <= name && name in publicNames)
      && (entry in build[2] <==> entry in entries && "plugin-sdk/" <= name && name !in publicNames)
  {
    BinIff(entry, publicNames, "");
    SelectedIff(entries, publicNames, Base, entry);
    SelectedIff(entries, publicNames, PublicSdk, entry);
    SelectedIff(entries, publicNames, PrivateSdk, entry);
    hide BinOf, Select, Partition;
  }

  lemma {:induction false} GroupsAreBins(entries: seq<Entry>, publicNames: set<string>, order: seq<string>, g: nat, id: string,
        entry: Entry)
    requires IsOrderOf(order, Ids(entries, publicNames)) && g < |order| && IsId(id) && IsUnder(entry.name, id)
    ensures entry in Selections(entries, publicNames, ExtensionBins(order))[g] <==> entry in entries && order[g] == id
  {
    BinIff(entry, publicNames, id);
    SelectedIff(entries, publicNames, Extension(order[g]), entry);
    hide BinOf, Select, IsUnder;
  }

  /** The entries of one extension, the extension itself and everything under it, are in one build and no other, which
      is one of the last five. */
  lemma {:induction false} ExtensionsStayTogether(
      entries: seq<Entry>, publicNames: set<string>, order: seq<string>, id: string) returns (build: nat)
    requires IsOrderOf(order, Ids(entries, publicNames)) && IsId(id)
    ensures 3 <= build < 8
    ensures forall entry, other: nat :: entry in entries && IsUnder(entry.name, id) && other < 8 ==>
      (entry in Build(entries, publicNames, order)[other] <==> other == build)
  {
    hide BinOf, Select, PlaceAll, Greedy, Gather, IsUnder;
    var groups := Selections(entries, publicNames, ExtensionBins(order));
    var placement := Greedy(groups, 5);
    build := 3;
    if g :| 0 <= g < |order| && order[g] == id { build := 3 + placement[g]; }
    forall entry, other: nat | entry in entries && IsUnder(entry.name, id) && other < 8
      ensures entry in Build(entries, publicNames, order)[other] <==> other == build
    {
      FixedBuildsIff(entries, publicNames, order, entry);
      BinIff(entry, publicNames, id);
      BinsAreCovered(entries, publicNames, entry);
      if other >= 3 {
        var part: nat := other - 3;
        GroupsStayWhole(groups, placement, 5, part);
        assert Build(entries, publicNames, order)[other] == Partition(groups, 5)[part];
        GatheredIff(groups, placement, part, entry);
        forall g | 0 <= g < |order| ensures entry in groups[g] <==> order[g] == id {
          GroupsAreBins(entries, publicNames, order, g, id, entry);
        }
      }
    }
  }
}
