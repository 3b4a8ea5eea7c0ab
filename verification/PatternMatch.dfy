/**
 The dotted path patterns of scripts/check-policy-config-coverage.ts: `*` stands for one segment and
 `**` for any number of them. `matchesParts` is compared with what that means, and with containment of
 one pattern's paths in another's.
 */
module PatternMatch {
  import opened Common

  type Parts = seq<string>

  predicate MatchesParts(pattern: Parts, value: Parts)
    decreases |pattern|
  {
    if pattern == [] then value == []
    else if pattern[0] == "**" then
      |pattern| == 1 || exists index :: 0 <= index <= |value| && MatchesParts(pattern[1..], value[index..])
    else value != [] && (pattern[0] == "*" || pattern[0] == value[0]) && MatchesParts(pattern[1..], value[1..])
  }

  /** The search loop of the source. */
  method Matches(pattern: Parts, value: Parts) returns (matches: bool)
    ensures matches == MatchesParts(pattern, value)
    decreases |pattern|
  {
    if pattern == [] {
      return value == [];
    }
    var head, tail := pattern[0], pattern[1..];
    if head == "**" {
      if tail == [] {
        return true;
      }
      for index := 0 to |value| + 1
        invariant forall i :: 0 <= i < index ==> !MatchesParts(tail, value[i..])
      {
        var found := Matches(tail, value[index..]);
        if found {
          return true;
        }
      }
      return false;
    }
    if value == [] {
      return false;
    }
    if head != "*" && head != value[0] {
      return false;
    }
    matches := Matches(tail, value[1..]);
  }

  // ----- what a pattern means -----

  /** The segments one part of a pattern can stand for. */
  predicate Covers(part: string, segments: Parts) {
    part == "**" || (|segments| == 1 && (part == "*" || part == segments[0]))
  }

  /** The value falls into consecutive pieces, one for every part of the pattern. */
  ghost predicate Aligned(pattern: Parts, pieces: seq<Parts>, value: Parts) {
    && |pieces| == |pattern|
    && Flatten(pieces) == value
    && forall i :: 0 <= i < |pattern| ==> Covers(pattern[i], pieces[i])
  }

  lemma {:induction false} MatchIsAligned(pattern: Parts, value: Parts) returns (pieces: seq<Parts>)
    requires MatchesParts(pattern, value)
    ensures Aligned(pattern, pieces, value)
    decreases |pattern|
  {
    if pattern == [] {
      pieces := [];
    } else if pattern[0] == "**" && |pattern| == 1 {
      pieces := [value];
      assert Flatten([value]) == value by { assert [value][..0] == []; }
    } else {
      var n := 1;
      if pattern[0] == "**" {
        n :| 0 <= n <= |value| && MatchesParts(pattern[1..], value[n..]);
      }
      var rest := MatchIsAligned(pattern[1..], value[n..]);
      pieces := [value[..n]] + rest;
      assert pieces[1..] == rest;
      FlattenCons(pieces);
      assert forall i :: 1 <= i < |pattern| ==> pattern[i] == pattern[1..][i - 1] && pieces[i] == rest[i - 1];
    }
  }

  lemma {:induction false} AlignedMatches(pattern: Parts, pieces: seq<Parts>, value: Parts)
    requires Aligned(pattern, pieces, value)
    ensures MatchesParts(pattern, value)
    decreases |pattern|
  {
    if pattern != [] {
      var rest := Flatten(pieces[1..]);
      FlattenCons(pieces);
      assert value == pieces[0] + rest && value[|pieces[0]|..] == rest;
      assert Covers(pattern[0], pieces[0]);
      AlignedMatches(pattern[1..], pieces[1..], rest);
    }
  }

  /** matchesParts accepts a path exactly when its segments can be dealt out to the parts in order. */
  lemma {:induction false} MatchesIffAligned(pattern: Parts, value: Parts)
    ensures MatchesParts(pattern, value) <==> exists pieces :: Aligned(pattern, pieces, value)
  {
    if MatchesParts(pattern, value) {
      var pieces := MatchIsAligned(pattern, value);
    }
    if pieces :| Aligned(pattern, pieces, value) {
      AlignedMatches(pattern, pieces, value);
    }
  }

  // ----- concatenation -----

  lemma {:induction false} MatchConcat(p1: Parts, p2: Parts, v1: Parts, v2: Parts)
    requires MatchesParts(p1, v1) && MatchesParts(p2, v2)
    ensures MatchesParts(p1 + p2, v1 + v2)
  {
    var pieces1 := MatchIsAligned(p1, v1);
    var pieces2 := MatchIsAligned(p2, v2);
    FlattenConcat(pieces1, pieces2);
    AlignedMatches(p1 + p2, pieces1 + pieces2, v1 + v2);
  }

  lemma {:induction false} MatchSplit(p1: Parts, p2: Parts, value: Parts) returns (n: nat)
    requires MatchesParts(p1 + p2, value)
    ensures n <= |value| && MatchesParts(p1, value[..n]) && MatchesParts(p2, value[n..])
    decreases |p1|
  {
    if p1 == [] {
      assert p1 + p2 == p2;
      n := 0;
      assert value[0..] == value;
    } else {
      assert (p1 + p2)[1..] == p1[1..] + p2;
      var skip := 1;
      if p1[0] == "**" {
        if p1 + p2 == ["**"] {
          assert p1[1..] == [] && p2 == [];
          assert MatchesParts(p2, value[|value|..]);
          n := |value|;
          return;
        }
        skip :| 0 <= skip <= |value| && MatchesParts(p1[1..] + p2, value[skip..]);
      }
      var m := MatchSplit(p1[1..], p2, value[skip..]);
      n := skip + m;
      assert value[skip..][..m] == value[..n][skip..] && value[skip..][m..] == value[n..];
    }
  }

  /** A concatenated pattern matches exactly the concatenations. */
  lemma {:induction false} MatchesConcatenation(p1: Parts, p2: Parts, value: Parts)
    ensures MatchesParts(p1 + p2, value) <==>
      exists n :: 0 <= n <= |value| && MatchesParts(p1, value[..n]) && MatchesParts(p2, value[n..])
  {
    if MatchesParts(p1 + p2, value) {
      var n := MatchSplit(p1, p2, value);
    }
    if n :| 0 <= n <= |value| && MatchesParts(p1, value[..n]) && MatchesParts(p2, value[n..]) {
      MatchConcat(p1, p2, value[..n], value[n..]);
      assert value[..n] + value[n..] == value;
    }
  }

  // ----- patterns matched against patterns -----

  /** Every path of q is a path of p. */
  ghost predicate Contains(p: Parts, q: Parts) {
    forall value :: MatchesParts(q, value) ==> MatchesParts(p, value)
  }

  /** Read as a path, a pattern matches itself. */
  lemma {:induction false} MatchesItself(q: Parts)
    ensures MatchesParts(q, q)
    decreases |q|
  {
    if q != [] {
      MatchesItself(q[1..]);
      if q[0] == "**" && |q| > 1 { assert MatchesParts(q[1..], q[1..]); }
    }
  }

  /** For a pattern without `**`, being matched as a path passes on to all of its paths. */
  lemma {:induction false} MatchedPatternIsContained(p: Parts, q: Parts, value: Parts)
    requires "**" !in q && MatchesParts(p, q) && MatchesParts(q, value)
    ensures MatchesParts(p, value)
    decreases |p|
  {
    if p != [] {
      if p[0] == "**" {
        if |p| > 1 {
          var n :| 0 <= n <= |q| && MatchesParts(p[1..], q[n..]);
          assert q == q[..n] + q[n..];
          var m := MatchSplit(q[..n], q[n..], value);
          MatchedPatternIsContained(p[1..], q[n..], value[m..]);
        }
      } else {
        assert q[0] in q;
        MatchedPatternIsContained(p[1..], q[1..], value[1..]);
      }
    }
  }

  /** So the check of one monitored pattern against another tells containment exactly, as long as the
      monitored pattern has no `**`. */
  lemma {:induction false} MatchingTellsContainment(p: Parts, q: Parts)
    ensures Contains(p, q) ==> MatchesParts(p, q)
    ensures "**" !in q ==> (MatchesParts(p, q) <==> Contains(p, q))
  {
    MatchesItself(q);
    if "**" !in q && MatchesParts(p, q) {
      forall value | MatchesParts(q, value) ensures MatchesParts(p, value) { MatchedPatternIsContained(p, q, value); }
    }
  }

  // ----- why the `**` matters -----

  /** The pattern with `*` for every `**`: it takes a `**` for the one segment it is written as. */
  function AsText(q: Parts): Parts {
    if q == [] then [] else [if q[0] == "**" then "*" else q[0]] + AsText(q[1..])
  }

  /** A path with two segments for every `**`. */
  function Doubled(q: Parts): Parts {
    if q == [] then [] else (if q[0] == "**" then ["a", "b"] else [q[0]]) + Doubled(q[1..])
  }

  lemma {:induction false} TextMatches(q: Parts)
    ensures MatchesParts(AsText(q), q)
  {
    if q != [] { TextMatches(q[1..]); }
  }

  lemma {:induction false} DoubledIsAPath(q: Parts)
    ensures MatchesParts(q, Doubled(q))
    ensures |Doubled(q)| >= |q| && ("**" in q ==> |Doubled(q)| > |q|)
  {
    if q != [] {
      DoubledIsAPath(q[1..]);
      var n := if q[0] == "**" then 2 else 1;
      assert Doubled(q)[n..] == Doubled(q[1..]);
    }
  }

  lemma {:induction false} TextFixesTheLength(q: Parts, value: Parts)
    requires MatchesParts(AsText(q), value)
    ensures |value| == |q|
  {
    if q != [] {
      assert AsText(q)[1..] == AsText(q[1..]);
      TextFixesTheLength(q[1..], value[1..]);
    }
  }

  /** A monitored pattern may stand for its paths, whatever the pattern it is held against, if and only if it
      has no `**`. */
  lemma {:induction false} PatternStandsForItsPathsIff(q: Parts)
    ensures "**" !in q <==> forall p :: MatchesParts(p, q) ==> Contains(p, q)
  {
    if "**" in q {
      TextMatches(q);
      DoubledIsAPath(q);
      if MatchesParts(AsText(q), Doubled(q)) { TextFixesTheLength(q, Doubled(q)); }
      assert !Contains(AsText(q), q);
    } else {
      forall p | MatchesParts(p, q) ensures Contains(p, q) { MatchingTellsContainment(p, q); }
    }
  }

  /** The shortest case: `*` matches the text `**`, but not two segments, and in every such case both patterns
      have a segment. */
  lemma {:induction false} DoubleStarIsOnlyText()
    ensures MatchesParts(["*"], ["**"]) && !Contains(["*"], ["**"])
    ensures forall p, q :: MatchesParts(p, q) && !Contains(p, q) ==> |p| >= 1 && |q| >= 1
  {
    forall p, q | MatchesParts(p, q) && !Contains(p, q) ensures |p| >= 1 && |q| >= 1 { PatternStandsForItsPathsIff(q); }
    assert MatchesParts(["*"][1..], ["**"][1..]);
    assert MatchesParts(["**"], ["a", "b"]) && !MatchesParts(["*"], ["a", "b"]);
  }

  // ----- the coverage report -----

  /** `text.split(".")` */
  function Split(text: string): (parts: Parts)
    ensures parts != []
  {
    if text == "" then [""]
    else
      var parts := Split(text[1..]);
      if text[0] == '.' then [""] + parts else [[text[0]] + parts[0]] + parts[1..]
  }

  /** `parts.join(".")` */
  function Dotted(parts: Parts): string {
    if parts == [] then "" else if |parts| == 1 then parts[0] else parts[0] + "." + Dotted(parts[1..])
  }

  function Longer(c: char, parts: Parts): Parts
    requires parts != []
  {
    [[c] + parts[0]] + parts[1..]
  }

  lemma {:induction false} SplitHead(c: char, text: string)
    ensures Split([c] + text) == if c == '.' then [""] + Split(text) else Longer(c, Split(text))
  {
    assert ([c] + text)[1..] == text;
  }

  lemma {:induction false} DottedHead(c: char, parts: Parts)
    requires parts != []
    ensures Dotted([""] + parts) == ['.'] + Dotted(parts)
    ensures Dotted(Longer(c, parts)) == [c] + Dotted(parts)
  {
    assert ([""] + parts)[1..] == parts;
    var longer := Longer(c, parts);
    assert longer[1..] == parts[1..];
    if |parts| > 1 {
      var rest := "." + Dotted(parts[1..]);
      assert Dotted(longer) == longer[0] + rest by { assert longer[0] + "." + Dotted(longer[1..]) == longer[0] + rest; }
      assert Dotted(parts) == parts[0] + rest by { assert parts[0] + "." + Dotted(parts[1..]) == parts[0] + rest; }
      hide Dotted;
      assert [c] + parts[0] + rest == [c] + (parts[0] + rest);
    }
  }

  lemma {:induction false} SplitIsSound(text: string)
    ensures Dotted(Split(text)) == text && forall part :: part in Split(text) ==> '.' !in part
  {
    if text != "" {
      var parts := Split(text[1..]);
      SplitIsSound(text[1..]);
      SplitHead(text[0], text[1..]);
      DottedHead(text[0], parts);
      assert text == [text[0]] + text[1..];
      hide Dotted, Split;
      assert parts[0] in parts && forall part :: part in parts[1..] ==> part in parts;
    }
  }

  lemma {:induction false} SplitOfDotted(parts: Parts)
    requires parts != [] && forall part :: part in parts ==> '.' !in part
    ensures Split(Dotted(parts)) == parts
    decreases |parts|, |parts[0]|
  {
    if parts[0] != "" {
      var c, shorter := parts[0][0], [parts[0][1..]] + parts[1..];
      hide Dotted, Split;
      assert parts[0] in parts && c in parts[0];
      forall part | part in shorter ensures '.' !in part {
        if part != parts[0][1..] { assert part in parts[1..] && part in parts; }
      }
      assert parts[0] == [c] + parts[0][1..] && shorter[1..] == parts[1..];
      assert parts == Longer(c, shorter);
      SplitOfDotted(shorter);
      DottedHead(c, shorter);
      SplitHead(c, Dotted(shorter));
    } else if |parts| > 1 {
      hide Dotted, Split;
      assert parts == [""] + parts[1..];
      SplitOfDotted(parts[1..]);
      DottedHead('.', parts[1..]);
      SplitHead('.', Dotted(parts[1..]));
    }
  }

  /** Splitting at the dots: the one list of parts without dots that is joined to the text. */
  lemma {:induction false} SplitIff(text: string, parts: Parts)
    ensures Split(text) == parts <==> parts != [] && Dotted(parts) == text && forall part :: part in parts ==> '.' !in part
  {
    SplitIsSound(text);
    if parts != [] && Dotted(parts) == text && forall part :: part in parts ==> '.' !in part { SplitOfDotted(parts); }
  }

  predicate PathMatchesPattern(pattern: string, value: string) { MatchesParts(Split(pattern), Split(value)) }

  datatype Classification = Classification(pattern: string, allowNoSchemaPath: bool)

  /** `classifications.find(...)` */
  function Classify(classifications: seq<Classification>, path: string): Option<Classification> {
    if classifications == [] then None
    else if PathMatchesPattern(classifications[0].pattern, path) then Some(classifications[0])
    else Classify(classifications[1..], path)
  }

  /** Whether a monitored pattern is reported as matching nothing. */
  predicate IsUnmatched(monitored: string, leafPaths: seq<string>, classifications: seq<Classification>) {
    && (forall path <- leafPaths :: !PathMatchesPattern(monitored, path))
    && (forall item <- classifications :: !(item.allowNoSchemaPath && PathMatchesPattern(item.pattern, monitored)))
  }

  /** The first classification whose pattern the path matches. */
  ghost predicate IsFirstMatch(classifications: seq<Classification>, path: string, i: nat) {
    && i < |classifications| && PathMatchesPattern(classifications[i].pattern, path)
    && forall j :: 0 <= j < i ==> !PathMatchesPattern(classifications[j].pattern, path)
  }

  lemma {:induction false} ClassifyIff(classifications: seq<Classification>, path: string, item: Classification)
    ensures Classify(classifications, path) == Some(item) <==>
      exists i: nat :: IsFirstMatch(classifications, path, i) && classifications[i] == item
    ensures Classify(classifications, path).Some? <==>
      exists i :: 0 <= i < |classifications| && PathMatchesPattern(classifications[i].pattern, path)
  {
    hide PathMatchesPattern;
    if classifications != [] {
      var rest := classifications[1..];
      if PathMatchesPattern(classifications[0].pattern, path) {
        assert IsFirstMatch(classifications, path, 0);
      } else {
        ClassifyIff(rest, path, item);
        if i: nat :| IsFirstMatch(rest, path, i) && rest[i] == item {
          assert forall j :: 0 < j < i + 1 ==> classifications[j] == rest[j - 1];
          assert IsFirstMatch(classifications, path, i + 1) && classifications[i + 1] == item;
        }
        if i: nat :| IsFirstMatch(classifications, path, i) && classifications[i] == item {
          assert forall j :: 0 <= j < i - 1 ==> rest[j] == classifications[j + 1];
          assert IsFirstMatch(rest, path, i - 1) && rest[i - 1] == item;
        }
        if i :| 0 <= i < |classifications| && PathMatchesPattern(classifications[i].pattern, path) {
          assert rest[i - 1] == classifications[i];
        }
      }
    }
  }

  /** A monitored pattern without `**` that is let pass although no path exists yet is safe: whatever path
      it comes to monitor later is already classified. */
  lemma {:induction false} FuturePathsAreClassified(monitored: string, leafPaths: seq<string>,
        classifications: seq<Classification>, path: string)
    requires !IsUnmatched(monitored, leafPaths, classifications)
    requires forall leaf <- leafPaths :: !PathMatchesPattern(monitored, leaf)
    requires "**" !in Split(monitored) && PathMatchesPattern(monitored, path)
    ensures Classify(classifications, path).Some?
  {
    var item :| item in classifications && item.allowNoSchemaPath && PathMatchesPattern(item.pattern, monitored);
    MatchedPatternIsContained(Split(item.pattern), Split(monitored), Split(path));
    ClassifyIff(classifications, path, item);
  }
}
