/**
 The `{name}` placeholders of a catalogue text: the scan of `/\{(\w+)\}/g` that both
 scripts/control-ui-i18n.ts and scripts/control-ui-i18n-verify.ts use, and its meaning.
 */
module Placeholders {
  import opened Text

  /** The matches from position i on; a failed match resumes one character later. */
  function Scan(s: string, i: nat): set<string>
    requires i <= |s|
    decreases |s| - i
  {
    if i == |s| then {}
    else if s[i] != '{' then Scan(s, i + 1)
    else
      var end := WordEnd(s, i + 1);
      if i + 1 < end < |s| && s[end] == '}' then {s[i + 1..end]} + Scan(s, end + 1)
      else Scan(s, i + 1)
  }

  function ExtractPlaceholders(s: string): set<string> { Scan(s, 0) }

  /** `name` in braces stands at position i. */
  ghost predicate StandsAt(s: string, name: string, i: nat) {
    && i + |name| + 1 < |s|
    && s[i] == '{' && s[i + 1..i + 1 + |name|] == name && s[i + 1 + |name|] == '}'
    && name != "" && forall k :: i < k <= i + |name| ==> IsWordChar(s[k])
  }

  lemma ScanAt(s: string, i: nat)
    requires i < |s|
    ensures var end := WordEnd(s, i + 1);
      Scan(s, i) ==
        if s[i] == '{' && i + 1 < end < |s| && s[end] == '}' then {s[i + 1..end]} + Scan(s, end + 1) else Scan(s, i + 1)
  {
  }

  lemma BraceIsNotInAWord(s: string, i: nat, at: nat)
    requires i <= at < |s| && s[at] == '{'
    ensures WordEnd(s, i) <= at
  {
  }

  lemma {:induction false} ScanFinds(s: string, name: string, i: nat, at: nat)
    requires i <= at && StandsAt(s, name, at)
    ensures name in Scan(s, i)
    decreases |s| - i
  {
    assert at < |s| && s[at] == '{';
    if i == at {
      NameEnds(s, name, at);
    } else {
      ScanAt(s, i);
      hide Scan, StandsAt, IsWordChar;
      if s[i] == '{' && i + 1 < WordEnd(s, i + 1) < |s| && s[WordEnd(s, i + 1)] == '}' {
        BraceIsNotInAWord(s, i + 1, at);
        ScanFinds(s, name, WordEnd(s, i + 1) + 1, at);
      } else {
        ScanFinds(s, name, i + 1, at);
      }
    }
  }

  lemma NameEnds(s: string, name: string, at: nat)
    requires StandsAt(s, name, at)
    ensures WordEnd(s, at + 1) == at + 1 + |name|
  {
  }

  lemma {:induction false} ScanIsSound(s: string, name: string, i: nat) returns (at: nat)
    requires i <= |s| && name in Scan(s, i)
    ensures i <= at && StandsAt(s, name, at)
    decreases |s| - i
  {
    if s[i] == '{' {
      var end := WordEnd(s, i + 1);
      if i + 1 < end < |s| && s[end] == '}' {
        if name == s[i + 1..end] {
          at := i;
        } else {
          at := ScanIsSound(s, name, end + 1);
        }
      } else {
        at := ScanIsSound(s, name, i + 1);
      }
    } else {
      at := ScanIsSound(s, name, i + 1);
    }
  }

  /** The scan misses nothing: a name is found exactly when it stands in braces somewhere. */
  lemma {:induction false} PlaceholdersAreExactlyTheBracedNames(s: string, name: string)
    ensures name in ExtractPlaceholders(s) <==> exists at :: StandsAt(s, name, at)
  {
    if name in ExtractPlaceholders(s) {
      var at := ScanIsSound(s, name, 0);
    }
    if exists at :: StandsAt(s, name, at) {
      var at :| StandsAt(s, name, at);
      ScanFinds(s, name, 0, at);
    }
  }
}
