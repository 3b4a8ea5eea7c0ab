/**
 `readKotlinInterpolations` (scripts/android-app-i18n.ts): the `$name` and `${...}` interpolations of
 a text, with braces nested and braces inside quotes skipped.
 */
module KotlinInterpolation {
  import opened Common
  import opened Text
  import B = BalancedText

  datatype Span = Span(start: nat, end: nat)

  predicate IsNameStart(c: char) { 'a' <= c <= 'z' || 'A' <= c <= 'Z' || c == '_' }

  /** The scan inside `${`. */
  datatype BraceState = BraceState(depth: int, quote: Option<char>, escaped: bool)

  function BraceStep(s: BraceState, c: char): BraceState {
    if s.escaped then s.(escaped := false)
    else if s.quote.Some? && c == '\\' then s.(escaped := true)
    else if s.quote == Some(c) then s.(quote := None)
    else if s.quote.None? && (c == '"' || c == '\'') then s.(quote := Some(c))
    else if s.quote.None? && c == '{' then s.(depth := s.depth + 1)
    else if s.quote.None? && c == '}' then s.(depth := s.depth - 1)
    else s
  }

  /** One past the brace that brings the depth back to 0. */
  function BraceEnd(source: string, i: nat, s: BraceState): (end: Option<nat>)
    requires i <= |source|
    ensures end.Some? ==> i < end.value <= |source|
    decreases |source| - i
  {
    if i == |source| then None
    else
      var next := BraceStep(s, source[i]);
      if next.depth == 0 then Some(i + 1) else BraceEnd(source, i + 1, next)
  }

  const OPENED := BraceState(1, None, false)

  /** Whether an interpolation starts at i, and where it ends; None if a brace is never closed. */
  datatype Head = Text | Unbalanced | Interpolation(end: nat)

  function HeadAt(source: string, i: nat): (head: Head)
    requires i < |source|
    ensures head.Interpolation? ==> i + 1 < head.end <= |source|
  {
    if source[i] != '$' || i + 1 == |source| then Text
    else if source[i + 1] == '{' then
      match BraceEnd(source, i + 2, OPENED)
      case Some(end) => Interpolation(end)
      case None => Unbalanced
    else if IsNameStart(source[i + 1]) then Interpolation(WordEnd(source, i + 2))
    else Text
  }

  /** All interpolations from position i on, or None if one is unbalanced. */
  function Scan(source: string, i: nat): Option<seq<Span>>
    requires i <= |source|
    decreases |source| - i
  {
    if i == |source| then Some([])
    else
      match HeadAt(source, i)
      case Text => Scan(source, i + 1)
      case Unbalanced => None
      case Interpolation(end) => Cons(Span(i, end), Scan(source, end))
  }

  function Cons(span: Span, rest: Option<seq<Span>>): Option<seq<Span>> {
    match rest
    case Some(spans) => Some([span] + spans)
    case None => None
  }

  function Append(spans: seq<Span>, rest: Option<seq<Span>>): Option<seq<Span>> {
    match rest
    case Some(more) => Some(spans + more)
    case None => None
  }

  lemma {:induction false} AppendCons(spans: seq<Span>, span: Span, rest: Option<seq<Span>>)
    ensures Append([], rest) == rest
    ensures Append(spans, Cons(span, rest)) == Append(spans + [span], rest)
    ensures Append(spans, Some([])) == Some(spans)
  {
    if rest.Some? {
      assert [] + rest.value == rest.value;
      assert spans + ([span] + rest.value) == spans + [span] + rest.value;
    }
    assert spans + [] == spans;
  }

  lemma ScanStep(source: string, i: nat)
    requires i < |source|
    ensures match HeadAt(source, i)
      case Text => Scan(source, i) == Scan(source, i + 1)
      case Interpolation(end) => i < end <= |source| && Scan(source, i) == Cons(Span(i, end), Scan(source, end))
      case Unbalanced => Scan(source, i) == None
  {
  }

  method ReadKotlinInterpolations(source: string) returns (interpolations: Option<seq<Span>>)
    ensures interpolations == Scan(source, 0)
  {
    var found: seq<Span> := [];
    var index := 0;
    AppendCons([], Span(0, 0), Scan(source, 0));
    while index < |source|
      invariant index <= |source|
      invariant Scan(source, 0) == Append(found, Scan(source, index))
    {
      ScanStep(source, index);
      hide Scan;
      if source[index] != '$' || index + 1 == |source| || (source[index + 1] != '{' && !IsNameStart(source[index + 1])) {
        index := index + 1;
        continue;
      }
      var start := index;
      if source[start + 1] != '{' {
        index := index + 2;
        while index < |source| && IsWordChar(source[index])
          invariant start + 2 <= index <= |source| && WordEnd(source, index) == WordEnd(source, start + 2)
        {
          index := index + 1;
        }
      } else {
        var state := OPENED;
        index := index + 2;
        while index < |source| && state.depth != 0
          invariant start + 2 <= index <= |source|
          invariant BraceEnd(source, start + 2, OPENED) ==
            (if state.depth == 0 then Some(index) else BraceEnd(source, index, state))
        {
          state := BraceStep(state, source[index]);
          index := index + 1;
        }
        if state.depth != 0 {
          return None;
        }
      }
      assert HeadAt(source, start) == Interpolation(index);
      AppendCons(found, Span(start, index), Scan(source, index));
      found := found + [Span(start, index)];
    }
    AppendCons(found, Span(0, 0), None);
    interpolations := Some(found);
  }

  // ----- the spans -----

  /** Spans from `from` on, one after the other, each at least two characters long. */
  ghost predicate Ordered(spans: seq<Span>, from: nat, length: nat)
    decreases |spans|
  {
    if spans == [] then from <= length
    else
      && from <= spans[0].start && spans[0].start + 1 < spans[0].end <= length
      && Ordered(spans[1..], spans[0].end, length)
  }

  lemma {:induction false} ScanIsOrdered(source: string, i: nat, from: nat)
    requires from <= i <= |source| && Scan(source, i).Some?
    ensures Ordered(Scan(source, i).value, from, |source|)
    decreases |source| - i
  {
    if i < |source| {
      match HeadAt(source, i)
      case Text => ScanIsOrdered(source, i + 1, from);
      case Interpolation(end) => ScanIsOrdered(source, end, end);
    }
  }

  /** The text of the spans. */
  function Tokens(source: string, spans: seq<Span>): (tokens: seq<string>)
    requires forall i :: 0 <= i < |spans| ==> spans[i].start <= spans[i].end <= |source|
    ensures |tokens| == |spans|
  {
    seq(|spans|, i requires 0 <= i < |spans| => source[spans[i].start..spans[i].end])
  }

  /** The texts between, before and after the spans, alternating with the tokens. */
  ghost function Reassembled(source: string, spans: seq<Span>, from: nat): string
    requires Ordered(spans, from, |source|)
    decreases |spans|
  {
    if spans == [] then source[from..]
    else
      source[from..spans[0].start] + source[spans[0].start..spans[0].end] + Reassembled(source, spans[1..], spans[0].end)
  }

  lemma {:induction false} SpansReassembleTheSource(source: string, spans: seq<Span>, from: nat)
    requires Ordered(spans, from, |source|)
    ensures Reassembled(source, spans, from) == source[from..]
    decreases |spans|
  {
    if spans != [] {
      var start, end := spans[0].start, spans[0].end;
      SpansReassembleTheSource(source, spans[1..], end);
      assert source[from..] == source[from..start] + source[start..end] + source[end..];
    }
  }

  // ----- what `${` and its brace enclose -----

  const BRACES := B.Syntax({'"', '\''}, '{', '}')

  /** The state of the scan behind this text. */
  ghost predicate Describes(s: BraceState, text: string) {
    && s.depth == 1 + B.Depth(text, BRACES)
    && B.QuoteAfter(text, BRACES.marks) == (if s.quote.None? then B.Code else B.Quoted(s.quote.value, s.escaped))
    && (s.quote.None? ==> !s.escaped)
  }

  lemma {:induction false} BraceStepDescribes(s: BraceState, text: string, c: char)
    requires Describes(s, text)
    ensures Describes(BraceStep(s, c), text + [c])
  {
    B.ScanGrows(text, c, BRACES);
    hide B.Depth, B.QuoteAfter;
  }

  lemma {:induction false} BraceEndIsMate(source: string, openIndex: nat, j: nat, s: BraceState)
    requires openIndex < j <= |source| && Describes(s, source[openIndex + 1..j])
    requires B.NeverBelowZero(source[openIndex + 1..j], BRACES)
    ensures match BraceEnd(source, j, s)
      case Some(end) => openIndex + 1 < end && B.IsMate(source, openIndex, end - 1, BRACES)
      case None => forall k: nat :: j <= k ==> !B.IsMate(source, openIndex, k, BRACES)
    decreases |source| - j
  {
    hide B.Depth, B.QuoteAfter;
    if j < |source| {
      var text, c := source[openIndex + 1..j], source[j];
      assert source[openIndex + 1..j + 1] == text + [c];
      BraceStepDescribes(s, text, c);
      B.ScanGrows(text, c, BRACES);
      B.NeverBelowZeroGrows(text, c, BRACES);
      assert text[..|text|] == text;
      if BraceStep(s, c).depth != 0 {
        BraceEndIsMate(source, openIndex, j + 1, BraceStep(s, c));
      }
    }
  }

  /** An interpolation in braces ends exactly at the mate of its opening brace. */
  lemma {:induction false} BracedInterpolationEndsAtItsMate(source: string, i: nat, openIndex: nat)
    requires openIndex == i + 1 < |source| && source[i] == '$' && source[openIndex] == '{'
    ensures match HeadAt(source, i)
      case Interpolation(end) => B.IsMate(source, openIndex, end - 1, BRACES)
      case Unbalanced => forall k: nat :: !B.IsMate(source, openIndex, k, BRACES)
      case Text => false
  {
    assert source[i + 2..i + 2] == [];
    assert Describes(OPENED, []) && B.NeverBelowZero([], BRACES);
    BraceEndIsMate(source, openIndex, i + 2, OPENED);
  }

  lemma {:induction false} MateEndsTheInterpolation(source: string, i: nat, openIndex: nat, k: nat)
    requires openIndex == i + 1 < |source| && source[i] == '$' && source[openIndex] == '{'
    requires B.IsMate(source, openIndex, k, BRACES)
    ensures HeadAt(source, i) == Interpolation(k + 1)
  {
    hide HeadAt, B.IsMate;
    BracedInterpolationEndsAtItsMate(source, i, openIndex);
    if HeadAt(source, i).Interpolation? {
      B.MateIsUnique(source, openIndex, k, HeadAt(source, i).end - 1, BRACES);
    }
  }

  // ----- a token means the same wherever it stands -----

  lemma {:induction false} BraceEndIsLocal(source: string, i: nat, s: BraceState, other: string, j: nat)
    requires i <= |source| && BraceEnd(source, i, s).Some?
    requires j + (BraceEnd(source, i, s).value - i) <= |other|
    requires other[j..j + (BraceEnd(source, i, s).value - i)] == source[i..BraceEnd(source, i, s).value]
    ensures BraceEnd(other, j, s) == Some(j + (BraceEnd(source, i, s).value - i))
    decreases |source| - i
  {
    var n := BraceEnd(source, i, s).value - i;
    assert other[j] == other[j..j + n][0] == source[i..i + n][0] == source[i];
    if BraceStep(s, source[i]).depth != 0 {
      assert other[j + 1..j + n] == other[j..j + n][1..] == source[i..i + n][1..] == source[i + 1..i + n];
      BraceEndIsLocal(source, i + 1, BraceStep(s, source[i]), other, j + 1);
    }
  }

  /** Scanning a token on its own finds exactly that token. */
  lemma {:induction false} TokenScansAsItself(source: string, i: nat)
    requires i < |source| && HeadAt(source, i).Interpolation?
    ensures var token := source[i..HeadAt(source, i).end]; Scan(token, 0) == Some([Span(0, |token|)])
  {
    var end := HeadAt(source, i).end;
    var token := source[i..end];
    assert token[0] == source[i] && token[1] == source[i + 1];
    if source[i + 1] == '{' {
      assert token[2..2 + (end - (i + 2))] == source[i + 2..end];
      BraceEndIsLocal(source, i + 2, OPENED, token, 2);
    } else {
      assert WordEnd(token, 2) == |token| by {
        assert forall k :: 2 <= k < |token| ==> token[k] == source[i + k] && IsWordChar(token[k]);
      }
    }
    assert HeadAt(token, 0) == Interpolation(|token|);
    assert [Span(0, |token|)] + [] == [Span(0, |token|)];
  }

  // ----- an interpolation in a longer text -----

  /** Another dollar sign behind a text changes none of the interpolations in it. */
  lemma {:induction false} HeadIsLocal(before: string, rest: string, i: nat)
    requires i < |before| && rest != "" && rest[0] == '$' && !HeadAt(before, i).Unbalanced?
    ensures HeadAt(before + rest, i) == HeadAt(before, i)
  {
    var whole := before + rest;
    assert whole[|before|] == '$';
    if before[i] == '$' && i + 1 < |before| {
      if before[i + 1] == '{' {
        var end := HeadAt(before, i).end;
        assert whole[i + 2..end] == before[i + 2..end];
        BraceEndIsLocal(before, i + 2, OPENED, whole, i + 2);
      } else if IsNameStart(before[i + 1]) {
        var end := WordEnd(before, i + 2);
        assert forall k :: i + 2 <= k < end ==> whole[k] == before[k];
        assert !IsWordChar(whole[end]);
        assert WordEnd(whole, i + 2) == end;
      }
    }
  }

  lemma {:induction false} ScanGoesOn(before: string, rest: string, i: nat)
    requires i <= |before| && Scan(before, i).Some? && rest != "" && rest[0] == '$'
    ensures Scan(before + rest, i) == Append(Scan(before, i).value, Scan(before + rest, |before|))
    decreases |before| - i
  {
    var whole := before + rest;
    var behind := Scan(whole, |before|);
    if i == |before| {
      AppendCons([], Span(0, 0), behind);
    } else {
      ScanStep(before, i);
      HeadIsLocal(before, rest, i);
      ScanStep(whole, i);
      hide Scan, HeadAt;
      match HeadAt(before, i)
      case Text => ScanGoesOn(before, rest, i + 1);
      case Interpolation(end) =>
        ScanGoesOn(before, rest, end);
        ConsAppend(Span(i, end), Scan(before, end).value, behind);
    }
  }

  lemma {:induction false} ConsAppend(span: Span, spans: seq<Span>, rest: Option<seq<Span>>)
    ensures Cons(span, Append(spans, rest)) == Append([span] + spans, rest)
  {
    if rest.Some? { assert [span] + (spans + rest.value) == [span] + spans + rest.value; }
  }

  lemma {:induction false} InterpolationIsFound(before: string, rest: string, end: nat)
    requires Scan(before, 0).Some? && rest != "" && rest[0] == '$'
    requires HeadAt(before + rest, |before|) == Interpolation(end)
    ensures end <= |before + rest|
    ensures Scan(before + rest, 0) == Append(Scan(before, 0).value + [Span(|before|, end)], Scan(before + rest, end))
  {
    ScanStep(before + rest, |before|);
    hide Scan, HeadAt;
    ScanGoesOn(before, rest, 0);
    AppendCons(Scan(before, 0).value, Span(|before|, end), Scan(before + rest, end));
  }

  function Braced(text: string): string { ['$'] + ['{'] + text + ['}'] }

  lemma {:induction false} BracedIsClosed(before: string, text: string, after: string)
    requires B.IsBalanced(text, BRACES)
    ensures var source, i := before + (Braced(text) + after), |before|;
      && source[i] == '$' && source[i + 1] == '{' && B.IsMate(source, i + 1, i + 2 + |text|, BRACES)
  {
    hide B.IsBalanced;
    var source := before + (Braced(text) + after);
    assert source[|before| + 2..|before| + 2 + |text|] == text;
  }

  lemma {:induction false} BracedIsFound(before: string, text: string, after: string)
    requires B.IsBalanced(text, BRACES) && Scan(before, 0).Some?
    ensures var source, end := before + (Braced(text) + after), |before| + |Braced(text)|;
      Scan(source, 0) == Append(Scan(before, 0).value + [Span(|before|, end)], Scan(source, end))
  {
    hide B.IsMate, B.IsBalanced, HeadAt, Scan;
    BracedIsClosed(before, text, after);
    MateEndsTheInterpolation(before + (Braced(text) + after), |before|, |before| + 1, |before| + 2 + |text|);
    InterpolationIsFound(before, Braced(text) + after, |before| + |Braced(text)|);
  }

  /** Behind a text whose own interpolations are closed, whatever expression is written between the braces and
      whatever follows: the scan finds the interpolations of that text, then this one whole, then the others. */
  lemma {:induction false} WrittenInterpolationIsFound(before: string, body: B.Body, after: string)
    requires B.IsBody(body, BRACES) && Scan(before, 0).Some?
    ensures var token := Braced(B.Text(body, BRACES));
      var source, end := before + (token + after), |before| + |token|;
      Scan(source, 0) == Append(Scan(before, 0).value + [Span(|before|, end)], Scan(source, end))
  {
    B.BodyIsBalanced(body, BRACES);
    hide B.Text, B.IsBalanced, Scan;
    BracedIsFound(before, B.Text(body, BRACES), after);
  }

  // ----- interpolations without braces -----

  /** Word characters of which the first is no digit. */
  predicate IsName(name: string) {
    name != "" && !('0' <= name[0] <= '9') && forall i :: 0 <= i < |name| ==> IsWordChar(name[i])
  }

  lemma {:induction false} NameHead(before: string, name: string, after: string)
    requires IsName(name) && (after == "" || !IsWordChar(after[0]))
    ensures HeadAt(before + (['$'] + name + after), |before|) == Interpolation(|before| + 1 + |name|)
  {
    var source, i := before + (['$'] + name + after), |before|;
    assert source[i] == '$';
    forall k | 0 <= k < |name| ensures source[i + 1 + k] == name[k] {}
    assert source[i + 1 + |name|..] == after;
    hide IsWordChar;
    var end := WordEnd(source, i + 2);
  }

  /** Behind a text whose own interpolations are closed, `$` and a name that no word character follows: the scan
      finds the interpolations of that text, then the name with its dollar sign, then the others. */
  lemma {:induction false} NamedInterpolationIsFound(before: string, name: string, after: string)
    requires IsName(name) && Scan(before, 0).Some? && (after == "" || !IsWordChar(after[0]))
    ensures var source, end := before + (['$'] + name + after), |before| + 1 + |name|;
      Scan(source, 0) == Append(Scan(before, 0).value + [Span(|before|, end)], Scan(source, end))
  {
    hide HeadAt, Scan, IsName;
    NameHead(before, name, after);
    InterpolationIsFound(before, ['$'] + name + after, |before| + 1 + |name|);
  }

  // ----- every dollar sign -----

  /** A dollar sign before a brace or the beginning of a name. */
  predicate Opens(source: string, i: nat) {
    i + 1 < |source| && source[i] == '$' && (source[i + 1] == '{' || IsName([source[i + 1]]))
  }

  /** What a span is: an opening dollar sign with the longest name, or the text up to the mate of its brace. */
  ghost predicate IsInterpolation(source: string, span: Span) {
    && Opens(source, span.start)
    && if source[span.start + 1] == '{' then
         span.end >= 1 && B.IsMate(source, span.start + 1, span.end - 1, BRACES)
       else
         && span.start < span.end <= |source| && IsName(source[span.start + 1..span.end])
         && (span.end < |source| ==> !IsWordChar(source[span.end]))
  }

  lemma {:induction false} HeadIsInterpolation(source: string, i: nat)
    requires i < |source|
    ensures HeadAt(source, i).Text? <==> !Opens(source, i)
    ensures HeadAt(source, i).Interpolation? ==> IsInterpolation(source, Span(i, HeadAt(source, i).end))
  {
    hide B.IsMate;
    if Opens(source, i) {
      if source[i + 1] == '{' {
        BracedInterpolationEndsAtItsMate(source, i, i + 1);
      } else {
        var end := WordEnd(source, i + 2);
        assert HeadAt(source, i) == Interpolation(end);
        var name := source[i + 1..end];
        assert name[0] == source[i + 1];
        assert forall k :: 1 <= k < |name| ==> name[k] == source[i + 1 + k];
      }
    }
  }

  ghost predicate IsCovered(spans: seq<Span>, i: nat) {
    exists k :: 0 <= k < |spans| && spans[k].start <= i < spans[k].end
  }

  /** The spans are exactly the interpolations: each one found is one, and every dollar sign that opens one is in a
      span, as its beginning or inside its braces. */
  lemma {:induction false} ExactlyTheInterpolations(source: string, from: nat)
    requires from <= |source| && Scan(source, from).Some?
    ensures forall k :: 0 <= k < |Scan(source, from).value| ==> IsInterpolation(source, Scan(source, from).value[k])
    ensures forall i: nat :: from <= i && Opens(source, i) ==> IsCovered(Scan(source, from).value, i)
    decreases |source| - from
  {
    if from < |source| {
      ScanStep(source, from);
      HeadIsInterpolation(source, from);
      hide Scan, HeadAt, Opens, IsInterpolation;
      match HeadAt(source, from)
      case Text => ExactlyTheInterpolations(source, from + 1);
      case Interpolation(end) =>
        ExactlyTheInterpolations(source, end);
        var first, rest := Span(from, end), Scan(source, end).value;
        assert Scan(source, from).value == [first] + rest;
        forall i: nat | from <= i && Opens(source, i) ensures IsCovered([first] + rest, i) {
          if i < end {
            assert ([first] + rest)[0] == first;
          } else {
            var k :| 0 <= k < |rest| && rest[k].start <= i < rest[k].end;
            assert ([first] + rest)[k + 1] == rest[k];
          }
        }
    }
  }

  // ----- when a text is given up -----

  lemma {:induction false} HeadOfPrefix(before: string, rest: string, i: nat)
    requires i < |before| && rest != "" && rest[0] == '$'
    requires var head := HeadAt(before + rest, i); head.Text? || (head.Interpolation? && head.end <= |before|)
    ensures HeadAt(before, i) == HeadAt(before + rest, i)
  {
    var whole := before + rest;
    assert whole[|before|] == '$';
    if Opens(whole, i) {
      var end := HeadAt(whole, i).end;
      if whole[i + 1] == '{' {
        assert before[i + 2..end] == whole[i + 2..end];
        BraceEndIsLocal(whole, i + 2, OPENED, before, i + 2);
      } else {
        assert forall k :: i + 2 <= k < end ==> before[k] == whole[k];
        assert end < |before| ==> before[end] == whole[end];
      }
    }
  }

  lemma {:induction false} FirstUnbalanced(source: string, from: nat) returns (i: nat)
    requires from <= |source| && Scan(source, from).None?
    ensures from <= i < |source| && HeadAt(source, i).Unbalanced? && Scan(source[..i], from).Some?
    decreases |source| - from
  {
    ScanStep(source, from);
    if HeadAt(source, from).Unbalanced? {
      i := from;
    } else {
      var next := if HeadAt(source, from).Text? then from + 1 else HeadAt(source, from).end;
      i := FirstUnbalanced(source, next);
      assert source == source[..i] + source[i..];
      HeadOfPrefix(source[..i], source[i..], from);
      ScanStep(source[..i], from);
    }
  }

  ghost predicate HasNoMate(source: string, openIndex: nat) { forall k: nat :: !B.IsMate(source, openIndex, k, BRACES) }

  ghost predicate IsNeverClosed(source: string, i: nat) {
    i + 1 < |source| && source[i] == '$' && source[i + 1] == '{' && HasNoMate(source, i + 1)
  }

  /** A text is given up exactly when `${` without a mate stands somewhere behind a text whose own interpolations
      are closed. */
  lemma {:induction false} GivenUpIff(source: string)
    ensures Scan(source, 0).None? <==> exists i: nat :: IsNeverClosed(source, i) && Scan(source[..i], 0).Some?
  {
    hide Scan, HeadAt;
    if Scan(source, 0).None? {
      var i := FirstUnbalanced(source, 0);
      UnbalancedIsABrace(source, i);
      BracedInterpolationEndsAtItsMate(source, i, i + 1);
      assert IsNeverClosed(source, i);
    }
    if i: nat :| IsNeverClosed(source, i) && Scan(source[..i], 0).Some? {
      BracedInterpolationEndsAtItsMate(source, i, i + 1);
      ScanStep(source, i);
      assert source == source[..i] + source[i..];
      ScanGoesOn(source[..i], source[i..], 0);
    }
  }

  lemma UnbalancedIsABrace(source: string, i: nat)
    requires i < |source| && HeadAt(source, i).Unbalanced?
    ensures i + 1 < |source| && source[i] == '$' && source[i + 1] == '{'
  {
  }
}
