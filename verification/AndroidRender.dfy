/**
 `renderAndroidResourceValue` (scripts/android-app-i18n.ts): a translation whose Kotlin interpolations
 become positional format arguments. Formatting what it writes with the source's interpolations gives
 the translation back.
 */
module AndroidRender {
  import opened Common
  import opened Text
  import opened KotlinInterpolation
  import opened AndroidEscape

  // ----- decimal numbers -----

  function Digit(d: nat): char
    requires d < 10
  {
    "0123456789"[d]
  }

  predicate IsDigit(c: char) { '0' <= c <= '9' }

  function Decimal(n: nat): (s: string)
    ensures s != "" && forall i :: 0 <= i < |s| ==> IsDigit(s[i])
  {
    if n < 10 then [Digit(n)] else Decimal(n / 10) + [Digit(n % 10)]
  }

  function DigitValue(c: char): nat
    requires IsDigit(c)
  {
    c as int - '0' as int
  }

  function ParseDecimal(s: string): nat
    requires forall i :: 0 <= i < |s| ==> IsDigit(s[i])
  {
    if s == "" then 0 else 10 * ParseDecimal(s[..|s| - 1]) + DigitValue(s[|s| - 1])
  }

  lemma {:induction false} DecimalParses(n: nat)
    ensures ParseDecimal(Decimal(n)) == n
  {
    if n >= 10 {
      DecimalParses(n / 10);
      assert Decimal(n)[..|Decimal(n)| - 1] == Decimal(n / 10);
    }
  }

  // ----- the format strings Android understands -----

  function DigitsEnd(s: string, i: nat): (end: nat)
    requires i <= |s|
    ensures i <= end <= |s|
    ensures forall k :: i <= k < end ==> IsDigit(s[k])
    ensures end < |s| ==> !IsDigit(s[end])
    decreases |s| - i
  {
    if i < |s| && IsDigit(s[i]) then DigitsEnd(s, i + 1) else i
  }

  /** java.util.Formatter on `%%` and `%k$s`; None for anything else after a percent sign. */
  function Format(s: string, arguments: seq<string>): Option<string>
    decreases |s|
  {
    if s == "" then Some("")
    else if s[0] != '%' then Prepend([s[0]], Format(s[1..], arguments))
    else if |s| > 1 && s[1] == '%' then Prepend("%", Format(s[2..], arguments))
    else
      var end := DigitsEnd(s, 1);
      if end == 1 || !("$s" <= s[end..]) then None
      else
        var k := ParseDecimal(s[1..end]);
        if 1 <= k <= |arguments| then Prepend(arguments[k - 1], Format(s[end + 2..], arguments)) else None
  }

  function Prepend(head: string, rest: Option<string>): Option<string> {
    match rest
    case Some(tail) => Some(head + tail)
    case None => None
  }

  lemma {:induction false} PrependConcat(a: string, b: string, rest: Option<string>)
    ensures Prepend(a, Prepend(b, rest)) == Prepend(a + b, rest)
  {
    if rest.Some? { assert a + (b + rest.value) == a + b + rest.value; }
  }

  lemma {:induction false} PrependNothing(a: string, rest: Option<string>)
    ensures Prepend("", rest) == rest && Prepend(a, Some("")) == Some(a)
  {
    if rest.Some? { assert "" + rest.value == rest.value; }
    assert a + "" == a;
  }

  // ----- which argument an interpolation becomes -----

  function Count(tokens: seq<string>, token: string): nat {
    if tokens == [] then 0
    else Count(tokens[..|tokens| - 1], token) + (if tokens[|tokens| - 1] == token then 1 else 0)
  }

  /** The 1-based positions of a token, ascending. */
  function Indices(tokens: seq<string>, token: string): seq<nat> {
    if tokens == [] then []
    else
      Indices(tokens[..|tokens| - 1], token) + (if tokens[|tokens| - 1] == token then [|tokens|] else [])
  }

  lemma {:induction false} IndicesAscend(tokens: seq<string>, token: string)
    ensures var indices := Indices(tokens, token);
      && |indices| == Count(tokens, token)
      && (forall m :: 0 <= m < |indices| ==> 1 <= indices[m] <= |tokens| && tokens[indices[m] - 1] == token)
      && forall m, n :: 0 <= m < n < |indices| ==> indices[m] < indices[n]
    decreases |tokens|
  {
    if tokens != [] {
      var front := tokens[..|tokens| - 1];
      var before, indices := Indices(front, token), Indices(tokens, token);
      IndicesAscend(front, token);
      assert indices == before + (if tokens[|tokens| - 1] == token then [|tokens|] else []);
      hide Indices;
      assert forall m :: 0 <= m < |before| ==> indices[m] == before[m] && tokens[before[m] - 1] == front[before[m] - 1];
    }
  }

  predicate SameTokens(a: seq<string>, b: seq<string>) { multiset(a) == multiset(b) }

  /** The n-th occurrence of a token in the translation stands for its n-th occurrence in the source. */
  function ArgumentIndex(source: seq<string>, translated: seq<string>, j: nat): (index: nat)
    requires SameTokens(source, translated) && j < |translated|
    ensures 1 <= index <= |source| && source[index - 1] == translated[j]
  {
    CountIsMultiplicity(source, translated[j]);
    CountIsMultiplicity(translated, translated[j]);
    CountGrows(translated, j);
    IndicesAscend(source, translated[j]);
    Indices(source, translated[j])[Count(translated[..j], translated[j])]
  }

  lemma {:induction false} CountIsMultiplicity(tokens: seq<string>, token: string)
    ensures Count(tokens, token) == multiset(tokens)[token]
    decreases |tokens|
  {
    if tokens != [] {
      assert tokens == tokens[..|tokens| - 1] + [tokens[|tokens| - 1]];
      CountIsMultiplicity(tokens[..|tokens| - 1], token);
    }
  }

  lemma {:induction false} CountGrows(tokens: seq<string>, j: nat)
    requires j < |tokens|
    ensures Count(tokens[..j], tokens[j]) < Count(tokens, tokens[j])
    decreases |tokens|
  {
    var front := tokens[..|tokens| - 1];
    if j < |front| {
      assert front[..j] == tokens[..j];
      CountGrows(front, j);
    }
  }

  /** The arguments used are a permutation of 1..n that keeps the order of equal tokens. */
  lemma {:induction false} ArgumentsAreAPermutation(source: seq<string>, translated: seq<string>)
    requires SameTokens(source, translated)
    ensures |source| == |translated|
    ensures forall i, j :: 0 <= i < j < |translated| ==>
      && ArgumentIndex(source, translated, i) != ArgumentIndex(source, translated, j)
      && (translated[i] == translated[j] ==> ArgumentIndex(source, translated, i) < ArgumentIndex(source, translated, j))
  {
    assert |multiset(source)| == |multiset(translated)|;
    forall i, j | 0 <= i < j < |translated|
      ensures ArgumentIndex(source, translated, i) != ArgumentIndex(source, translated, j)
      ensures translated[i] == translated[j] ==> ArgumentIndex(source, translated, i) < ArgumentIndex(source, translated, j)
    {
      if translated[i] == translated[j] {
        CountGrows(translated[..j], i);
        assert translated[..j][..i] == translated[..i];
        CountIsMultiplicity(source, translated[j]);
        CountIsMultiplicity(translated, translated[j]);
        CountGrows(translated, j);
        IndicesAscend(source, translated[j]);
        hide Indices, Count;
      }
    }
  }

  // ----- rendering -----

  datatype RenderError = UnbalancedInterpolations | ChangedInterpolations

  function Doubled(gap: string): string { ReplaceAll(gap, "%", "%%") }

  /** The text from position `from` on: gaps with percent signs doubled, and an argument for every span. */
  function Positional(translated: string, spans: seq<Span>, from: nat, source: seq<string>, tokens: seq<string>): string
    requires Ordered(spans, from, |translated|) && |spans| <= |tokens| && SameTokens(source, tokens)
    decreases |spans|
  {
    if spans == [] then Doubled(translated[from..])
    else
      var index := ArgumentIndex(source, tokens, |tokens| - |spans|);
      Doubled(translated[from..spans[0].start]) + ("%" + Decimal(index) + "$s"
        + Positional(translated, spans[1..], spans[0].end, source, tokens))
  }

  lemma {:induction false} OrderedIsInRange(spans: seq<Span>, from: nat, length: nat)
    requires Ordered(spans, from, length)
    ensures from <= length
    ensures forall i :: 0 <= i < |spans| ==> from <= spans[i].start <= spans[i].end <= length
    decreases |spans|
  {
    if spans != [] {
      OrderedIsInRange(spans[1..], spans[0].end, length);
      assert forall i :: 1 <= i < |spans| ==> spans[i] == spans[1..][i - 1];
    }
  }

  /** The interpolations of a text, if they are balanced. */
  function Interpolations(text: string): (tokens: Option<seq<string>>)
  {
    match Scan(text, 0)
    case None => None
    case Some(spans) =>
      ScanIsOrdered(text, 0, 0);
      OrderedIsInRange(spans, 0, |text|);
      Some(Tokens(text, spans))
  }

  /** What is written before escaping; a text without interpolations is not a format string. */
  function PreEscape(source: string, translated: string): Result<string, RenderError> {
    var sourceTokens, translatedTokens := Interpolations(source), Interpolations(translated);
    if sourceTokens.None? || translatedTokens.None? then Err(UnbalancedInterpolations)
    else if !SameTokens(sourceTokens.value, translatedTokens.value) then Err(ChangedInterpolations)
    else if sourceTokens.value == [] then Ok(translated)
    else
      ScanIsOrdered(translated, 0, 0);
      Ok(Positional(translated, Scan(translated, 0).value, 0, sourceTokens.value, translatedTokens.value))
  }

  function Render(source: string, translated: string): Result<string, RenderError> {
    match PreEscape(source, translated)
    case Err(error) => Err(error)
    case Ok(text) => Ok(EscapeAndroidResourceValue(text))
  }

  /** Which pairs of texts are rendered, and why the others are not. */
  lemma RenderedIff(source: string, translated: string)
    ensures var s, t := Interpolations(source), Interpolations(translated);
      && (Render(source, translated) == Err(UnbalancedInterpolations) <==> Scan(source, 0).None? || Scan(translated, 0).None?)
      && (Render(source, translated).Ok? <==> s.Some? && t.Some? && multiset(s.value) == multiset(t.value))
  {
  }

  // ----- the code -----

  /** The counts of the tokens; the source compares two such tables by their sorted entries. */
  method TokenCounts(tokens: seq<string>) returns (counts: map<string, nat>)
    ensures forall token :: token in counts <==> token in tokens
    ensures forall token :: token in counts ==> counts[token] == multiset(tokens)[token]
  {
    counts := map[];
    for i := 0 to |tokens|
      invariant forall token :: token in counts <==> token in tokens[..i]
      invariant forall token :: token in counts ==> counts[token] == multiset(tokens[..i])[token]
    {
      var token := tokens[i];
      assert tokens[..i + 1] == tokens[..i] + [token];
      counts := counts[token := (if token in counts then counts[token] else 0) + 1];
    }
    assert tokens[..|tokens|] == tokens;
  }

  lemma EqualCountsMeanSameTokens(a: seq<string>, b: seq<string>, counts: map<string, nat>, others: map<string, nat>)
    requires forall token :: token in counts <==> token in a
    requires forall token :: token in counts ==> counts[token] == multiset(a)[token]
    requires forall token :: token in others <==> token in b
    requires forall token :: token in others ==> others[token] == multiset(b)[token]
    ensures counts == others <==> SameTokens(a, b)
  {
  }

  /** `indices.get(token) ?? []` */
  function IndicesOf(indices: map<string, seq<nat>>, token: string): seq<nat> {
    if token in indices then indices[token] else []
  }

  /** `occurrences.get(token) ?? 0` */
  function OccurrencesOf(occurrences: map<string, nat>, token: string): nat {
    if token in occurrences then occurrences[token] else 0
  }

  lemma OneMoreToken(before: seq<string>, last: string, token: string)
    ensures Indices(before + [last], token) == Indices(before, token) + (if last == token then [|before| + 1] else [])
    ensures Count(before + [last], token) == Count(before, token) + (if last == token then 1 else 0)
  {
  }

  ghost predicate IndicesSoFar(indices: map<string, seq<nat>>, tokens: seq<string>) {
    forall token :: IndicesOf(indices, token) == Indices(tokens, token)
  }

  lemma {:induction false} OneMoreIndex(before: seq<string>, last: string, indices: map<string, seq<nat>>)
    requires IndicesSoFar(indices, before)
    ensures IndicesSoFar(indices[last := IndicesOf(indices, last) + [|before| + 1]], before + [last])
  {
    hide Indices;
    var after := indices[last := IndicesOf(indices, last) + [|before| + 1]];
    forall token ensures IndicesOf(after, token) == Indices(before + [last], token) {
      assert IndicesOf(indices, token) == Indices(before, token);
      OneMoreToken(before, last, token);
    }
  }

  method SourceIndices(tokens: seq<string>) returns (indices: map<string, seq<nat>>)
    ensures IndicesSoFar(indices, tokens)
  {
    indices := map[];
    for i := 0 to |tokens|
      invariant IndicesSoFar(indices, tokens[..i])
    {
      hide IndicesSoFar;
      assert tokens[..i + 1] == tokens[..i] + [tokens[i]];
      OneMoreIndex(tokens[..i], tokens[i], indices);
      indices := indices[tokens[i] := IndicesOf(indices, tokens[i]) + [i + 1]];
    }
    assert tokens[..|tokens|] == tokens;
  }

  /** What the loop of renderAndroidResourceValue writes for one interpolation. */
  lemma PositionalHead(translated: string, spans: seq<Span>, from: nat, source: seq<string>, tokens: seq<string>)
    requires Ordered(spans, from, |translated|) && 0 < |spans| <= |tokens| && SameTokens(source, tokens)
    ensures from <= spans[0].start <= spans[0].end <= |translated| && Ordered(spans[1..], spans[0].end, |translated|)
    ensures Positional(translated, spans, from, source, tokens) ==
      Doubled(translated[from..spans[0].start])
      + ("%" + Decimal(ArgumentIndex(source, tokens, |tokens| - |spans|)) + "$s")
      + Positional(translated, spans[1..], spans[0].end, source, tokens)
  {
  }

  /** The table of the translation's tokens up to the j-th. */
  ghost predicate CountsSoFar(occurrences: map<string, nat>, tokens: seq<string>, j: nat)
    requires j <= |tokens|
  {
    forall token :: OccurrencesOf(occurrences, token) == Count(tokens[..j], token)
  }

  /** The two tables give the argument of the j-th interpolation. */
  lemma {:induction false} TablesGiveTheArgument(source: seq<string>, tokens: seq<string>, j: nat,
                              indices: map<string, seq<nat>>, occurrences: map<string, nat>)
    requires j < |tokens| && SameTokens(source, tokens)
    requires IndicesSoFar(indices, source)
    requires CountsSoFar(occurrences, tokens, j)
    ensures tokens[j] in indices && OccurrencesOf(occurrences, tokens[j]) < |indices[tokens[j]]|
    ensures indices[tokens[j]][OccurrencesOf(occurrences, tokens[j])] == ArgumentIndex(source, tokens, j)
  {
    CountIsMultiplicity(source, tokens[j]);
    CountIsMultiplicity(tokens, tokens[j]);
    CountGrows(tokens, j);
    IndicesAscend(source, tokens[j]);
    hide Indices, Count;
    assert IndicesOf(indices, tokens[j]) == Indices(source, tokens[j]);
    assert OccurrencesOf(occurrences, tokens[j]) == Count(tokens[..j], tokens[j]);
  }

  lemma {:induction false} OneMoreOccurrence(tokens: seq<string>, j: nat, occurrences: map<string, nat>)
    requires j < |tokens| && CountsSoFar(occurrences, tokens, j)
    ensures CountsSoFar(occurrences[tokens[j] := OccurrencesOf(occurrences, tokens[j]) + 1], tokens, j + 1)
  {
    hide Count;
    var after := occurrences[tokens[j] := OccurrencesOf(occurrences, tokens[j]) + 1];
    forall token ensures OccurrencesOf(after, token) == Count(tokens[..j + 1], token) {
      assert OccurrencesOf(occurrences, token) == Count(tokens[..j], token);
      assert tokens[..j + 1] == tokens[..j] + [tokens[j]];
      OneMoreToken(tokens[..j], tokens[j], token);
    }
  }

  lemma Regroup(a: string, b: string, c: string, d: string)
    ensures a + (b + c + d) == a + b + c + d
  {
  }

  /** The loop has written `rendered` and stands behind the j-th interpolation. */
  ghost predicate PositionalSoFar(translated: string, spans: seq<Span>, source: seq<string>, tokens: seq<string>,
                                  j: nat, cursor: nat, rendered: string)
    requires Ordered(spans, 0, |translated|) && |spans| == |tokens| && SameTokens(source, tokens)
  {
    && j <= |spans| && cursor <= |translated| && Ordered(spans[j..], cursor, |translated|)
    && Positional(translated, spans, 0, source, tokens) == rendered + Positional(translated, spans[j..], cursor, source, tokens)
  }

  lemma {:induction false} PositionalStep(translated: string, spans: seq<Span>, source: seq<string>, tokens: seq<string>,
                       j: nat, cursor: nat, rendered: string)
    requires Ordered(spans, 0, |translated|) && |spans| == |tokens| && SameTokens(source, tokens) && j < |spans|
    requires PositionalSoFar(translated, spans, source, tokens, j, cursor, rendered)
    ensures cursor <= spans[j].start <= spans[j].end <= |translated|
    ensures PositionalSoFar(translated, spans, source, tokens, j + 1, spans[j].end,
      rendered + Doubled(translated[cursor..spans[j].start]) + ("%" + Decimal(ArgumentIndex(source, tokens, j)) + "$s"))
  {
    hide Positional, Doubled, Decimal, SameTokens, ArgumentIndex, Ordered;
    PositionalHead(translated, spans[j..], cursor, source, tokens);
    assert spans[j..][1..] == spans[j + 1..];
    Regroup(rendered, Doubled(translated[cursor..spans[j].start]), "%" + Decimal(ArgumentIndex(source, tokens, j)) + "$s",
            Positional(translated, spans[j + 1..], spans[j].end, source, tokens));
  }

  lemma PositionalStart(translated: string, spans: seq<Span>, source: seq<string>, tokens: seq<string>)
    requires Ordered(spans, 0, |translated|) && |spans| == |tokens| && SameTokens(source, tokens)
    ensures PositionalSoFar(translated, spans, source, tokens, 0, 0, "")
  {
  }

  lemma PositionalEnd(translated: string, spans: seq<Span>, source: seq<string>, tokens: seq<string>, cursor: nat,
        rendered: string)
    requires Ordered(spans, 0, |translated|) && |spans| == |tokens| && SameTokens(source, tokens)
    requires PositionalSoFar(translated, spans, source, tokens, |spans|, cursor, rendered)
    ensures cursor <= |translated|
    ensures rendered + Doubled(translated[cursor..]) == Positional(translated, spans, 0, source, tokens)
  {
  }

  method RenderPositional(translated: string, spans: seq<Span>, source: seq<string>, tokens: seq<string>)
    returns (rendered: string)
    requires Ordered(spans, 0, |translated|) && |spans| == |tokens| && SameTokens(source, tokens)
    requires forall i :: 0 <= i < |spans| ==> spans[i].start <= spans[i].end <= |translated|
    requires tokens == Tokens(translated, spans)
    ensures rendered == Positional(translated, spans, 0, source, tokens)
  {
    var sourceIndices := SourceIndices(source);
    var translatedOccurrences: map<string, nat> := map[];
    var cursor: nat := 0;
    rendered := "";
    assert CountsSoFar(translatedOccurrences, tokens, 0);
    hide Positional, PositionalSoFar, Doubled, Decimal, Ordered, SameTokens, Indices, ArgumentIndex, CountsSoFar;
    hide OccurrencesOf, IndicesSoFar;
    PositionalStart(translated, spans, source, tokens);
    for j := 0 to |spans|
      invariant PositionalSoFar(translated, spans, source, tokens, j, cursor, rendered)
      invariant CountsSoFar(translatedOccurrences, tokens, j)
    {
      PositionalStep(translated, spans, source, tokens, j, cursor, rendered);
      TablesGiveTheArgument(source, tokens, j, sourceIndices, translatedOccurrences);
      var interpolation := spans[j];
      var gap := Doubled(translated[cursor..interpolation.start]);
      var token := translated[interpolation.start..interpolation.end];
      assert token == tokens[j];
      var occurrence := OccurrencesOf(translatedOccurrences, token);
      OneMoreOccurrence(tokens, j, translatedOccurrences);
      translatedOccurrences := translatedOccurrences[token := occurrence + 1];
      rendered := rendered + gap + ("%" + Decimal(sourceIndices[token][occurrence]) + "$s");
      cursor := interpolation.end;
    }
    PositionalEnd(translated, spans, source, tokens, cursor, rendered);
    rendered := rendered + Doubled(translated[cursor..]);
  }

  method RenderAndroidResourceValue(source: string, translated: string) returns (result: Result<string, RenderError>)
    ensures result == Render(source, translated)
  {
    var sourceInterpolations := ReadKotlinInterpolations(source);
    var translatedInterpolations := ReadKotlinInterpolations(translated);
    if sourceInterpolations.None? || translatedInterpolations.None? {
      return Err(UnbalancedInterpolations);
    }
    var spans := translatedInterpolations.value;
    ScanIsOrdered(source, 0, 0);
    OrderedIsInRange(sourceInterpolations.value, 0, |source|);
    ScanIsOrdered(translated, 0, 0);
    OrderedIsInRange(spans, 0, |translated|);
    var sourceTokens := Tokens(source, sourceInterpolations.value);
    var translatedTokens := Tokens(translated, spans);
    var sourceCounts := TokenCounts(sourceTokens);
    var translatedCounts := TokenCounts(translatedTokens);
    EqualCountsMeanSameTokens(sourceTokens, translatedTokens, sourceCounts, translatedCounts);
    if sourceCounts != translatedCounts {
      return Err(ChangedInterpolations);
    }
    var rendered := translated;
    if |sourceTokens| > 0 {
      rendered := RenderPositional(translated, spans, sourceTokens, translatedTokens);
    }
    result := Ok(EscapeAndroidResourceValue(rendered));
  }

  // ----- rendering preserves the meaning -----

  lemma {:induction false} FormatDoubled(gap: string, rest: string, arguments: seq<string>)
    ensures Format(Doubled(gap) + rest, arguments) == Prepend(gap, Format(rest, arguments))
  {
    if gap == "" {
      assert Doubled(gap) + rest == rest;
      PrependNothing("", Format(rest, arguments));
    } else {
      FormatDoubled(gap[1..], rest, arguments);
      assert gap == [gap[0]] + gap[1..];
      PrependConcat([gap[0]], gap[1..], Format(rest, arguments));
      var tail := Doubled(gap[1..]) + rest;
      var all := Doubled(gap) + rest;
      if gap[0] == '%' {
        assert all == "%%" + tail && all[2..] == tail;
      } else {
        assert all == [gap[0]] + tail && all[1..] == tail;
      }
    }
  }

  /** The parts the formatter reads a directive in. */
  lemma {:induction false} DirectiveParts(digits: string, rest: string)
    requires digits != "" && forall i :: 0 <= i < |digits| ==> IsDigit(digits[i])
    ensures var all := "%" + digits + "$s" + rest;
      && all[0] == '%' && all[1] != '%'
      && DigitsEnd(all, 1) == 1 + |digits|
      && all[1..1 + |digits|] == digits && "$s" <= all[1 + |digits|..] && all[1 + |digits| + 2..] == rest
  {
    var all := "%" + digits + "$s" + rest;
    assert forall i :: 1 <= i < 1 + |digits| ==> all[i] == digits[i - 1] && IsDigit(all[i]);
    assert all[1 + |digits|] == '$' && !IsDigit('$') && !IsDigit('%');
    hide IsDigit;
    assert all[1 + |digits|..] == "$s" + rest;
  }

  lemma FormatDirective(s: string, end: nat, arguments: seq<string>)
    requires |s| > 1 && s[0] == '%' && s[1] != '%'
    requires end == DigitsEnd(s, 1) && end > 1 && end <= |s| && "$s" <= s[end..]
    requires 1 <= ParseDecimal(s[1..end]) <= |arguments|
    ensures Format(s, arguments) == Prepend(arguments[ParseDecimal(s[1..end]) - 1], Format(s[end + 2..], arguments))
  {
  }

  lemma {:induction false} FormatArgument(k: nat, rest: string, arguments: seq<string>)
    requires 1 <= k <= |arguments|
    ensures Format("%" + Decimal(k) + "$s" + rest, arguments) == Prepend(arguments[k - 1], Format(rest, arguments))
  {
    hide Decimal, DigitsEnd, ParseDecimal, IsDigit, Format;
    DirectiveParts(Decimal(k), rest);
    DecimalParses(k);
    FormatDirective("%" + Decimal(k) + "$s" + rest, 1 + |Decimal(k)|, arguments);
  }

  lemma {:induction false} PositionalFormats(translated: string, spans: seq<Span>, from: nat,
                                             source: seq<string>, tokens: seq<string>)
    requires Ordered(spans, from, |translated|) && |spans| <= |tokens| && SameTokens(source, tokens)
    requires forall i :: 0 <= i < |spans| ==> spans[i].start <= spans[i].end <= |translated|
    requires tokens[|tokens| - |spans|..] == Tokens(translated, spans)
    ensures Format(Positional(translated, spans, from, source, tokens), source) == Some(translated[from..])
    decreases |spans|
  {
    hide Format, Doubled, Decimal, ArgumentIndex;
    if spans == [] {
      FormatDoubled(translated[from..], "", source);
      assert Doubled(translated[from..]) + "" == Doubled(translated[from..]);
      FormatOfNothing(source);
      PrependNothing(translated[from..], None);
    } else {
      var j := |tokens| - |spans|;
      var index := ArgumentIndex(source, tokens, j);
      assert tokens[j] == tokens[j..][0] == Tokens(translated, spans)[0];
      assert tokens[j + 1..] == tokens[j..][1..] == Tokens(translated, spans[1..]);
      var rest := Positional(translated, spans[1..], spans[0].end, source, tokens);
      PositionalFormats(translated, spans[1..], spans[0].end, source, tokens);
      FormatArgument(index, rest, source);
      FormatDoubled(translated[from..spans[0].start], "%" + Decimal(index) + "$s" + rest, source);
      assert translated[from..] ==
        translated[from..spans[0].start] + (translated[spans[0].start..spans[0].end] + translated[spans[0].end..]);
    }
  }

  lemma FormatOfNothing(arguments: seq<string>)
    ensures Format("", arguments) == Some("")
  {
  }

  /** Formatting what is rendered with the source's interpolations gives exactly the translation. */
  lemma {:induction false} RenderingPreservesMeaning(source: string, translated: string)
    requires PreEscape(source, translated).Ok? && Interpolations(source).value != []
    ensures Format(PreEscape(source, translated).value, Interpolations(source).value) == Some(translated)
  {
    hide Format;
    var spans := Scan(translated, 0).value;
    ScanIsOrdered(translated, 0, 0);
    OrderedIsInRange(spans, 0, |translated|);
    PositionalFormats(translated, spans, 0, Interpolations(source).value, Interpolations(translated).value);
  }

  // ----- and so does the resource file, outside interpolations -----

  /** The translation after writing and decoding: in the gaps every n after a backslash is a line feed. */
  function Displayed(translated: string, spans: seq<Span>, from: nat): string
    requires Ordered(spans, from, |translated|)
    decreases |spans|
  {
    if spans == [] then Corrupted(translated[from..])
    else
      Corrupted(translated[from..spans[0].start]) +
      (translated[spans[0].start..spans[0].end] + Displayed(translated, spans[1..], spans[0].end))
  }

  ghost predicate CleanGaps(translated: string, spans: seq<Span>, from: nat)
    requires Ordered(spans, from, |translated|)
    decreases |spans|
  {
    if spans == [] then !HasBackslashN(translated[from..])
    else !HasBackslashN(translated[from..spans[0].start]) && CleanGaps(translated, spans[1..], spans[0].end)
  }

  lemma Associate(a: string, b: string, c: string)
    ensures (a + b) + c == a + (b + c)
  {
  }

  lemma RestOfConcat(a: string, b: string, n: nat)
    requires n <= |a|
    ensures (a + b)[n..] == a[n..] + b
  {
  }

  lemma {:induction false} CorruptedConcat(a: string, b: string)
    requires a == "" || b == "" || a[|a| - 1] != '\\' || b[0] != 'n'
    ensures Corrupted(a + b) == Corrupted(a) + Corrupted(b)
    decreases |a|
  {
    if a == "" {
      assert a + b == b;
    } else {
      CorruptedHead(a);
      CorruptedHead(a + b);
      hide Corrupted;
      var n := if a[0] == '\\' && |a| > 1 && a[1] == 'n' then 2 else 1;
      RestOfConcat(a, b, n);
      CorruptedConcat(a[n..], b);
      Associate(if n == 2 then ['\\', '\n'] else [a[0]], Corrupted(a[n..]), Corrupted(b));
    }
  }

  lemma {:induction false} CorruptedKeeps(s: string)
    ensures '\\' !in s ==> Corrupted(s) == s
  {
    CorruptedIsTheSameIff(s);
  }

  lemma {:induction false} LostAtTheFront(rest: string)
    ensures Corrupted("\\n" + rest) == "\\\n" + Corrupted(rest)
  {
    var s := "\\n" + rest;
    assert s[2..] == rest;
    CorruptedHead(s);
  }

  lemma {:induction false} PairDoubled(c: char, d: char, rest: string)
    requires c != '%' && d != '%'
    ensures Doubled([c, d] + rest) == [c, d] + Doubled(rest)
  {
    DoubledHead(d, rest);
    DoubledHead(c, [d] + rest);
    hide Doubled;
    assert [c, d] + rest == [c] + ([d] + rest);
    assert [c, d] + Doubled(rest) == [c] + ([d] + Doubled(rest));
  }

  lemma {:induction false} CorruptedDoubled(gap: string)
    ensures Corrupted(Doubled(gap)) == Doubled(Corrupted(gap))
    decreases |gap|
  {
    if gap != "" {
      if gap[0] == '\\' && |gap| > 1 && gap[1] == 'n' {
        assert gap == "\\n" + gap[2..];
        hide Corrupted, Doubled;
        CorruptedDoubled(gap[2..]);
        PairDoubled('\\', 'n', gap[2..]);
        LostAtTheFront(Doubled(gap[2..]));
        LostAtTheFront(gap[2..]);
        PairDoubled('\\', '\n', Corrupted(gap[2..]));
      } else {
        var head := if gap[0] == '%' then "%%" else [gap[0]];
        CorruptedHead(gap);
        SingleKeeps(gap[0]);
        assert gap == [gap[0]] + gap[1..];
        hide Corrupted, Doubled;
        DoubledHead(gap[0], gap[1..]);
        DoubledStart(gap[1..]);
        CorruptedConcat(head, Doubled(gap[1..]));
        CorruptedKeeps(head);
        CorruptedDoubled(gap[1..]);
        DoubledHead(gap[0], Corrupted(gap[1..]));
      }
    }
  }

  lemma SingleKeeps(c: char)
    ensures Corrupted([c]) == [c]
  {
  }

  lemma {:induction false} DoubledHead(c: char, rest: string)
    ensures Doubled([c] + rest) == (if c == '%' then "%%" else [c]) + Doubled(rest)
  {
    var s := [c] + rest;
    assert s[0] == c && s[1..] == rest;
  }

  lemma DoubledStart(s: string)
    ensures s == "" <==> Doubled(s) == ""
    ensures s != "" ==> Doubled(s)[0] == s[0]
  {
  }

  lemma {:induction false} PositionalIsDisplayed(translated: string, spans: seq<Span>, from: nat,
                                                 source: seq<string>, tokens: seq<string>)
    requires Ordered(spans, from, |translated|) && |spans| <= |tokens| && SameTokens(source, tokens)
    requires forall i :: 0 <= i < |spans| ==> spans[i].start <= spans[i].end <= |translated|
    requires tokens[|tokens| - |spans|..] == Tokens(translated, spans)
    ensures Format(Corrupted(Positional(translated, spans, from, source, tokens)), source)
         == Some(Displayed(translated, spans, from))
    decreases |spans|
  {
    hide Format, Doubled, Decimal, Corrupted, ArgumentIndex;
    if spans == [] {
      CorruptedDoubled(translated[from..]);
      var gap := Corrupted(translated[from..]);
      FormatDoubled(gap, "", source);
      assert Doubled(gap) + "" == Doubled(gap);
      FormatOfNothing(source);
      PrependNothing(gap, None);
    } else {
      var j := |tokens| - |spans|;
      var index := ArgumentIndex(source, tokens, j);
      assert tokens[j] == tokens[j..][0] == Tokens(translated, spans)[0];
      assert tokens[j + 1..] == tokens[j..][1..] == Tokens(translated, spans[1..]);
      var gap := translated[from..spans[0].start];
      var rest := Positional(translated, spans[1..], spans[0].end, source, tokens);
      CorruptedDirective(Doubled(gap), index, rest);
      CorruptedDoubled(gap);
      PositionalIsDisplayed(translated, spans[1..], spans[0].end, source, tokens);
      FormatArgument(index, Corrupted(rest), source);
      FormatDoubled(Corrupted(gap), "%" + Decimal(index) + "$s" + Corrupted(rest), source);
    }
  }

  lemma {:induction false} CorruptedDirective(before: string, index: nat, after: string)
    ensures Corrupted(before + ("%" + Decimal(index) + "$s" + after))
         == Corrupted(before) + ("%" + Decimal(index) + "$s" + Corrupted(after))
  {
    var directive := "%" + Decimal(index) + "$s";
    assert forall i :: 0 <= i < |Decimal(index)| ==> Decimal(index)[i] != '\\';
    hide Corrupted, Decimal;
    assert directive[|directive| - 1] == 's' && (directive + after)[0] == '%';
    CorruptedConcat(before, directive + after);
    CorruptedConcat(directive, after);
    CorruptedKeeps(directive);
  }

  lemma {:induction false} DisplayedIffClean(translated: string, spans: seq<Span>, from: nat)
    requires Ordered(spans, from, |translated|)
    ensures |Displayed(translated, spans, from)| == |translated| - from
    ensures Displayed(translated, spans, from) == translated[from..] <==> CleanGaps(translated, spans, from)
    decreases |spans|
  {
    hide Corrupted, HasBackslashN;
    if spans == [] {
      CorruptedAt(translated[from..]);
      CorruptedIsTheSameIff(translated[from..]);
    } else {
      var gap, token := translated[from..spans[0].start], translated[spans[0].start..spans[0].end];
      var rest := translated[spans[0].end..];
      CorruptedAt(gap);
      CorruptedIsTheSameIff(gap);
      DisplayedIffClean(translated, spans[1..], spans[0].end);
      assert translated[from..] == gap + (token + rest);
      SamePartsIff(Corrupted(gap), gap, token, Displayed(translated, spans[1..], spans[0].end), rest);
    }
  }

  lemma {:induction false} SamePartsIff(a: string, b: string, middle: string, c: string, d: string)
    requires |a| == |b| && |c| == |d|
    ensures a + (middle + c) == b + (middle + d) <==> a == b && c == d
  {
    var x, y := a + (middle + c), b + (middle + d);
    assert x[..|a|] == a && y[..|a|] == b;
    assert x[|a| + |middle|..] == c && y[|a| + |middle|..] == d;
  }

  /** Through the resource file and back, as decodeAndroidResourceValue decodes it: formatting the decoded
      value gives the translation exactly when no backslash is followed by the letter n outside its
      interpolations. */
  lemma {:induction false} ResourceShowsTheTranslation(source: string, translated: string)
    requires PreEscape(source, translated).Ok? && Interpolations(source).value != []
    ensures Ordered(Scan(translated, 0).value, 0, |translated|)
    ensures var stored := DecodeAndroidResourceValue(Quoted(Render(source, translated).value));
      var shown := Format(stored, Interpolations(source).value);
      shown == Some(translated) <==> CleanGaps(translated, Scan(translated, 0).value, 0)
  {
    hide Format, EscapeAndroidResourceValue, DecodeXml, DecodeAndroidResourceValue;
    var spans := Scan(translated, 0).value;
    ScanIsOrdered(translated, 0, 0);
    OrderedIsInRange(spans, 0, |translated|);
    RoundTripIffNoBackslashN(PreEscape(source, translated).value);
    PositionalIsDisplayed(translated, spans, 0, Interpolations(source).value, Interpolations(translated).value);
    DisplayedIffClean(translated, spans, 0);
    assert translated[0..] == translated;
  }

  /** A text without interpolations is written as it is, percent signs and all, and comes back unless it has a
      backslash before the letter n. */
  lemma {:induction false} PlainTextIsWritten(source: string, translated: string)
    requires Scan(source, 0) == Scan(translated, 0) == Some([])
    ensures Render(source, translated).Ok?
    ensures DecodeAndroidResourceValue(Quoted(Render(source, translated).value)) == translated <==> !HasBackslashN(translated)
  {
    hide EscapeAndroidResourceValue, DecodeAndroidResourceValue, HasBackslashN;
    assert Interpolations(source).value == [] && Interpolations(translated).value == [];
    RoundTripIffNoBackslashN(translated);
  }
}
