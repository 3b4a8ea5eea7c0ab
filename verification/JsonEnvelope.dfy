/**
 The envelope scanner of `parseAgentExecOutput` (scripts/code-mode-model-matrix.ts): it looks only at
 braces, quotes and backslashes, and still cuts every serialized JSON object at exactly its end.
 */
module JsonEnvelope {
  import opened Common
  import opened Text

  // ----- the scanner -----

  /** `depth`, `escaped` and `inString` of the loop. */
  datatype ScanState = ScanState(depth: int, escaped: bool, inString: bool)

  const START := ScanState(0, false, false)

  function Step(s: ScanState, c: char): ScanState {
    if s.inString then
      if s.escaped then s.(escaped := false)
      else if c == '\\' then s.(escaped := true)
      else if c == '"' then s.(inString := false)
      else s
    else if c == '"' then s.(inString := true)
    else if c == '{' then s.(depth := s.depth + 1)
    else if c == '}' then s.(depth := s.depth - 1)
    else s
  }

  /** The test after a closing brace. */
  predicate Stops(s: ScanState, c: char) { !s.inString && c == '}' && s.depth == 1 }

  function Shift(n: nat, cut: Option<nat>): Option<nat> {
    match cut
    case Some(m) => Some(n + m)
    case None => None
  }

  /** The number of characters up to and including the brace the scan stops at. */
  function Cut(s: ScanState, text: string): (cut: Option<nat>)
    ensures cut.Some? ==> 0 < cut.value <= |text|
    decreases |text|
  {
    if text == "" then None
    else if Stops(s, text[0]) then Some(1)
    else Shift(1, Cut(Step(s, text[0]), text[1..]))
  }

  datatype Failure = NoEnvelope | NotAnEnvelope | IncompleteEnvelope

  datatype Envelope = Envelope(json: string, trailing: string)

  function Parse(stdout: string): Result<Envelope, Failure> {
    var value := TrimStart(stdout);
    if value == "" then Err(NoEnvelope)
    else if value[0] != '{' then Err(NotAnEnvelope)
    else
      match Cut(START, value)
      case Some(n) => Ok(Envelope(value[..n], Trim(value[n..])))
      case None => Err(IncompleteEnvelope)
  }

  lemma CutStep(s: ScanState, text: string, index: nat)
    requires index < |text|
    ensures Cut(s, text[index..]) ==
      if Stops(s, text[index]) then Some(1) else Shift(1, Cut(Step(s, text[index]), text[index + 1..]))
  {
  }

  /** The loop of parseAgentExecOutput. */
  method FindObjectEnd(value: string) returns (cut: Option<nat>)
    ensures cut == Cut(START, value)
  {
    var state := START;
    for index := 0 to |value|
      invariant Cut(START, value) == Shift(index, Cut(state, value[index..]))
    {
      hide Step, Stops, Cut;
      CutStep(state, value, index);
      if Stops(state, value[index]) {
        return Some(index + 1);
      }
      state := Step(state, value[index]);
    }
    return None;
  }

  /** JSON.parse is applied to `json` afterwards and is not part of this model. */
  method ParseAgentExecOutput(stdout: string) returns (result: Result<Envelope, Failure>)
    ensures result == Parse(stdout)
  {
    hide TrimStart, Trim, Cut;
    var value := TrimStart(stdout);
    if value == "" {
      return Err(NoEnvelope);
    }
    if value[0] != '{' {
      return Err(NotAnEnvelope);
    }
    var cut := FindObjectEnd(value);
    match cut
    case Some(n) =>
      return Ok(Envelope(value[..n], Trim(value[n..])));
    case None =>
      return Err(IncompleteEnvelope);
  }

  // ----- JSON text (sections 2 to 7 of RFC 8259) -----

  /** Insignificant white space. */
  predicate IsWs(ws: string) {
    forall i :: 0 <= i < |ws| ==> ws[i] == ' ' || ws[i] == '\t' || ws[i] == '\n' || ws[i] == '\r'
  }

  /** Numbers and the literals true, false and null, by the characters they are made of. */
  predicate IsScalar(text: string) {
    && text != ""
    && forall i :: 0 <= i < |text| ==>
         'a' <= text[i] <= 'z' || '0' <= text[i] <= '9' || text[i] in "-+.E"
  }

  /** One character of a string: itself, a two-character escape, or \uXXXX. */
  datatype StringChar = Plain(c: char) | Escape(e: char) | Unicode(hex: string)

  predicate IsHex(c: char) { '0' <= c <= '9' || 'a' <= c <= 'f' || 'A' <= c <= 'F' }

  predicate IsStringChar(c: StringChar) {
    match c
    case Plain(c) => c != '"' && c != '\\' && c >= ' '
    case Escape(e) => e in "\"\\/bfnrt"
    case Unicode(hex) => |hex| == 4 && forall i :: 0 <= i < 4 ==> IsHex(hex[i])
  }

  /** A serialization: a value together with the white space it is written with. */
  datatype Json =
    | Scalar(text: string)
    | String(chars: seq<StringChar>)
    | Array(elements: Elements)
    | Object(members: Members)

  datatype Elements = NoElements(ws: string) | Element(before: string, value: Json, after: string, more: Elements)

  datatype Members =
    | NoMembers(ws: string)
    | Member(before: string, name: seq<StringChar>, colonBefore: string, colonAfter: string,
             value: Json, after: string, more: Members)

  predicate IsString(chars: seq<StringChar>) { forall i :: 0 <= i < |chars| ==> IsStringChar(chars[i]) }

  /** Only an empty array or object is written as white space alone; the last element has nothing after it. */
  predicate IsJson(j: Json) {
    match j
    case Scalar(text) => IsScalar(text)
    case String(chars) => IsString(chars)
    case Array(elements) => IsElements(elements)
    case Object(members) => IsMembers(members)
  }

  predicate IsElements(e: Elements) {
    match e
    case NoElements(ws) => IsWs(ws)
    case Element(before, value, after, more) =>
      IsWs(before) && IsJson(value) && IsWs(after) && IsElements(more) && (more.NoElements? ==> more.ws == "")
  }

  predicate IsMembers(m: Members) {
    match m
    case NoMembers(ws) => IsWs(ws)
    case Member(before, name, colonBefore, colonAfter, value, after, more) =>
      && IsWs(before) && IsString(name) && IsWs(colonBefore) && IsWs(colonAfter)
      && IsJson(value) && IsWs(after) && IsMembers(more) && (more.NoMembers? ==> more.ws == "")
  }

  function CharText(c: StringChar): string {
    match c
    case Plain(c) => [c]
    case Escape(e) => ['\\', e]
    case Unicode(hex) => "\\u" + hex
  }

  function CharsText(chars: seq<StringChar>): string {
    if chars == [] then "" else CharText(chars[0]) + CharsText(chars[1..])
  }

  function StringText(chars: seq<StringChar>): string { "\"" + (CharsText(chars) + "\"") }

  function JsonText(j: Json): string {
    match j
    case Scalar(text) => text
    case String(chars) => StringText(chars)
    case Array(elements) => "[" + (ElementsText(elements) + "]")
    case Object(members) => "{" + (MembersText(members) + "}")
  }

  function ElementsText(e: Elements): string {
    match e
    case NoElements(ws) => ws
    case Element(before, value, after, more) =>
      before + (JsonText(value) + (after + (if more.NoElements? then "" else "," + ElementsText(more))))
  }

  function MembersText(m: Members): string {
    match m
    case NoMembers(ws) => ws
    case Member(before, name, colonBefore, colonAfter, value, after, more) =>
      before + (StringText(name) + (colonBefore + (":" + (colonAfter + (JsonText(value) + (after +
        (if more.NoMembers? then "" else "," + MembersText(more))))))))
  }

  // ----- the scan passes over every value inside an object -----

  /** Inside an object, between tokens. */
  function At(depth: nat): ScanState { ScanState(depth, false, false) }

  /** The scan runs through `part` without stopping and comes out as it went in. */
  ghost predicate Passes(depth: nat, part: string, rest: string) {
    Cut(At(depth), part + rest) == Shift(|part|, Cut(At(depth), rest))
  }

  predicate IsPlain(c: char) { c != '"' && c != '{' && c != '}' }

  lemma {:induction false} PlainPasses(depth: nat, part: string, rest: string)
    requires forall i :: 0 <= i < |part| ==> IsPlain(part[i])
    ensures Passes(depth, part, rest)
  {
    if part == "" {
      assert part + rest == rest;
    } else {
      assert (part + rest)[1..] == part[1..] + rest;
      PlainPasses(depth, part[1..], rest);
    }
  }

  lemma {:induction false} PassesConcat(depth: nat, a: string, b: string, rest: string)
    requires Passes(depth, a, b + rest) && Passes(depth, b, rest)
    ensures Passes(depth, a + b, rest)
  {
    assert a + b + rest == a + (b + rest);
  }

  // inside a string everything up to the closing quote is skipped

  function InString(depth: nat): ScanState { ScanState(depth, false, true) }

  lemma {:induction false} CharIsSkipped(depth: nat, c: StringChar, rest: string)
    requires IsStringChar(c)
    ensures Cut(InString(depth), CharText(c) + rest) == Shift(|CharText(c)|, Cut(InString(depth), rest))
  {
    match c
    case Plain(c) => assert ([c] + rest)[1..] == rest;
    case Escape(e) =>
      assert (['\\', e] + rest)[1..] == [e] + rest;
      assert ([e] + rest)[1..] == rest;
    case Unicode(hex) =>
      var text := "\\u" + hex + rest;
      assert text[1..] == ['u'] + (hex + rest) && text[1..][1..] == hex + rest;
      HexIsSkipped(depth, hex, rest);
  }

  lemma {:induction false} HexIsSkipped(depth: nat, hex: string, rest: string)
    requires forall i :: 0 <= i < |hex| ==> IsHex(hex[i])
    ensures Cut(InString(depth), hex + rest) == Shift(|hex|, Cut(InString(depth), rest))
  {
    if hex == "" {
      assert hex + rest == rest;
    } else {
      assert (hex + rest)[1..] == hex[1..] + rest;
      HexIsSkipped(depth, hex[1..], rest);
    }
  }

  lemma {:induction false} CharsAreSkipped(depth: nat, chars: seq<StringChar>, rest: string)
    requires IsString(chars)
    ensures Cut(InString(depth), CharsText(chars) + rest) == Shift(|CharsText(chars)|, Cut(InString(depth), rest))
    decreases |chars|
  {
    if chars == [] {
      assert CharsText(chars) + rest == rest;
    } else {
      assert CharsText(chars) + rest == CharText(chars[0]) + (CharsText(chars[1..]) + rest);
      CharIsSkipped(depth, chars[0], CharsText(chars[1..]) + rest);
      CharsAreSkipped(depth, chars[1..], rest);
    }
  }

  lemma {:induction false} StringPasses(depth: nat, chars: seq<StringChar>, rest: string)
    requires IsString(chars)
    ensures Passes(depth, StringText(chars), rest)
  {
    var body := CharsText(chars) + ("\"" + rest);
    assert StringText(chars) + rest == "\"" + body && ("\"" + body)[1..] == body;
    assert ("\"" + rest)[1..] == rest;
    CharsAreSkipped(depth, chars, "\"" + rest);
  }

  /** An object opens one level, and the scan does not stop at its closing brace unless it began at 0. */
  lemma {:induction false} BracesPass(depth: nat, body: string, rest: string)
    requires depth > 0 && Passes(depth + 1, body, "}" + rest)
    ensures Passes(depth, "{" + (body + "}"), rest)
  {
    var text := "{" + (body + "}") + rest;
    assert text[1..] == body + ("}" + rest);
    assert ("}" + rest)[1..] == rest;
  }

  lemma {:induction false} JsonPasses(depth: nat, j: Json, rest: string)
    requires depth > 0 && IsJson(j)
    ensures Passes(depth, JsonText(j), rest)
    decreases j
  {
    hide Passes, StringText;
    match j
    case Scalar(text) => PlainPasses(depth, text, rest);
    case String(chars) => StringPasses(depth, chars, rest);
    case Array(elements) =>
      PlainPasses(depth, "]", rest);
      ElementsPass(depth, elements, "]" + rest);
      PassesConcat(depth, ElementsText(elements), "]", rest);
      PlainPasses(depth, "[", ElementsText(elements) + "]" + rest);
      PassesConcat(depth, "[", ElementsText(elements) + "]", rest);
    case Object(members) =>
      MembersPass(depth + 1, members, "}" + rest);
      BracesPass(depth, MembersText(members), rest);
  }

  lemma {:induction false} ElementsPass(depth: nat, e: Elements, rest: string)
    requires depth > 0 && IsElements(e)
    ensures Passes(depth, ElementsText(e), rest)
    decreases e
  {
    hide Passes;
    match e
    case NoElements(ws) => PlainPasses(depth, ws, rest);
    case Element(before, value, after, more) =>
      var tail := if more.NoElements? then "" else "," + ElementsText(more);
      if more.NoElements? {
        PlainPasses(depth, tail, rest);
      } else {
        ElementsPass(depth, more, rest);
        PlainPasses(depth, ",", ElementsText(more) + rest);
        PassesConcat(depth, ",", ElementsText(more), rest);
      }
      PlainPasses(depth, after, tail + rest);
      PassesConcat(depth, after, tail, rest);
      JsonPasses(depth, value, after + tail + rest);
      PassesConcat(depth, JsonText(value), after + tail, rest);
      PlainPasses(depth, before, JsonText(value) + (after + tail) + rest);
      PassesConcat(depth, before, JsonText(value) + (after + tail), rest);
  }

  lemma {:induction false} MembersPass(depth: nat, m: Members, rest: string)
    requires depth > 0 && IsMembers(m)
    ensures Passes(depth, MembersText(m), rest)
    decreases m
  {
    hide Passes, StringText;
    match m
    case NoMembers(ws) => PlainPasses(depth, ws, rest);
    case Member(before, name, colonBefore, colonAfter, value, after, more) =>
      var t0 := if more.NoMembers? then "" else "," + MembersText(more);
      if more.NoMembers? {
        PlainPasses(depth, t0, rest);
      } else {
        MembersPass(depth, more, rest);
        PlainPasses(depth, ",", MembersText(more) + rest);
        PassesConcat(depth, ",", MembersText(more), rest);
      }
      var t1 := after + t0;
      PlainPasses(depth, after, t0 + rest);
      PassesConcat(depth, after, t0, rest);
      var t2 := JsonText(value) + t1;
      JsonPasses(depth, value, t1 + rest);
      PassesConcat(depth, JsonText(value), t1, rest);
      var t3 := colonBefore + (":" + (colonAfter + t2));
      assert t3 == colonBefore + ":" + colonAfter + t2;
      PlainPasses(depth, colonBefore + ":" + colonAfter, t2 + rest);
      PassesConcat(depth, colonBefore + ":" + colonAfter, t2, rest);
      var t4 := StringText(name) + t3;
      StringPasses(depth, name, t3 + rest);
      PassesConcat(depth, StringText(name), t3, rest);
      PlainPasses(depth, before, t4 + rest);
      PassesConcat(depth, before, t4, rest);
  }

  // ----- the envelope is cut exactly -----

  /** For every JSON object, however it is serialized, and whatever follows it. */
  lemma {:induction false} ObjectIsCutExactly(members: Members, rest: string)
    requires IsMembers(members)
    ensures Cut(START, JsonText(Object(members)) + rest) == Some(|JsonText(Object(members))|)
  {
    hide MembersText;
    var body, close := MembersText(members), "}" + rest;
    MembersPass(1, members, close);
    assert Cut(At(1), close) == Some(1);
    var text := "{" + (body + close);
    assert JsonText(Object(members)) + rest == text;
    assert text[0] == '{' && text[1..] == body + close;
  }

  lemma {:induction false} EnvelopeRoundTrip(space: string, members: Members, rest: string)
    requires IsBlank(space) && IsMembers(members)
    ensures Parse(space + (JsonText(Object(members)) + rest)) == Ok(Envelope(JsonText(Object(members)), Trim(rest)))
  {
    var json := JsonText(Object(members));
    ObjectIsCutExactly(members, rest);
    assert json[0] == '{';
    TrimStartSkipsSpace(space, json + rest);
    assert (json + rest)[..|json|] == json && (json + rest)[|json|..] == rest;
  }

  /** The other two failures: nothing but white space, or white space before something that is no brace. */
  lemma {:induction false} WhatIsRejected(stdout: string, space: string, rest: string)
    requires stdout == space + rest && IsBlank(space) && (rest != "" ==> !IsSpace(rest[0]))
    ensures Parse(stdout) == Err(NoEnvelope) <==> rest == ""
    ensures Parse(stdout) == Err(NotAnEnvelope) <==> rest != "" && rest[0] != '{'
  {
    hide IsSpace, Cut, Trim;
    if rest != "" {
      TrimStartSkipsSpace(space, rest);
    }
  }

  lemma {:induction false} CutDependsOnItsPrefix(s: ScanState, text: string, rest: string)
    requires Cut(s, text).Some?
    ensures Cut(s, text + rest) == Cut(s, text)
    decreases |text|
  {
    assert (text + rest)[0] == text[0] && (text + rest)[1..] == text[1..] + rest;
    if !Stops(s, text[0]) { CutDependsOnItsPrefix(Step(s, text[0]), text[1..], rest); }
  }

  /** A truncated envelope is always reported as incomplete. */
  lemma {:induction false} TruncatedObjectIsIncomplete(members: Members, n: nat)
    requires IsMembers(members) && 0 < n < |JsonText(Object(members))|
    ensures Parse(JsonText(Object(members))[..n]) == Err(IncompleteEnvelope)
  {
    var json := JsonText(Object(members));
    var part := json[..n];
    ObjectIsCutExactly(members, "");
    assert json + "" == json && part + json[n..] == json && part[0] == '{';
    TrimStartSkipsSpace("", part);
    assert "" + part == part;
    if Cut(START, part).Some? { CutDependsOnItsPrefix(START, part, json[n..]); }
  }
}
