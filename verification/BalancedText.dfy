/**
 Texts with string literals and one pair of delimiters. The three scanners of the tooling that look for a
 closing delimiter (scripts/android-app-i18n.ts, scripts/check-temp-path-guardrails.ts) read literals alike and
 differ in their quote marks. A text is balanced by what such a scan counts exactly when it can be written down
 as code characters, literals and delimited groups.
 */
module BalancedText {

  /** The quote marks of a language and the delimiters looked for. */
  datatype Syntax = Syntax(marks: set<char>, opening: char, closing: char)

  predicate IsSyntax(x: Syntax) {
    x.opening !in x.marks && x.closing !in x.marks && x.opening != x.closing && '\\' !in x.marks
  }

  // ----- the scan -----

  /** `escaped` only matters inside a literal. */
  datatype Quote = Code | Quoted(mark: char, escaped: bool)

  function QuoteStep(quote: Quote, c: char, marks: set<char>): Quote {
    match quote
    case Code => if c in marks then Quoted(c, false) else Code
    case Quoted(mark, escaped) =>
      if escaped then Quoted(mark, false)
      else if c == '\\' then Quoted(mark, true)
      else if c == mark then Code
      else quote
  }

  function QuoteAfter(s: string, marks: set<char>): Quote {
    if s == [] then Code else QuoteStep(QuoteAfter(s[..|s| - 1], marks), s[|s| - 1], marks)
  }

  /** The character is neither part of a literal nor one of its quotes. */
  predicate IsCode(quote: Quote, c: char, marks: set<char>) { quote.Code? && c !in marks }

  function DepthStep(quote: Quote, c: char, x: Syntax): int {
    if !IsCode(quote, c, x.marks) then 0 else if c == x.opening then 1 else if c == x.closing then -1 else 0
  }

  /** How many more delimiters the code of a text opens than it closes. */
  function Depth(s: string, x: Syntax): int {
    if s == [] then 0
    else
      var rest := s[..|s| - 1];
      Depth(rest, x) + DepthStep(QuoteAfter(rest, x.marks), s[|s| - 1], x)
  }

  ghost predicate NeverBelowZero(s: string, x: Syntax) { forall i :: 0 <= i <= |s| ==> Depth(s[..i], x) >= 0 }

  /** Every literal and delimiter that the text opens it closes, and it closes no other delimiter. */
  ghost predicate IsBalanced(s: string, x: Syntax) {
    QuoteAfter(s, x.marks) == Code && Depth(s, x) == 0 && NeverBelowZero(s, x)
  }

  lemma {:induction false} ScanGrows(s: string, c: char, x: Syntax)
    ensures QuoteAfter(s + [c], x.marks) == QuoteStep(QuoteAfter(s, x.marks), c, x.marks)
    ensures Depth(s + [c], x) == Depth(s, x) + DepthStep(QuoteAfter(s, x.marks), c, x)
  {
    assert (s + [c])[..|s|] == s;
  }

  lemma {:induction false} NeverBelowZeroGrows(s: string, c: char, x: Syntax)
    ensures NeverBelowZero(s + [c], x) <==> NeverBelowZero(s, x) && Depth(s + [c], x) >= 0
  {
    hide Depth;
    assert forall i :: 0 <= i <= |s| ==> (s + [c])[..i] == s[..i];
    assert (s + [c])[..|s| + 1] == s + [c];
    assert s[..|s|] == s;
  }

  /** Behind a text that ends in code the scan starts afresh. */
  lemma {:induction false} ScanConcat(a: string, b: string, x: Syntax)
    requires QuoteAfter(a, x.marks) == Code
    ensures QuoteAfter(a + b, x.marks) == QuoteAfter(b, x.marks)
    ensures Depth(a + b, x) == Depth(a, x) + Depth(b, x)
    decreases |b|
  {
    if b == [] {
      assert a + b == a;
    } else {
      var front, c := b[..|b| - 1], b[|b| - 1];
      ScanConcat(a, front, x);
      assert a + b == (a + front) + [c] && b == front + [c];
      ScanGrows(a + front, c, x);
      ScanGrows(front, c, x);
    }
  }

  lemma {:induction false} BalancedConcat(a: string, b: string, x: Syntax)
    requires IsBalanced(a, x) && IsBalanced(b, x)
    ensures IsBalanced(a + b, x)
  {
    hide Depth, QuoteAfter;
    ScanConcat(a, b, x);
    forall i | 0 <= i <= |a + b| ensures Depth((a + b)[..i], x) >= 0 {
      if i <= |a| {
        assert (a + b)[..i] == a[..i];
      } else {
        assert (a + b)[..i] == a + b[..i - |a|];
        ScanConcat(a, b[..i - |a|], x);
      }
    }
  }

  lemma {:induction false} BalancedRest(a: string, b: string, x: Syntax)
    requires IsBalanced(a + b, x) && QuoteAfter(a, x.marks) == Code && Depth(a, x) == 0
    ensures IsBalanced(b, x)
  {
    hide Depth, QuoteAfter;
    ScanConcat(a, b, x);
    forall i | 0 <= i <= |b| ensures Depth(b[..i], x) >= 0 {
      assert (a + b)[..|a| + i] == a + b[..i];
      ScanConcat(a, b[..i], x);
    }
  }

  // ----- the mate of an opening delimiter -----

  /** The delimiter at k closes the one at openIndex. */
  ghost predicate IsMate(source: string, openIndex: nat, k: nat, x: Syntax) {
    openIndex < k < |source| && source[k] == x.closing && IsBalanced(source[openIndex + 1..k], x)
  }

  lemma {:induction false} MateIsUnique(source: string, openIndex: nat, k: nat, later: nat, x: Syntax)
    requires IsSyntax(x) && IsMate(source, openIndex, k, x) && IsMate(source, openIndex, later, x)
    ensures k == later
  {
    if k < later {
      MateIsFirst(source, openIndex, k, later, x);
    } else if later < k {
      MateIsFirst(source, openIndex, later, k, x);
    }
  }

  lemma {:induction false} MateIsFirst(source: string, openIndex: nat, k: nat, later: nat, x: Syntax)
    requires IsSyntax(x) && IsMate(source, openIndex, k, x) && openIndex < k < later <= |source|
    ensures !NeverBelowZero(source[openIndex + 1..later], x)
  {
    var list, longer := source[openIndex + 1..k], source[openIndex + 1..later];
    hide Depth, QuoteAfter;
    ScanGrows(list, x.closing, x);
    UpToTheMate(source, openIndex, k, later);
  }

  lemma UpToTheMate(source: string, openIndex: nat, k: nat, later: nat)
    requires openIndex < k < later <= |source|
    ensures source[openIndex + 1..later][..k - openIndex] == source[openIndex + 1..k] + [source[k]]
  {
  }

  /** A text that is balanced but for a delimiter left open has the mate of that delimiter somewhere. */
  lemma {:induction false} MateExists(s: string, i: nat, x: Syntax) returns (k: nat)
    requires IsSyntax(x) && 0 < i <= |s| && s[0] == x.opening && IsBalanced(s, x)
    requires NeverBelowZero(s[1..i], x)
    ensures IsMate(s, 0, k, x)
    decreases |s| - i
  {
    var list := s[1..i];
    hide Depth, QuoteAfter;
    OpeningAdds(s[..i], x);
    assert s[..i][1..] == list;
    assert i < |s| by {
      assert list[..|list|] == list && s[..|s|] == s;
    }
    ScanGrows(list, s[i], x);
    NeverBelowZeroGrows(list, s[i], x);
    assert s[1..i + 1] == list + [s[i]];
    if Depth(list + [s[i]], x) < 0 {
      assert list[..|list|] == list;
      k := i;
    } else {
      k := MateExists(s, i + 1, x);
    }
  }

  lemma {:induction false} OpeningAdds(s: string, x: Syntax)
    requires IsSyntax(x) && s != [] && s[0] == x.opening
    ensures QuoteAfter(s, x.marks) == QuoteAfter(s[1..], x.marks)
    ensures Depth(s, x) == 1 + Depth(s[1..], x)
  {
    assert s == [x.opening] + s[1..];
    assert QuoteAfter([x.opening], x.marks) == Code && Depth([x.opening], x) == 1 by {
      ScanGrows([], x.opening, x);
      assert [] + [x.opening] == [x.opening];
    }
    ScanConcat([x.opening], s[1..], x);
  }

  lemma {:induction false} BalancedGroup(inner: string, x: Syntax)
    requires IsSyntax(x) && IsBalanced(inner, x)
    ensures IsBalanced([x.opening] + inner + [x.closing], x)
  {
    hide Depth, QuoteAfter;
    var open := [x.opening] + inner;
    OpeningAdds(open, x);
    assert open[1..] == inner;
    assert NeverBelowZero(open, x) by {
      forall i | 0 <= i <= |open| ensures Depth(open[..i], x) >= 0 {
        if i == 0 {
          EmptyIsBalanced(x);
          assert open[..0] == [];
        } else {
          OpeningAdds(open[..i], x);
          assert open[..i][1..] == inner[..i - 1];
        }
      }
    }
    ScanGrows(open, x.closing, x);
    NeverBelowZeroGrows(open, x.closing, x);
  }

  lemma EmptyIsBalanced(x: Syntax)
    ensures IsBalanced([], x) && Depth([], x) == 0
  {
  }

  // ----- a depth clamped at zero -----

  /** The least depth any prefix of the text reaches. */
  function Lowest(s: string, x: Syntax): int {
    if s == [] then 0
    else
      var lowest := Lowest(s[..|s| - 1], x);
      if Depth(s, x) < lowest then Depth(s, x) else lowest
  }

  lemma {:induction false} LowestIsLeast(s: string, x: Syntax)
    ensures forall i :: 0 <= i <= |s| ==> Lowest(s, x) <= Depth(s[..i], x)
    ensures exists i :: 0 <= i <= |s| && Lowest(s, x) == Depth(s[..i], x)
    decreases |s|
  {
    assert s[..|s|] == s;
    if s != [] {
      var rest := s[..|s| - 1];
      LowestIsLeast(rest, x);
      hide Depth;
      assert forall i :: 0 <= i <= |rest| ==> rest[..i] == s[..i];
    }
  }

  function Minus(depth: nat): nat { if depth > 0 then depth - 1 else 0 }

  /** A depth that a closing delimiter at zero leaves alone. */
  ghost predicate IsClamped(depth: nat, s: string, x: Syntax) { depth == Depth(s, x) - Lowest(s, x) }

  lemma {:induction false} ClampStep(depth: nat, s: string, c: char, x: Syntax)
    requires IsClamped(depth, s, x)
    ensures var step := DepthStep(QuoteAfter(s, x.marks), c, x);
      IsClamped(if step < 0 then Minus(depth) else depth + step, s + [c], x)
  {
    ScanGrows(s, c, x);
    assert (s + [c])[..|s|] == s;
    hide Depth, QuoteAfter, DepthStep;
  }

  lemma {:induction false} ClampIsIdleAt(depth: nat, s: string, i: nat, x: Syntax)
    requires i <= |s| && IsClamped(depth, s[..i], x)
    ensures NeverBelowZero(s, x) ==> depth == Depth(s[..i], x)
  {
    hide Depth;
    var t := s[..i];
    LowestIsLeast(t, x);
    assert forall j :: 0 <= j <= |t| ==> t[..j] == s[..j];
    EmptyIsBalanced(x);
    assert t[..0] == [];
  }

  // ----- balanced texts, written down -----

  datatype LiteralChar = Single(c: char) | Escape(c: char)

  /** Code characters, string literals and delimited groups, one after the other. */
  datatype Body =
    | Nothing
    | Char(c: char, rest: Body)
    | Literal(mark: char, chars: seq<LiteralChar>, rest: Body)
    | Group(inner: Body, rest: Body)

  function CharText(c: LiteralChar): string {
    match c
    case Single(c) => [c]
    case Escape(c) => ['\\', c]
  }

  function CharsText(chars: seq<LiteralChar>): string {
    if chars == [] then [] else CharText(chars[0]) + CharsText(chars[1..])
  }

  function LiteralText(mark: char, chars: seq<LiteralChar>): string { [mark] + CharsText(chars) + [mark] }

  function Text(body: Body, x: Syntax): string {
    match body
    case Nothing => []
    case Char(c, rest) => [c] + Text(rest, x)
    case Literal(mark, chars, rest) => LiteralText(mark, chars) + Text(rest, x)
    case Group(inner, rest) => ([x.opening] + Text(inner, x) + [x.closing]) + Text(rest, x)
  }

  /** The mark and the backslash stand in a literal only behind a backslash. */
  predicate IsPlain(mark: char, chars: seq<LiteralChar>) {
    forall j :: 0 <= j < |chars| && chars[j].Single? ==> chars[j].c != mark && chars[j].c != '\\'
  }

  predicate IsLiteral(mark: char, chars: seq<LiteralChar>, marks: set<char>) {
    mark in marks && IsPlain(mark, chars)
  }

  predicate IsBody(body: Body, x: Syntax) {
    match body
    case Nothing => true
    case Char(c, rest) => c !in x.marks && c != x.opening && c != x.closing && IsBody(rest, x)
    case Literal(mark, chars, rest) => IsLiteral(mark, chars, x.marks) && IsBody(rest, x)
    case Group(inner, rest) => IsBody(inner, x) && IsBody(rest, x)
  }

  /** Between the quotes of a literal. */
  ghost predicate IsInside(s: string, mark: char, x: Syntax) {
    QuoteAfter(s, x.marks) == Quoted(mark, false) && Depth(s, x) == 0 && NeverBelowZero(s, x)
  }

  lemma {:induction false} InsideGrows(s: string, mark: char, c: LiteralChar, x: Syntax)
    requires IsInside(s, mark, x) && (c.Single? ==> c.c != mark && c.c != '\\')
    ensures IsInside(s + CharText(c), mark, x)
  {
    hide Depth, QuoteAfter;
    match c
    case Single(c) =>
      ScanGrows(s, c, x);
      NeverBelowZeroGrows(s, c, x);
    case Escape(c) =>
      ScanGrows(s, '\\', x);
      NeverBelowZeroGrows(s, '\\', x);
      ScanGrows(s + ['\\'], c, x);
      NeverBelowZeroGrows(s + ['\\'], c, x);
      assert s + ['\\', c] == s + ['\\'] + [c];
  }

  lemma {:induction false} InsideGoesOn(s: string, mark: char, chars: seq<LiteralChar>, x: Syntax)
    requires IsInside(s, mark, x) && IsLiteral(mark, chars, x.marks)
    ensures IsInside(s + CharsText(chars), mark, x)
    decreases |chars|
  {
    hide IsInside, CharText;
    if chars == [] {
      assert s + CharsText(chars) == s;
    } else {
      InsideGrows(s, mark, chars[0], x);
      InsideGoesOn(s + CharText(chars[0]), mark, chars[1..], x);
      assert s + CharsText(chars) == s + CharText(chars[0]) + CharsText(chars[1..]);
    }
  }

  lemma {:induction false} LiteralIsBalanced(mark: char, chars: seq<LiteralChar>, x: Syntax)
    requires IsSyntax(x) && IsLiteral(mark, chars, x.marks)
    ensures IsBalanced(LiteralText(mark, chars), x)
  {
    hide Depth, QuoteAfter, CharsText;
    EmptyIsBalanced(x);
    ScanGrows([], mark, x);
    NeverBelowZeroGrows([], mark, x);
    assert [] + [mark] == [mark];
    InsideGoesOn([mark], mark, chars, x);
    ScanGrows([mark] + CharsText(chars), mark, x);
    NeverBelowZeroGrows([mark] + CharsText(chars), mark, x);
  }

  lemma {:induction false} CharIsBalanced(c: char, x: Syntax)
    requires c !in x.marks && c != x.opening && c != x.closing
    ensures IsBalanced([c], x)
  {
    hide Depth, QuoteAfter;
    EmptyIsBalanced(x);
    ScanGrows([], c, x);
    NeverBelowZeroGrows([], c, x);
    assert [] + [c] == [c];
  }

  lemma {:induction false} BodyIsBalanced(body: Body, x: Syntax)
    requires IsSyntax(x) && IsBody(body, x)
    ensures IsBalanced(Text(body, x), x)
    decreases body
  {
    hide IsBalanced, LiteralText;
    match body
    case Nothing => EmptyIsBalanced(x);
    case Char(c, rest) =>
      CharIsBalanced(c, x);
      BodyIsBalanced(rest, x);
      BalancedConcat([c], Text(rest, x), x);
    case Literal(mark, chars, rest) =>
      LiteralIsBalanced(mark, chars, x);
      BodyIsBalanced(rest, x);
      BalancedConcat(LiteralText(mark, chars), Text(rest, x), x);
    case Group(inner, rest) =>
      BodyIsBalanced(inner, x);
      BalancedGroup(Text(inner, x), x);
      BodyIsBalanced(rest, x);
      BalancedConcat([x.opening] + Text(inner, x) + [x.closing], Text(rest, x), x);
  }

  lemma {:induction false} CharsTextCons(c: LiteralChar, rest: seq<LiteralChar>, after: string)
    ensures CharsText([c] + rest) + after == CharText(c) + (CharsText(rest) + after)
  {
    assert ([c] + rest)[1..] == rest;
  }

  lemma {:induction false} OneStep(s: string, i: nat, x: Syntax)
    requires i < |s|
    ensures QuoteAfter(s[..i + 1], x.marks) == QuoteStep(QuoteAfter(s[..i], x.marks), s[i], x.marks)
  {
    assert s[..i + 1] == s[..i] + [s[i]];
    ScanGrows(s[..i], s[i], x);
  }

  /** From inside a literal of a text that ends in code, the rest of that literal. */
  lemma CutBetween(s: string, i: nat, next: nat, n: nat)
    requires i <= next <= n <= |s|
    ensures s[i..n] == s[i..next] + s[next..n]
  {
  }

  lemma CharHere(s: string, i: nat, c: LiteralChar, next: nat)
    requires i < next <= |s|
    requires (c == Single(s[i]) && next == i + 1) || (next == i + 2 && s[i] == '\\' && c == Escape(s[i + 1]))
    ensures CharText(c) == s[i..next]
  {
  }

  lemma {:induction false} LiteralEnds(s: string, i: nat, mark: char, x: Syntax) returns (chars: seq<LiteralChar>,
        n: nat)
    requires i <= |s| && QuoteAfter(s[..i], x.marks) == Quoted(mark, false) && QuoteAfter(s, x.marks) == Code
    ensures i < n <= |s| && s[i..n] == CharsText(chars) + [mark] && IsPlain(mark, chars)
    decreases |s| - i
  {
    assert s[..|s|] == s;
    OneStep(s, i, x);
    if s[i] == mark && mark != '\\' {
      chars, n := [], i + 1;
    } else {
      var c, next := Single(s[i]), i + 1;
      if s[i] == '\\' {
        OneStep(s, i + 1, x);
        c, next := Escape(s[i + 1]), i + 2;
      }
      CharHere(s, i, c, next);
      hide QuoteAfter, CharsText;
      var rest;
      rest, n := LiteralEnds(s, next, mark, x);
      chars := [c] + rest;
      CharsTextCons(c, rest, [mark]);
      CutBetween(s, i, next, n);
    }
  }

  lemma {:induction false} Rejoin(s: string, n: nat, inner: string, mark: char)
    requires 0 < n <= |s| && s[0] == mark && s[1..n] == inner + [mark]
    ensures s[..n] == [mark] + inner + [mark] && s == s[..n] + s[n..]
  {
    assert s[..n] == [mark] + s[1..n];
  }

  lemma {:induction false} LiteralComesFirst(s: string, x: Syntax) returns (chars: seq<LiteralChar>, n: nat)
    requires IsSyntax(x) && IsBalanced(s, x) && s != [] && s[0] in x.marks
    ensures IsLiteral(s[0], chars, x.marks) && 0 < n <= |s|
    ensures s == LiteralText(s[0], chars) + s[n..] && IsBalanced(s[n..], x)
  {
    assert s[..0] == [];
    OneStep(s, 0, x);
    hide Depth, QuoteAfter, CharsText;
    chars, n := LiteralEnds(s, 1, s[0], x);
    LiteralIsBalanced(s[0], chars, x);
    Rejoin(s, n, CharsText(chars), s[0]);
    BalancedRest(s[..n], s[n..], x);
  }

  lemma Regroup(s: string, k: nat, x: Syntax)
    requires 0 < k < |s| && s[0] == x.opening && s[k] == x.closing
    ensures s[..k + 1] == [x.opening] + s[1..k] + [x.closing] && s == s[..k + 1] + s[k + 1..]
  {
  }

  lemma {:induction false} GroupComesFirst(s: string, x: Syntax) returns (k: nat)
    requires IsSyntax(x) && IsBalanced(s, x) && s != [] && s[0] == x.opening
    ensures 0 < k < |s| && IsBalanced(s[1..k], x) && IsBalanced(s[k + 1..], x)
    ensures s == ([x.opening] + s[1..k] + [x.closing]) + s[k + 1..]
  {
    assert s[1..1] == [];
    EmptyIsBalanced(x);
    hide Depth, QuoteAfter;
    k := MateExists(s, 1, x);
    BalancedGroup(s[1..k], x);
    Regroup(s, k, x);
    BalancedRest(s[..k + 1], s[k + 1..], x);
  }

  lemma {:induction false} CharComesFirst(s: string, x: Syntax)
    requires IsSyntax(x) && IsBalanced(s, x) && s != [] && s[0] !in x.marks && s[0] != x.opening
    ensures s[0] != x.closing && s == [s[0]] + s[1..] && IsBalanced(s[1..], x)
  {
    ScanGrows([], s[0], x);
    assert [] + [s[0]] == [s[0]] == s[..1];
    assert s == [s[0]] + s[1..];
    assert s[0] != x.closing;
    CharIsBalanced(s[0], x);
    hide Depth, QuoteAfter;
    BalancedRest([s[0]], s[1..], x);
  }

  lemma {:induction false} BalancedIsBody(s: string, x: Syntax) returns (body: Body)
    requires IsSyntax(x) && IsBalanced(s, x)
    ensures IsBody(body, x) && Text(body, x) == s
    decreases |s|
  {
    hide IsBalanced, LiteralText, IsLiteral;
    if s == [] {
      body := Nothing;
    } else if s[0] in x.marks {
      var chars, n := LiteralComesFirst(s, x);
      var rest := BalancedIsBody(s[n..], x);
      body := Literal(s[0], chars, rest);
    } else if s[0] == x.opening {
      var k := GroupComesFirst(s, x);
      var inner := BalancedIsBody(s[1..k], x);
      var rest := BalancedIsBody(s[k + 1..], x);
      body := Group(inner, rest);
    } else {
      CharComesFirst(s, x);
      var rest := BalancedIsBody(s[1..], x);
      body := Char(s[0], rest);
    }
  }

  /** The scan's bookkeeping and the written form describe the same texts. */
  lemma {:induction false} BalancedIffWritten(s: string, x: Syntax)
    requires IsSyntax(x)
    ensures IsBalanced(s, x) <==> exists body :: IsBody(body, x) && Text(body, x) == s
  {
    if IsBalanced(s, x) {
      var body := BalancedIsBody(s, x);
    }
    if body :| IsBody(body, x) && Text(body, x) == s {
      BodyIsBalanced(body, x);
    }
  }

  lemma Middle(a: string, b: string, c: string)
    ensures (a + (b + c))[|a|..|a| + |b|] == b
  {
  }

  /** So the mate of a delimiter is found behind every written body, whatever follows. */
  lemma {:induction false} BodyIsClosedByItsMate(before: string, body: Body, after: string, x: Syntax)
    requires IsSyntax(x) && IsBody(body, x)
    ensures IsMate(before + [x.opening] + (Text(body, x) + ([x.closing] + after)), |before|, |before| + 1 + |Text(body, x)|, x)
  {
    BodyIsBalanced(body, x);
    Middle(before + [x.opening], Text(body, x), [x.closing] + after);
    hide Text, IsBalanced;
  }
}
