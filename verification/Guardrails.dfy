/**
 `findMatchingParen` and `splitTopLevelArguments` (scripts/check-temp-path-guardrails.ts): the arguments of a
 call in TypeScript source, with its three kinds of quotes.
 */
module Guardrails {
  import opened Common
  import T = Text
  import opened BalancedText
  import opened TopLevelSplit

  // ----- quotes -----

  const MARKS := {'\'', '"', '`'}

  class QuoteScanState {
    var quote: Option<char>
    var escaped: bool

    ghost predicate Valid() reads this { quote.None? ==> !escaped }

    function View(): Quote reads this { if quote.None? then Code else Quoted(quote.value, escaped) }

    constructor ()
      ensures Valid() && View() == Code
    {
      quote, escaped := None, false;
    }

    method BeginQuotedSection(c: char) returns (began: bool)
      requires Valid()
      modifies this
      ensures Valid() && escaped == old(escaped)
      ensures began <==> c == '\'' || c == '"' || c == '`'
      ensures quote == if began then Some(c) else old(quote)
      ensures old(View()).Code? ==> View() == QuoteStep(old(View()), c, MARKS)
    {
      if c != '\'' && c != '"' && c != '`' {
        return false;
      }
      quote := Some(c);
      return true;
    }

    method ConsumeQuotedChar(c: char) returns (consumed: bool)
      requires Valid()
      modifies this
      ensures Valid() && consumed == old(quote.Some?)
      ensures View() == if consumed then QuoteStep(old(View()), c, MARKS) else old(View())
    {
      if quote.None? {
        return false;
      }
      if escaped {
        escaped := false;
        return true;
      }
      if c == '\\' {
        escaped := true;
        return true;
      }
      if c == quote.value {
        quote := None;
      }
      return true;
    }
  }

  // ----- the matching parenthesis -----

  const PARENS := Syntax(MARKS, '(', ')')
  const BRACKETS := Syntax(MARKS, '[', ']')
  const BRACES := Syntax(MARKS, '{', '}')

  method FindMatchingParen(source: string, openIndex: nat) returns (found: int)
    requires openIndex < |source|
    ensures found == -1 || (found >= 0 && IsMate(source, openIndex, found, PARENS))
    ensures found == -1 ==> forall k :: openIndex < k < |source| ==> !IsMate(source, openIndex, k, PARENS)
  {
    hide Depth, QuoteAfter, IsBalanced, NeverBelowZero;
    var depth := 1;
    var quoteState := new QuoteScanState();
    var i := openIndex + 1;
    assert source[openIndex + 1..i] == [];
    EmptyText();
    while i < |source|
      invariant openIndex < i <= |source| && quoteState.Valid() && fresh(quoteState)
      invariant quoteState.View() == QuoteAfter(source[openIndex + 1..i], MARKS)
      invariant depth == 1 + Depth(source[openIndex + 1..i], PARENS) && depth >= 1
      invariant NeverBelowZero(source[openIndex + 1..i], PARENS)
      invariant forall k :: openIndex < k < i ==> !IsMate(source, openIndex, k, PARENS)
    {
      var c := source[i];
      ghost var list := source[openIndex + 1..i];
      assert source[openIndex + 1..i + 1] == list + [c];
      ScanGrows(list, c, PARENS);
      NeverBelowZeroGrows(list, c, PARENS);
      IsMateHere(source, openIndex, i);
      i := i + 1;
      var consumed := quoteState.ConsumeQuotedChar(c);
      if consumed {
        continue;
      }
      var began := quoteState.BeginQuotedSection(c);
      if began {
        continue;
      }
      if c == '(' {
        depth := depth + 1;
        continue;
      }
      if c == ')' {
        depth := depth - 1;
        if depth == 0 {
          return i - 1;
        }
      }
    }
    return -1;
  }

  lemma EmptyText()
    ensures QuoteAfter([], MARKS) == Code && Depth([], PARENS) == 0 && NeverBelowZero([], PARENS)
  {
  }

  lemma IsMateHere(source: string, openIndex: nat, k: nat)
    requires openIndex < k < |source|
    ensures var list := source[openIndex + 1..k];
      IsMate(source, openIndex, k, PARENS) <==>
        source[k] == ')' && QuoteAfter(list, MARKS) == Code && Depth(list, PARENS) == 0 && NeverBelowZero(list, PARENS)
  {
  }

  // ----- splitting the arguments -----

  /** A closing delimiter at depth zero leaves the depth alone. */
  datatype Scan = Scan(quote: Quote, paren: nat, bracket: nat, brace: nat)

  const FRESH := Scan(Code, 0, 0, 0)

  function Step(scan: Scan, c: char): Scan {
    if !IsCode(scan.quote, c, MARKS) then scan.(quote := QuoteStep(scan.quote, c, MARKS))
    else if c == '(' then scan.(paren := scan.paren + 1)
    else if c == ')' then scan.(paren := Minus(scan.paren))
    else if c == '[' then scan.(bracket := scan.bracket + 1)
    else if c == ']' then scan.(bracket := Minus(scan.bracket))
    else if c == '{' then scan.(brace := scan.brace + 1)
    else if c == '}' then scan.(brace := Minus(scan.brace))
    else scan
  }

  predicate Cuts(scan: Scan, c: char) { c == ',' && scan == FRESH }

  function ArgumentScanner(): Scanner<Scan> { Scanner(FRESH, (scan, c) => Step(scan, c), (scan, c) => Cuts(scan, c)) }

  function ScanAfter(s: string): Scan { After(ArgumentScanner(), s) }

  /** The arguments as written, white space and all. */
  function Pieces(s: string): seq<string> { Split(ArgumentScanner(), s) }

  function Trimmed(pieces: seq<string>): seq<string> { seq(|pieces|,
        i requires 0 <= i < |pieces| => T.Trim(pieces[i])) }

  /** Trimmed; the last one is dropped when it is blank, as after a trailing comma. */
  function Arguments(pieces: seq<string>): seq<string>
    requires pieces != []
  {
    Trimmed(pieces[..|pieces| - 1]) + (if T.Trim(Last(pieces)) == "" then [] else [T.Trim(Last(pieces))])
  }

  lemma PiecesGrow(s: string, c: char)
    ensures Pieces(s) != []
    ensures Pieces(s + [c]) ==
      if Cuts(ScanAfter(s), c) then Pieces(s) + [""]
      else Grown(Pieces(s), c)
    ensures ScanAfter(s + [c]) == Step(ScanAfter(s), c)
  {
  }

  lemma TrimmedGrows(pieces: seq<string>, piece: string)
    ensures Trimmed(pieces + [piece]) == Trimmed(pieces) + [T.Trim(piece)]
  {
  }

  /** What the loop has done when it has read the text s. */
  ghost predicate SplitSoFar(s: string, out: seq<string>, current: string) {
    exists finished :: Pieces(s) == finished + [current] && out == Trimmed(finished)
  }

  lemma {:induction false} SplitStep(s: string, c: char, out: seq<string>, current: string)
    requires SplitSoFar(s, out, current)
    ensures Cuts(ScanAfter(s), c) ==> SplitSoFar(s + [c], out + [T.Trim(current)], "")
    ensures !Cuts(ScanAfter(s), c) ==> SplitSoFar(s + [c], out, current + [c])
    ensures ScanAfter(s + [c]) == Step(ScanAfter(s), c)
  {
    hide Pieces, ScanAfter, Cuts, T.Trim, Trimmed, Step;
    var finished :| Pieces(s) == finished + [current] && out == Trimmed(finished);
    PiecesGrow(s, c);
    TrimmedGrows(finished, current);
    assert Pieces(s)[..|Pieces(s)| - 1] == finished;
    if Cuts(ScanAfter(s), c) {
      assert Pieces(s + [c]) == (finished + [current]) + [""];
    } else {
      assert Pieces(s + [c]) == finished + [current + [c]];
    }
  }

  method SplitTopLevelArguments(source: string) returns (out: seq<string>)
    ensures Pieces(source) != [] && out == Arguments(Pieces(source))
  {
    hide SplitSoFar, Pieces, ScanAfter, T.Trim;
    out := [];
    var current := "";
    var parenDepth, bracketDepth, braceDepth := 0, 0, 0;
    var quoteState := new QuoteScanState();
    SplitStart();
    for i := 0 to |source|
      invariant quoteState.Valid() && fresh(quoteState)
      invariant parenDepth >= 0 && bracketDepth >= 0 && braceDepth >= 0
      invariant Scan(quoteState.View(), parenDepth, bracketDepth, braceDepth) == ScanAfter(source[..i])
      invariant SplitSoFar(source[..i], out, current)
    {
      var c := source[i];
      assert source[..i + 1] == source[..i] + [c];
      SplitStep(source[..i], c, out, current);
      if quoteState.quote.Some? {
        current := current + [c];
        var consumed := quoteState.ConsumeQuotedChar(c);
        continue;
      }
      var began := quoteState.BeginQuotedSection(c);
      if began {
        current := current + [c];
        continue;
      }
      if c == '(' {
        parenDepth := parenDepth + 1;
        current := current + [c];
        continue;
      }
      if c == ')' {
        if parenDepth > 0 {
          parenDepth := parenDepth - 1;
        }
        current := current + [c];
        continue;
      }
      if c == '[' {
        bracketDepth := bracketDepth + 1;
        current := current + [c];
        continue;
      }
      if c == ']' {
        if bracketDepth > 0 {
          bracketDepth := bracketDepth - 1;
        }
        current := current + [c];
        continue;
      }
      if c == '{' {
        braceDepth := braceDepth + 1;
        current := current + [c];
        continue;
      }
      if c == '}' {
        if braceDepth > 0 {
          braceDepth := braceDepth - 1;
        }
        current := current + [c];
        continue;
      }
      if c == ',' && parenDepth == 0 && bracketDepth == 0 && braceDepth == 0 {
        out := out + [T.Trim(current)];
        current := "";
        continue;
      }
      current := current + [c];
    }
    assert source[..|source|] == source;
    SplitEnd(source, out, current);
    if T.Trim(current) != "" {
      out := out + [T.Trim(current)];
    }
  }

  lemma {:induction false} SplitStart()
    ensures SplitSoFar([], [], "") && ScanAfter([]) == FRESH
  {
    assert Pieces([]) == [] + [""] && Trimmed([]) == [];
  }

  lemma SplitEnd(s: string, out: seq<string>, current: string)
    requires SplitSoFar(s, out, current)
    ensures Pieces(s) != [] && Arguments(Pieces(s)) == out + (if T.Trim(current) == "" then [] else [T.Trim(current)])
  {
  }

  lemma CutsOfArgumentsAreFresh()
    ensures CutsAreFresh(ArgumentScanner())
  {
  }

  lemma {:induction false} PiecesAreTheOnlyList(s: string, pieces: seq<string>)
    ensures pieces == Pieces(s) <==> IsList(ArgumentScanner(), pieces) && Join(pieces) == s
  {
    CutsOfArgumentsAreFresh();
    SplitIsTheOnlyList(ArgumentScanner(), s, pieces);
  }

  // ----- the finder and the splitter agree -----

  lemma StepClamps(scan: Scan, c: char)
    ensures var next := Step(scan, c);
      var p, k, b := DepthStep(scan.quote, c, PARENS), DepthStep(scan.quote, c, BRACKETS), DepthStep(scan.quote, c, BRACES);
      && next.quote == QuoteStep(scan.quote, c, MARKS)
      && next.paren == (if p < 0 then Minus(scan.paren) else scan.paren + p)
      && next.bracket == (if k < 0 then Minus(scan.bracket) else scan.bracket + k)
      && next.brace == (if b < 0 then Minus(scan.brace) else scan.brace + b)
  {
  }

  /** Each of the splitter's depths is the true depth above the least one so far. */
  lemma {:induction false} DepthsAreClamped(s: string)
    ensures var scan := ScanAfter(s);
      && scan.quote == QuoteAfter(s, MARKS)
      && IsClamped(scan.paren, s, PARENS) && IsClamped(scan.bracket, s, BRACKETS) && IsClamped(scan.brace, s, BRACES)
    decreases |s|
  {
    if s != [] {
      var rest, c := s[..|s| - 1], s[|s| - 1];
      DepthsAreClamped(rest);
      assert s == rest + [c];
      hide ScanAfter, Pieces, IsClamped, Depth, QuoteAfter, Step, DepthStep, QuoteStep;
      ScanGrows(rest, c, PARENS);
      PiecesGrow(rest, c);
      StepClamps(ScanAfter(rest), c);
      ClampStep(ScanAfter(rest).paren, rest, c, PARENS);
      ClampStep(ScanAfter(rest).bracket, rest, c, BRACKETS);
      ClampStep(ScanAfter(rest).brace, rest, c, BRACES);
    }
  }

  /** A comma separates exactly when it is code and no kind of delimiter is deeper than at its lowest. */
  lemma {:induction false} CutIff(s: string, c: char)
    ensures Cuts(ScanAfter(s), c) <==>
      && c == ',' && QuoteAfter(s, {'\'', '"', '`'}) == Code
      && Depth(s, PARENS) == Lowest(s, PARENS)
      && Depth(s, BRACKETS) == Lowest(s, BRACKETS)
      && Depth(s, BRACES) == Lowest(s, BRACES)
  {
    hide ScanAfter, Depth, QuoteAfter, Lowest;
    DepthsAreClamped(s);
  }

  /** So the clamp on one kind of delimiter changes nothing throughout a text exactly when the depth of that
      kind never drops below zero. */
  lemma {:induction false} ClampIsIdleIff(s: string)
    ensures (forall i :: 0 <= i <= |s| ==> ScanAfter(s[..i]).paren == Depth(s[..i], PARENS)) <==> NeverBelowZero(s, PARENS)
    ensures (forall i :: 0 <= i <= |s| ==> ScanAfter(s[..i]).bracket == Depth(s[..i], BRACKETS)) <==> NeverBelowZero(s, BRACKETS)
    ensures (forall i :: 0 <= i <= |s| ==> ScanAfter(s[..i]).brace == Depth(s[..i], BRACES)) <==> NeverBelowZero(s, BRACES)
  {
    hide ScanAfter, Depth, QuoteAfter, NeverBelowZero, IsClamped;
    NeverBelowZeroIsPrefixwise(s, PARENS);
    NeverBelowZeroIsPrefixwise(s, BRACKETS);
    NeverBelowZeroIsPrefixwise(s, BRACES);
    forall i | 0 <= i <= |s|
      ensures NeverBelowZero(s, PARENS) ==> ScanAfter(s[..i]).paren == Depth(s[..i], PARENS)
      ensures NeverBelowZero(s, BRACKETS) ==> ScanAfter(s[..i]).bracket == Depth(s[..i], BRACKETS)
      ensures NeverBelowZero(s, BRACES) ==> ScanAfter(s[..i]).brace == Depth(s[..i], BRACES)
    {
      DepthsAreClamped(s[..i]);
      ClampIsIdleAt(ScanAfter(s[..i]).paren, s, i, PARENS);
      ClampIsIdleAt(ScanAfter(s[..i]).bracket, s, i, BRACKETS);
      ClampIsIdleAt(ScanAfter(s[..i]).brace, s, i, BRACES);
    }
  }

  lemma {:induction false} NeverBelowZeroIsPrefixwise(s: string, x: Syntax)
    ensures NeverBelowZero(s, x) <==> forall i :: 0 <= i <= |s| ==> Depth(s[..i], x) >= 0
  {
    hide Depth;
  }

  /**
   On the text up to the mate that the finder returns, the clamp on parentheses never acts, and the text and
   every argument in it end outside quotes with every parenthesis closed.
   */
  lemma {:induction false} ArgumentListIsBalanced(source: string, openIndex: nat, k: nat)
    requires IsMate(source, openIndex, k, PARENS)
    ensures var list := source[openIndex + 1..k];
      && (forall i :: 0 <= i <= |list| ==> ScanAfter(list[..i]).paren == Depth(list[..i], PARENS))
      && forall piece :: piece in Pieces(list) ==> ScanAfter(piece).quote == Code && ScanAfter(piece).paren == 0
  {
    var list := source[openIndex + 1..k];
    hide Depth, After, QuoteAfter;
    ClampIsIdleIff(list);
    DepthsAreClamped(list);
    assert list[..|list|] == list;
    CutsOfArgumentsAreFresh();
    SplitIsAList(ArgumentScanner(), list);
    var pieces := Pieces(list);
    forall piece | piece in pieces ensures ScanAfter(piece).quote == Code && ScanAfter(piece).paren == 0 {
      var i :| 0 <= i < |pieces| && pieces[i] == piece;
      assert i < |pieces| - 1 ==> EndsAtTop(ArgumentScanner(), pieces[i]);
    }
  }

  lemma {:induction false} CommaAndSpace(s: string, space: string)
    requires ScanAfter(s) == FRESH && T.IsBlank(space)
    ensures Pieces(s + [','] + space) == Pieces(s) + [space] && ScanAfter(s + [','] + space) == FRESH
    decreases |space|
  {
    hide ScanAfter, Pieces, T.IsSpace;
    if space == "" {
      PiecesGrow(s, ',');
      assert s + [','] + space == s + [','];
    } else {
      var front, c := space[..|space| - 1], space[|space| - 1];
      CommaAndSpace(s, front);
      assert T.IsSpace(c);
      SpaceIsPlain(c);
      PiecesGrow(s + [','] + front, c);
      assert s + [','] + space == s + [','] + front + [c];
      assert space == front + [c];
    }
  }

  lemma SpaceIsPlain(c: char)
    requires T.IsSpace(c)
    ensures Step(FRESH, c) == FRESH && !Cuts(FRESH, c)
  {
  }

  lemma {:induction false} BlankIsTrimmed(space: string)
    requires T.IsBlank(space)
    ensures T.Trim(space) == ""
  {
    hide T.IsSpace;
    assert T.TrimStart(space) == "";
  }

  /** A comma behind the last argument, with white space behind it, adds no argument. */
  lemma {:induction false} TrailingCommaAddsNothing(s: string, space: string)
    requires EndsAtTop(ArgumentScanner(), s) && T.IsBlank(space)
    requires Pieces(s) != [] && T.Trim(Last(Pieces(s))) != ""
    ensures Pieces(s + [','] + space) != [] && Arguments(Pieces(s + [','] + space)) == Arguments(Pieces(s))
  {
    hide Pieces, T.Trim, T.IsBlank;
    CommaAndSpace(s, space);
    BlankIsTrimmed(space);
    var pieces := Pieces(s);
    assert pieces == pieces[..|pieces| - 1] + [Last(pieces)];
    TrimmedGrows(pieces[..|pieces| - 1], Last(pieces));
    assert (pieces + [space])[..|pieces|] == pieces;
  }

  /** Texts on which the clamps on brackets and on braces do act: the finder looks at neither. */
  lemma {:induction false} OtherClampsCanAct()
    ensures IsMate("(])", 0, 2, PARENS) && ScanAfter("]").bracket == 0 && Depth("]", BRACKETS) == -1
    ensures IsMate("(})", 0, 2, PARENS) && ScanAfter("}").brace == 0 && Depth("}", BRACES) == -1
  {
    CharIsBalanced(']', PARENS);
    CharIsBalanced('}', PARENS);
    assert "(])"[1..2] == [']'] == "]";
    assert "(})"[1..2] == ['}'] == "}";
  }
}
