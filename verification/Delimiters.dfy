/**
 `findClosingDelimiter` and `splitTopLevelSegments` (scripts/android-app-i18n.ts): the mate of an opening
 delimiter in Kotlin source, and the split of a parameter or argument list at its top-level commas.
 */
module Delimiters {
  import opened Common
  import opened BalancedText
  import opened TopLevelSplit

  /** The quote marks this code knows of Kotlin. */
  const MARKS := {'"'}

  function ToQuote(quoted: bool, escaped: bool): Quote { if quoted then Quoted('"', escaped) else Code }

  // ----- the closing delimiter -----

  /** At k, reading from the offset on, a closing delimiter brings the depth to zero. */
  predicate ClosesAt(source: string, offset: nat, k: nat, x: Syntax) {
    && offset <= k < |source|
    && DepthStep(QuoteAfter(source[offset..k], x.marks), source[k], x) == -1
    && Depth(source[offset..k + 1], x) == 0
  }

  ghost predicate NoCloseBefore(source: string, offset: nat, k: nat, x: Syntax) {
    forall j :: offset <= j < k ==> !ClosesAt(source, offset, j, x)
  }

  ghost predicate FirstClose(source: string, offset: nat, k: nat, x: Syntax) {
    ClosesAt(source, offset, k, x) && NoCloseBefore(source, offset, k, x)
  }

  lemma {:induction false} OneFurther(source: string, offset: nat, k: nat, x: Syntax)
    requires offset <= k < |source| && NoCloseBefore(source, offset, k, x)
    ensures QuoteAfter(source[offset..k + 1], x.marks) == QuoteStep(QuoteAfter(source[offset..k], x.marks), source[k], x.marks)
    ensures var step := DepthStep(QuoteAfter(source[offset..k], x.marks), source[k], x);
      && Depth(source[offset..k + 1], x) == Depth(source[offset..k], x) + step
      && (ClosesAt(source, offset, k, x) <==> step == -1 && Depth(source[offset..k], x) == 1)
      && (!ClosesAt(source, offset, k, x) ==> NoCloseBefore(source, offset, k + 1, x))
  {
    ScanGrows(source[offset..k], source[k], x);
    assert source[offset..k + 1] == source[offset..k] + [source[k]];
    hide QuoteAfter, Depth, DepthStep;
  }

  method FindClosingDelimiter(source: string, openingOffset: nat, opening: char,
        closing: char) returns (found: Option<nat>)
    ensures var x := Syntax({'"'}, opening, closing);
      match found
      case Some(k) => FirstClose(source, openingOffset, k, x)
      case None => NoCloseBefore(source, openingOffset, |source|, x)
  {
    ghost var x := Syntax(MARKS, opening, closing);
    var depth, quoted, escaped, index := 0, false, false, openingOffset;
    if |source| <= openingOffset { return None; }
    assert source[openingOffset..openingOffset] == [];
    while index < |source|
      invariant openingOffset <= index <= |source|
      invariant ToQuote(quoted, escaped) == QuoteAfter(source[openingOffset..index], MARKS) && (escaped ==> quoted)
      invariant depth == Depth(source[openingOffset..index], x)
      invariant NoCloseBefore(source, openingOffset, index, x)
    {
      var character := source[index];
      OneFurther(source, openingOffset, index, x);
      hide QuoteAfter, Depth, ClosesAt, NoCloseBefore;
      index := index + 1;
      if escaped {
        escaped := false;
        continue;
      }
      if quoted && character == '\\' {
        escaped := true;
        continue;
      }
      if character == '"' {
        quoted := !quoted;
        continue;
      }
      if quoted {
        continue;
      }
      if character == opening {
        depth := depth + 1;
      } else if character == closing {
        depth := depth - 1;
        if depth == 0 {
          return Some(index - 1);
        }
      }
    }
    return None;
  }

  // ----- what it encloses -----

  lemma {:induction false} StaysOpen(source: string, offset: nat, k: nat, i: nat, x: Syntax)
    requires IsSyntax(x) && offset < i <= k <= |source| && source[offset] == x.opening
    requires NoCloseBefore(source, offset, k, x)
    ensures Depth(source[offset..i], x) >= 1
    decreases i
  {
    var before := source[offset..i - 1];
    assert source[offset..i] == before + [source[i - 1]];
    ScanGrows(before, source[i - 1], x);
    if i == offset + 1 {
      assert before == [];
    } else {
      StaysOpen(source, offset, k, i - 1, x);
      hide Depth, QuoteAfter;
      assert !ClosesAt(source, offset, i - 1, x);
    }
  }

  lemma {:induction false} Inside(source: string, offset: nat, i: nat, x: Syntax)
    requires IsSyntax(x) && offset < i <= |source| && source[offset] == x.opening
    ensures QuoteAfter(source[offset..i], x.marks) == QuoteAfter(source[offset + 1..i], x.marks)
    ensures Depth(source[offset..i], x) == 1 + Depth(source[offset + 1..i], x)
  {
    OpeningAdds(source[offset..i], x);
    assert source[offset..i][1..] == source[offset + 1..i];
  }

  lemma {:induction false} CloseGrows(source: string, offset: nat, k: nat, x: Syntax)
    requires offset <= k < |source|
    ensures Depth(source[offset..k + 1], x) ==
      Depth(source[offset..k], x) + DepthStep(QuoteAfter(source[offset..k], x.marks), source[k], x)
  {
    ScanGrows(source[offset..k], source[k], x);
    assert source[offset..k + 1] == source[offset..k] + [source[k]];
  }

  lemma {:induction false} FirstCloseIsMate(source: string, offset: nat, k: nat, x: Syntax)
    requires IsSyntax(x) && offset < |source| && source[offset] == x.opening && FirstClose(source, offset, k, x)
    ensures IsMate(source, offset, k, x)
  {
    assert offset < k by { assert source[offset..offset] == []; }
    hide Depth, QuoteAfter;
    var inner := source[offset + 1..k];
    Inside(source, offset, k, x);
    CloseGrows(source, offset, k, x);
    forall i | 0 <= i <= |inner| ensures Depth(inner[..i], x) >= 0 {
      StaysOpen(source, offset, k, offset + 1 + i, x);
      Inside(source, offset, offset + 1 + i, x);
      assert inner[..i] == source[offset + 1..offset + 1 + i];
    }
  }

  lemma {:induction false} MateIsFirstClose(source: string, offset: nat, k: nat, x: Syntax)
    requires IsSyntax(x) && offset < |source| && source[offset] == x.opening && IsMate(source, offset, k, x)
    ensures FirstClose(source, offset, k, x)
  {
    hide Depth, QuoteAfter;
    var inner := source[offset + 1..k];
    Inside(source, offset, k, x);
    CloseGrows(source, offset, k, x);
    forall j | offset <= j < k ensures !ClosesAt(source, offset, j, x) {
      Inside(source, offset, j + 1, x);
      assert inner[..j - offset] == source[offset + 1..j + 1];
    }
  }

  /** From an opening delimiter the loop stops exactly at its mate. */
  lemma {:induction false} FirstCloseIffMate(source: string, offset: nat, k: nat, x: Syntax)
    requires IsSyntax(x) && offset < |source| && source[offset] == x.opening
    ensures FirstClose(source, offset, k, x) <==> IsMate(source, offset, k, x)
  {
    hide FirstClose, IsMate;
    if FirstClose(source, offset, k, x) { FirstCloseIsMate(source, offset, k, x); }
    if IsMate(source, offset, k, x) { MateIsFirstClose(source, offset, k, x); }
  }

  // ----- splitting at the top-level commas -----

  /** `track` is the option `trackTypeArguments`; the depths may go below zero. */
  datatype Scan = Scan(quote: Quote, paren: int, bracket: int, brace: int, typeArguments: nat, inDefaultValue: bool)

  const FRESH := Scan(Code, 0, 0, 0, 0, false)

  predicate AtTopLevel(scan: Scan) {
    scan.typeArguments == 0 && scan.paren == 0 && scan.bracket == 0 && scan.brace == 0
  }

  /** A comma here separates two segments. */
  predicate Cuts(scan: Scan, c: char) { IsCode(scan.quote, c, MARKS) && c == ',' && AtTopLevel(scan) }

  function Step(scan: Scan, c: char, track: bool): Scan {
    if !IsCode(scan.quote, c, MARKS) then scan.(quote := QuoteStep(scan.quote, c, MARKS))
    else if track && !scan.inDefaultValue && c == '<' then scan.(typeArguments := scan.typeArguments + 1)
    else if track && c == '>' && scan.typeArguments > 0 then scan.(typeArguments := scan.typeArguments - 1)
    else if c == '(' then scan.(paren := scan.paren + 1)
    else if c == '[' then scan.(bracket := scan.bracket + 1)
    else if c == '{' then scan.(brace := scan.brace + 1)
    else if c == ')' then scan.(paren := scan.paren - 1)
    else if c == ']' then scan.(bracket := scan.bracket - 1)
    else if c == '}' then scan.(brace := scan.brace - 1)
    else if track && c == '=' && AtTopLevel(scan) then scan.(inDefaultValue := true)
    else if c == ',' && AtTopLevel(scan) then scan.(inDefaultValue := false)
    else scan
  }

  function KotlinScanner(track: bool): Scanner<Scan> {
    Scanner(FRESH, (scan, c) => Step(scan, c, track), (scan, c) => Cuts(scan, c))
  }

  lemma KotlinCutsAreFresh(track: bool)
    ensures CutsAreFresh(KotlinScanner(track))
  {
  }

  function ScanAfter(s: string, track: bool): Scan { After(KotlinScanner(track), s) }

  function Pieces(s: string, track: bool): seq<string> { Split(KotlinScanner(track), s) }

  datatype Segment = Segment(start: nat, end: nat, value: string)

  function Values(segments: seq<Segment>): seq<string> { seq(|segments|,
        i requires 0 <= i < |segments| => segments[i].value) }

  /** The segments lie end to end from `start` on, one comma between them, up to the position `upTo`. */
  ghost predicate Tiles(source: string, start: nat, upTo: nat, segments: seq<Segment>) {
    && (forall i :: 0 <= i < |segments| ==>
          && start <= segments[i].start <= segments[i].end < upTo <= |source|
          && source[segments[i].end] == ',' && segments[i].value == source[segments[i].start..segments[i].end])
    && (segments == [] ==> upTo == start)
    && (segments != [] ==> segments[0].start == start && Last(segments).end + 1 == upTo)
    && forall i, j :: 0 <= i && j == i + 1 && j < |segments| ==> segments[j].start == segments[i].end + 1
  }

  predicate IsCut(source: string, start: nat, p: nat, track: bool) {
    start <= p < |source| && Cuts(ScanAfter(source[start..p], track), source[p])
  }

  ghost predicate EndsAreCuts(source: string, start: nat, upTo: nat, track: bool, segments: seq<Segment>) {
    forall p :: start <= p < upTo ==>
      (IsCut(source, start, p, track) <==> exists i :: 0 <= i < |segments| && segments[i].end == p)
  }

  /** What the loop has done when it stands at `index`. */
  ghost predicate SplitSoFar(source: string, start: nat, segmentStart: nat, index: nat, track: bool,
        segments: seq<Segment>) {
    && start <= segmentStart <= index <= |source|
    && Tiles(source, start, segmentStart, segments)
    && EndsAreCuts(source, start, index, track, segments)
    && Values(segments) + [source[segmentStart..index]] == Pieces(source[start..index], track)
  }

  lemma OneMore(source: string, from: nat, index: nat)
    requires from <= index < |source|
    ensures source[from..index + 1] == source[from..index] + [source[index]]
  {
  }

  lemma CutsAtComma(source: string, start: nat, p: nat, track: bool)
    requires start <= p < |source|
    ensures IsCut(source, start, p, track) ==> source[p] == ','
  {
  }

  lemma {:induction false} SplitStep(source: string, start: nat, segmentStart: nat, index: nat, track: bool,
        segments: seq<Segment>)
    requires index < |source| && SplitSoFar(source, start, segmentStart, index, track, segments)
    ensures !IsCut(source, start, index, track) ==> SplitSoFar(source, start, segmentStart, index + 1, track, segments)
    ensures start <= segmentStart <= index
    ensures IsCut(source, start, index, track) ==>
      SplitSoFar(source, start, index + 1, index + 1, track,
                 segments + [Segment(segmentStart, index, source[segmentStart..index])])
  {
    CutsAtComma(source, start, index, track);
    hide Pieces, ScanAfter, Cuts, Tiles, EndsAreCuts;
    PiecesGrow(source[start..index], source[index], track);
    OneMore(source, start, index);
    var piece := source[segmentStart..index];
    if IsCut(source, start, index, track) {
      var more := segments + [Segment(segmentStart, index, piece)];
      assert Values(more) == Values(segments) + [piece];
      assert source[index + 1..index + 1] == "";
      TilesGrow(source, start, segmentStart, index, segments);
      EndsGrow(source, start, segmentStart, index, track, segments);
    } else {
      OneMore(source, segmentStart, index);
      assert (Values(segments) + [piece])[..|segments|] == Values(segments);
      NoNewEnd(source, start, segmentStart, index, track, segments);
    }
  }

  lemma NoNewEnd(source: string, start: nat, segmentStart: nat, index: nat, track: bool, segments: seq<Segment>)
    requires start <= segmentStart <= index < |source| && !IsCut(source, start, index, track)
    requires Tiles(source, start, segmentStart, segments) && EndsAreCuts(source, start, index, track, segments)
    ensures EndsAreCuts(source, start, index + 1, track, segments)
  {
  }

  lemma PiecesGrow(s: string, c: char, track: bool)
    ensures Pieces(s, track) != []
    ensures Pieces(s + [c], track) ==
      if Cuts(ScanAfter(s, track), c) then Pieces(s, track) + [""]
      else Grown(Pieces(s, track), c)
    ensures ScanAfter(s + [c], track) == Step(ScanAfter(s, track), c, track)
  {
  }

  lemma TilesGrow(source: string, start: nat, segmentStart: nat, index: nat, segments: seq<Segment>)
    requires start <= segmentStart <= index < |source| && source[index] == ','
    requires Tiles(source, start, segmentStart, segments)
    ensures Tiles(source, start, index + 1, segments + [Segment(segmentStart, index, source[segmentStart..index])])
  {
  }

  lemma {:induction false} EndsGrow(source: string, start: nat, segmentStart: nat, index: nat, track: bool,
        segments: seq<Segment>)
    requires start <= segmentStart <= index < |source| && IsCut(source, start, index, track)
    requires Tiles(source, start, segmentStart, segments) && EndsAreCuts(source, start, index, track, segments)
    ensures EndsAreCuts(source, start, index + 1, track, segments + [Segment(segmentStart, index, source[segmentStart..index])])
  {
    hide IsCut;
    var more := segments + [Segment(segmentStart, index, source[segmentStart..index])];
    forall p | start <= p < index + 1
      ensures IsCut(source, start, p, track) <==> exists i :: 0 <= i < |more| && more[i].end == p
    {
      if p == index {
        assert more[|segments|].end == p;
      } else {
        assert forall i :: 0 <= i < |segments| ==> more[i] == segments[i];
      }
    }
  }

  method SplitTopLevelSegments(source: string, start: nat, end: nat, track: bool) returns (segments: seq<Segment>)
    requires start <= end <= |source|
    ensures segments != [] && Values(segments) == Pieces(source[start..end], track)
    ensures var last := Last(segments);
      && last.end == end && start <= last.start <= end && last.value == source[last.start..end]
      && Tiles(source, start, last.start, segments[..|segments| - 1])
    ensures EndsAreCuts(source, start, end, track, segments[..|segments| - 1])
  {
    hide SplitSoFar, Pieces, ScanAfter, Values, Tiles, EndsAreCuts;
    segments := [];
    var segmentStart: nat := start;
    var quoted, escaped, typeArgumentDepth, inDefaultValue := false, false, 0, false;
    var paren, bracket, brace := 0, 0, 0;
    StartSplit(source, start, track);
    var index := start;
    while index < end
      invariant start <= index <= end
      invariant Scan(ToQuote(quoted, escaped), paren, bracket, brace, typeArgumentDepth, inDefaultValue) ==
                ScanAfter(source[start..index], track)
      invariant escaped ==> quoted
      invariant SplitSoFar(source, start, segmentStart, index, track, segments)
    {
      var character := source[index];
      SplitStep(source, start, segmentStart, index, track, segments);
      OneMore(source, start, index);
      PiecesGrow(source[start..index], character, track);
      index := index + 1;
      if escaped {
        escaped := false;
        continue;
      }
      if quoted && character == '\\' {
        escaped := true;
        continue;
      }
      if character == '"' {
        quoted := !quoted;
        continue;
      }
      if quoted {
        continue;
      }
      if track && !inDefaultValue && character == '<' {
        typeArgumentDepth := typeArgumentDepth + 1;
        continue;
      }
      if track && character == '>' && typeArgumentDepth > 0 {
        typeArgumentDepth := typeArgumentDepth - 1;
        continue;
      }
      if character == '(' { paren := paren + 1; continue; }
      if character == '[' { bracket := bracket + 1; continue; }
      if character == '{' { brace := brace + 1; continue; }
      if character == ')' { paren := paren - 1; continue; }
      if character == ']' { bracket := bracket - 1; continue; }
      if character == '}' { brace := brace - 1; continue; }
      if track && character == '=' && typeArgumentDepth == 0 && paren == 0 && bracket == 0 && brace == 0 {
        inDefaultValue := true;
        continue;
      }
      if character == ',' && typeArgumentDepth == 0 && paren == 0 && bracket == 0 && brace == 0 {
        segments := segments + [Segment(segmentStart, index - 1, source[segmentStart..index - 1])];
        segmentStart := index;
        inDefaultValue := false;
      }
    }
    FinishSplit(source, start, segmentStart, end, track, segments);
    segments := segments + [Segment(segmentStart, end, source[segmentStart..end])];
  }

  lemma StartSplit(source: string, start: nat, track: bool)
    requires start <= |source|
    ensures SplitSoFar(source, start, start, start, track, []) && ScanAfter(source[start..start], track) == FRESH
  {
  }

  lemma FinishSplit(source: string, start: nat, segmentStart: nat, end: nat, track: bool, segments: seq<Segment>)
    requires SplitSoFar(source, start, segmentStart, end, track, segments)
    ensures start <= segmentStart <= end <= |source|
    ensures Values(segments + [Segment(segmentStart, end, source[segmentStart..end])]) == Pieces(source[start..end], track)
    ensures Tiles(source, start, segmentStart, segments) && EndsAreCuts(source, start, end, track, segments)
  {
  }

  // ----- the pieces are the one decomposition at top-level commas -----

  lemma {:induction false} PiecesAreTheOnlyList(s: string, pieces: seq<string>, track: bool)
    ensures pieces == Pieces(s, track) <==> IsList(KotlinScanner(track), pieces) && Join(pieces) == s
  {
    KotlinCutsAreFresh(track);
    SplitIsTheOnlyList(KotlinScanner(track), s, pieces);
  }

  // ----- the finder and the splitter agree -----

  const PARENS := Syntax(MARKS, '(', ')')
  const BRACKETS := Syntax(MARKS, '[', ']')
  const BRACES := Syntax(MARKS, '{', '}')

  lemma StepCountsDepths(scan: Scan, c: char, track: bool)
    ensures var next := Step(scan, c, track);
      && next.quote == QuoteStep(scan.quote, c, MARKS)
      && next.paren == scan.paren + DepthStep(scan.quote, c, PARENS)
      && next.bracket == scan.bracket + DepthStep(scan.quote, c, BRACKETS)
      && next.brace == scan.brace + DepthStep(scan.quote, c, BRACES)
  {
  }

  /** The splitter counts the three depths as the finder does. */
  lemma {:induction false} ScanCountsDepths(s: string, track: bool)
    ensures var scan := ScanAfter(s, track);
      && scan.quote == QuoteAfter(s, MARKS)
      && scan.paren == Depth(s, PARENS) && scan.bracket == Depth(s, BRACKETS) && scan.brace == Depth(s, BRACES)
    decreases |s|
  {
    if s != [] {
      var rest, c := s[..|s| - 1], s[|s| - 1];
      ScanCountsDepths(rest, track);
      assert s == rest + [c];
      PiecesGrow(rest, c, track);
      StepCountsDepths(ScanAfter(rest, track), c, track);
      hide Step, DepthStep, QuoteStep, ScanAfter, Pieces;
    }
  }

  lemma {:induction false} UntrackedIsUnchanged(s: string)
    ensures ScanAfter(s, false).typeArguments == 0 && !ScanAfter(s, false).inDefaultValue
    decreases |s|
  {
    if s != [] {
      var rest, c := s[..|s| - 1], s[|s| - 1];
      UntrackedIsUnchanged(rest);
      assert s == rest + [c];
      PiecesGrow(rest, c, false);
      hide ScanAfter, Pieces;
    }
  }

  /** Without type arguments a comma separates exactly when it is code and outside all three kinds of delimiters. */
  lemma {:induction false} UntrackedCutIff(s: string, c: char)
    ensures Cuts(ScanAfter(s, false), c) <==>
      && c == ',' && QuoteAfter(s, {'"'}) == Code
      && Depth(s, PARENS) == 0 && Depth(s, BRACKETS) == 0 && Depth(s, BRACES) == 0
  {
    hide ScanAfter, Depth, QuoteAfter;
    UntrackedIsUnchanged(s);
    ScanCountsDepths(s, false);
  }

  // ----- type arguments and default values -----

  const ANGLES := Syntax(MARKS, '<', '>')

  /** At e a default value begins: an equals sign in code, outside delimiters and type arguments. */
  ghost predicate DefaultAt(piece: string, e: nat) {
    && e < |piece| && piece[e] == '=' && QuoteAfter(piece[..e], MARKS) == Code
    && Depth(piece[..e], PARENS) == 0 && Depth(piece[..e], BRACKETS) == 0 && Depth(piece[..e], BRACES) == 0
    && Depth(piece[..e], ANGLES) == Lowest(piece[..e], ANGLES)
  }

  ghost predicate HasDefault(piece: string) { exists e :: DefaultAt(piece, e) }

  lemma {:induction false} DefaultsGrow(s: string, c: char)
    ensures HasDefault(s + [c]) <==> HasDefault(s) || DefaultAt(s + [c], |s|)
  {
    hide Depth, QuoteAfter, Lowest;
    var t := s + [c];
    forall e: nat | e < |s| ensures DefaultAt(t, e) <==> DefaultAt(s, e) { assert t[..e] == s[..e]; }
    if e: nat :| DefaultAt(t, e) { assert e < |s| || e == |s|; }
    if e: nat :| DefaultAt(s, e) { assert DefaultAt(t, e); }
  }

  /** What the two tracked variables say about the text scanned. */
  ghost predicate Tracks(scan: Scan, piece: string) {
    && (scan.inDefaultValue <==> HasDefault(piece))
    && (if HasDefault(piece) then scan.typeArguments == 0 else IsClamped(scan.typeArguments, piece, ANGLES))
  }

  lemma {:induction false} StepTracks(scan: Scan, s: string, c: char)
    requires Tracks(scan, s) && !Cuts(scan, c)
    requires scan.quote == QuoteAfter(s, MARKS)
    requires scan.paren == Depth(s, PARENS) && scan.bracket == Depth(s, BRACKETS) && scan.brace == Depth(s, BRACES)
    ensures Tracks(Step(scan, c, true), s + [c])
  {
    hide Depth, QuoteAfter, Lowest, HasDefault;
    DefaultsGrow(s, c);
    assert (s + [c])[..|s|] == s;
    if !HasDefault(s) { ClampStep(scan.typeArguments, s, c, ANGLES); }
  }

  /** Inside one segment: `inDefaultValue` says that a default value has begun, and `typeArguments` counts angle
      brackets, never below zero, until then. */
  lemma {:induction false} SegmentIsTracked(piece: string)
    requires IsWhole(KotlinScanner(true), piece)
    ensures Tracks(ScanAfter(piece, true), piece)
    decreases |piece|
  {
    if piece == [] {
      assert IsClamped(0, [], ANGLES) && !HasDefault([]);
    } else {
      var rest, c := piece[..|piece| - 1], piece[|piece| - 1];
      assert piece == rest + [c];
      WholeGrows(KotlinScanner(true), rest, c);
      SegmentIsTracked(rest);
      ScanCountsDepths(rest, true);
      PiecesGrow(rest, c, true);
      hide ScanAfter, Step, Tracks, Pieces, Depth, QuoteAfter;
      StepTracks(ScanAfter(rest, true), rest, c);
    }
  }

  /** With type arguments a comma separates exactly when it is code, outside all three kinds of delimiters, and
      outside angle brackets unless its segment's default value has begun. */
  lemma {:induction false} TrackedCutIff(s: string, c: char)
    ensures Pieces(s, true) != []
    ensures var piece := Last(Pieces(s, true));
      Cuts(ScanAfter(s, true), c) <==>
        && c == ',' && QuoteAfter(s, MARKS) == Code
        && Depth(s, PARENS) == 0 && Depth(s, BRACKETS) == 0 && Depth(s, BRACES) == 0
        && (HasDefault(piece) || Depth(piece, ANGLES) == Lowest(piece, ANGLES))
  {
    KotlinCutsAreFresh(true);
    SplitIsAList(KotlinScanner(true), s);
    var piece := Last(Pieces(s, true));
    hide ScanAfter, Depth, QuoteAfter, Lowest, HasDefault, IsWhole;
    ScanCountsDepths(s, true);
    SegmentIsTracked(piece);
    assert ScanAfter(s, true) == ScanAfter(piece, true);
  }

  /**
   Between an opening parenthesis and the mate the finder returns, the splitter's parenthesis depth never drops
   below zero, and the list and every piece of it end outside literals with every parenthesis closed.
   */
  lemma {:induction false} ArgumentListIsBalanced(source: string, offset: nat, k: nat, track: bool)
    requires offset < |source| && source[offset] == '(' && FirstClose(source, offset, k, PARENS)
    ensures offset < k
    ensures var list := source[offset + 1..k];
      && (forall i :: 0 <= i <= |list| ==> ScanAfter(list[..i], track).paren >= 0)
      && ScanAfter(list, track).quote == Code && ScanAfter(list, track).paren == 0
      && forall piece :: piece in Pieces(list, track) ==>
           ScanAfter(piece, track).quote == Code && ScanAfter(piece, track).paren == 0
  {
    FirstCloseIffMate(source, offset, k, PARENS);
    var list := source[offset + 1..k];
    hide FirstClose, Depth, After, QuoteAfter;
    ScanCountsDepths(list, track);
    forall i | 0 <= i <= |list| ensures ScanAfter(list[..i], track).paren >= 0 { ScanCountsDepths(list[..i], track); }
    KotlinCutsAreFresh(track);
    SplitIsAList(KotlinScanner(track), list);
    var pieces := Pieces(list, track);
    forall piece | piece in pieces
      ensures ScanAfter(piece, track).quote == Code && ScanAfter(piece, track).paren == 0
    {
      var i :| 0 <= i < |pieces| && pieces[i] == piece;
      assert i < |pieces| - 1 ==> EndsAtTop(KotlinScanner(track), pieces[i]);
    }
  }
}
