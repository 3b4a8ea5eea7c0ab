/**
 Splitting a text at its top-level commas, for any scanner that reads the text character by character and
 says which commas are at top level. The splitters of scripts/android-app-i18n.ts and
 scripts/check-temp-path-guardrails.ts are two such scanners.
 */
module TopLevelSplit {

  datatype Scanner<!S> = Scanner(start: S, step: (S, char) -> S, cuts: (S, char) -> bool)

  /** Only commas cut, and behind a cut the scanner starts afresh. */
  ghost predicate CutsAreFresh<S(!new)>(m: Scanner<S>) {
    forall state, c :: m.cuts(state, c) ==> c == ',' && m.step(state, c) == m.start
  }

  function After<S>(m: Scanner<S>, s: string): S {
    if s == [] then m.start else m.step(After(m, s[..|s| - 1]), s[|s| - 1])
  }

  function Last<T>(s: seq<T>): T
    requires s != []
  {
    s[|s| - 1]
  }

  /** One more character in the last piece. */
  function Grown(pieces: seq<string>, c: char): (grown: seq<string>)
    requires pieces != []
    ensures grown != []
  {
    pieces[..|pieces| - 1] + [Last(pieces) + [c]]
  }

  /** The pieces between the top-level commas. */
  function Split<S>(m: Scanner<S>, s: string): (pieces: seq<string>)
    ensures pieces != []
  {
    if s == [] then [""]
    else
      var c := s[|s| - 1];
      var before := Split(m, s[..|s| - 1]);
      if m.cuts(After(m, s[..|s| - 1]), c) then before + [""]
      else Grown(before, c)
  }

  function Join(pieces: seq<string>): string {
    if pieces == [] then ""
    else if |pieces| == 1 then pieces[0]
    else Join(pieces[..|pieces| - 1]) + [','] + Last(pieces)
  }

  /** No comma of the text is at top level. */
  ghost predicate IsWhole<S>(m: Scanner<S>, s: string) {
    forall i :: 0 <= i < |s| ==> !m.cuts(After(m, s[..i]), s[i])
  }

  /** A comma after the text would be at top level. */
  predicate EndsAtTop<S>(m: Scanner<S>, s: string) { m.cuts(After(m, s), ',') }

  /** Pieces that stay apart when they are joined. */
  ghost predicate IsList<S>(m: Scanner<S>, pieces: seq<string>) {
    && pieces != []
    && (forall i :: 0 <= i < |pieces| ==> IsWhole(m, pieces[i]))
    && forall i :: 0 <= i < |pieces| - 1 ==> EndsAtTop(m, pieces[i])
  }

  // ----- one more character -----

  lemma SplitGrows<S>(m: Scanner<S>, s: string, c: char)
    ensures Split(m, s + [c]) ==
      if m.cuts(After(m, s), c) then Split(m, s) + [""]
      else Grown(Split(m, s), c)
    ensures After(m, s + [c]) == m.step(After(m, s), c)
  {
  }

  lemma {:induction false} WholeGrows<S>(m: Scanner<S>, s: string, c: char)
    ensures IsWhole(m, s + [c]) <==> IsWhole(m, s) && !m.cuts(After(m, s), c)
  {
    assert forall i :: 0 <= i < |s| ==> (s + [c])[..i] == s[..i] && (s + [c])[i] == s[i];
    assert (s + [c])[..|s|] == s && (s + [c])[|s|] == c;
  }

  lemma CommaGrows(pieces: seq<string>)
    requires pieces != []
    ensures Join(pieces + [""]) == Join(pieces) + [',']
  {
  }

  lemma JoinGrows(pieces: seq<string>, c: char)
    requires pieces != []
    ensures Join(Grown(pieces, c)) == Join(pieces) + [c]
  {
  }

  lemma {:induction false} ListGrows<S>(m: Scanner<S>, pieces: seq<string>, c: char)
    requires IsList(m, pieces)
    ensures m.cuts(After(m, Last(pieces)), c) && c == ',' ==> IsList(m, pieces + [""])
    ensures !m.cuts(After(m, Last(pieces)), c) ==> IsList(m, Grown(pieces, c))
  {
    assert IsWhole(m, "");
    hide IsWhole, After;
    WholeGrows(m, Last(pieces), c);
  }

  lemma LastOfGrown(pieces: seq<string>, c: char)
    requires pieces != []
    ensures Last(Grown(pieces, c)) == Last(pieces) + [c] && Last(pieces + [""]) == ""
  {
  }

  // ----- the splitter's result is the one list that joins to the text -----

  /** Splitting loses nothing, leaves no top-level comma behind, and the scan is fresh again after each comma. */
  lemma {:induction false} SplitIsAList<S(!new)>(m: Scanner<S>, s: string)
    requires CutsAreFresh(m)
    ensures IsList(m, Split(m, s)) && Join(Split(m, s)) == s
    ensures After(m, s) == After(m, Last(Split(m, s)))
    decreases |s|
  {
    if s == [] {
      assert IsWhole(m, "");
    } else {
      var rest, c := s[..|s| - 1], s[|s| - 1];
      assert After(m, "") == m.start;
      hide IsList, After, Split, Join, Grown;
      assert s == rest + [c];
      var before := Split(m, rest);
      SplitIsAList(m, rest);
      ListGrows(m, before, c);
      JoinGrows(before, c);
      CommaGrows(before);
      LastOfGrown(before, c);
      SplitGrows(m, rest, c);
      SplitGrows(m, Last(before), c);
    }
  }

  lemma {:induction false} SplitOfGrownJoin<S(!new)>(m: Scanner<S>, pieces: seq<string>, c: char)
    requires CutsAreFresh(m) && pieces != [] && Split(m, Join(pieces)) == pieces
    ensures !m.cuts(After(m, Last(pieces)), c) ==>
      Split(m, Join(Grown(pieces, c))) == Grown(pieces, c)
    ensures EndsAtTop(m, Last(pieces)) ==> Split(m, Join(pieces + [""])) == pieces + [""]
  {
    hide Split, After, Join, Grown;
    SplitIsAList(m, Join(pieces));
    JoinGrows(pieces, c);
    CommaGrows(pieces);
    SplitGrows(m, Join(pieces), c);
    SplitGrows(m, Join(pieces), ',');
  }

  lemma {:induction false} ListShrinks<S>(m: Scanner<S>, front: seq<string>, last: string)
    requires IsList(m, front + [last])
    ensures front != [] ==> IsList(m, front) && EndsAtTop(m, Last(front))
    ensures last != "" ==> IsList(m, front + [last[..|last| - 1]]) && !m.cuts(After(m, last[..|last| - 1]), last[|last| - 1])
  {
    hide IsWhole, EndsAtTop, After;
    var pieces := front + [last];
    assert forall i :: 0 <= i < |front| ==> pieces[i] == front[i];
    assert IsWhole(m, pieces[|front|]);
    if last != "" {
      var shorter, c := last[..|last| - 1], last[|last| - 1];
      assert last == shorter + [c];
      WholeGrows(m, shorter, c);
      assert forall i :: 0 <= i < |front| ==> (front + [shorter])[i] == front[i];
    }
  }

  lemma GrownOfSnoc(front: seq<string>, last: string, c: char)
    ensures Grown(front + [last], c) == front + [last + [c]] && Last(front + [last]) == last
  {
  }

  /** Pieces that stay apart are found again. */
  lemma {:induction false} SplitOfJoin<S(!new)>(m: Scanner<S>, front: seq<string>, last: string)
    requires CutsAreFresh(m) && IsList(m, front + [last])
    ensures Split(m, Join(front + [last])) == front + [last]
    decreases |front|, |last|
  {
    ListShrinks(m, front, last);
    if last == "" {
      if front != [] {
        hide Split, After, IsList, Join, EndsAtTop, Grown;
        assert front == front[..|front| - 1] + [Last(front)];
        SplitOfJoin(m, front[..|front| - 1], Last(front));
        SplitOfGrownJoin(m, front, ',');
      }
    } else {
      hide Split, After, IsList, Join, EndsAtTop, Grown;
      var c, shorter := last[|last| - 1], last[..|last| - 1];
      assert last == shorter + [c];
      SplitOfJoin(m, front, shorter);
      GrownOfSnoc(front, shorter, c);
      SplitOfGrownJoin(m, front + [shorter], c);
    }
  }

  /** A text is the join of exactly one list of pieces that stay apart: the one the splitter returns. */
  lemma {:induction false} SplitIsTheOnlyList<S(!new)>(m: Scanner<S>, s: string, pieces: seq<string>)
    requires CutsAreFresh(m)
    ensures pieces == Split(m, s) <==> IsList(m, pieces) && Join(pieces) == s
  {
    SplitIsAList(m, s);
    if IsList(m, pieces) && Join(pieces) == s {
      assert pieces == pieces[..|pieces| - 1] + [Last(pieces)];
      SplitOfJoin(m, pieces[..|pieces| - 1], Last(pieces));
    }
  }
}
