/**
 `escapeAndroidResourceValue`, `decodeXml` and `decodeAndroidResourceValue`
 (scripts/android-app-i18n.ts): two chains of replaceAll calls, and exactly when the second chain
 undoes the first.
 */
module AndroidEscape {
  import opened Text

  function EscapeAndroidResourceValue(value: string): string {
    var s1 := ReplaceAll(value, "\\", "\\\\");
    var s2 := ReplaceAll(s1, "\n", "\\n");
    var s3 := ReplaceAll(s2, "'", "\\'");
    var s4 := ReplaceAll(s3, "\"", "\\\"");
    var s5 := ReplaceAll(s4, "&", "&amp;");
    var s6 := ReplaceAll(s5, "<", "&lt;");
    ReplaceAll(s6, ">", "&gt;")
  }

  function DecodeXml(value: string): string {
    var s1 := ReplaceAll(value, "&lt;", "<");
    var s2 := ReplaceAll(s1, "&gt;", ">");
    var s3 := ReplaceAll(s2, "&quot;", "\"");
    var s4 := ReplaceAll(s3, "&amp;", "&");
    var s5 := ReplaceAll(s4, "\\n", "\n");
    var s6 := ReplaceAll(s5, "\\'", "'");
    var s7 := ReplaceAll(s6, "\\\"", "\"");
    ReplaceAll(s7, "\\\\", "\\")
  }

  function DecodeAndroidResourceValue(rawValue: string): string {
    var trimmed := Trim(rawValue);
    // slice(1, -1) of a lone quote is empty
    var unquoted :=
      if |trimmed| >= 1 && trimmed[0] == '"' && trimmed[|trimmed| - 1] == '"'
      then (if |trimmed| == 1 then "" else trimmed[1..|trimmed| - 1])
      else trimmed;
    DecodeXml(unquoted)
  }

  function Quoted(value: string): string { "\"" + value + "\"" }

  // ----- replacing character by character -----

  type Table = map<char, string>

  function Token(t: Table, c: char): string { if c in t then t[c] else [c] }

  function Encode(v: string, t: Table): string {
    if v == "" then "" else Token(t, v[0]) + Encode(v[1..], t)
  }

  lemma {:induction false} EncodeWithNothing(v: string)
    ensures Encode(v, map[]) == v
  {
    if v != "" { EncodeWithNothing(v[1..]); }
  }

  lemma {:induction false} SkipToken(s: string, pattern: string, r: string, rest: string)
    requires pattern != "" && pattern[0] !in s
    ensures ReplaceAll(s + rest, pattern, r) == s + ReplaceAll(rest, pattern, r)
  {
    if s == "" {
      assert s + rest == rest;
    } else {
      assert (s + rest)[1..] == s[1..] + rest && (s + rest)[0] == s[0];
      SkipToken(s[1..], pattern, r, rest);
    }
  }

  /** One replaceAll of a character that no earlier replacement has produced adds it to the table. */
  lemma {:induction false} EscapeStage(v: string, t: Table, p: char, r: string)
    requires p !in t && forall c :: c in t ==> p !in t[c]
    ensures ReplaceAll(Encode(v, t), [p], r) == Encode(v, t[p := r])
  {
    if v != "" {
      var rest := Encode(v[1..], t);
      EscapeStage(v[1..], t, p, r);
      if v[0] == p {
        assert ([p] + rest)[1..] == rest;
      } else {
        SkipToken(Token(t, v[0]), [p], r, rest);
      }
    }
  }

  const BACKSLASHED: Table := map['\\' := "\\\\", '\n' := "\\n", '\'' := "\\'", '"' := "\\\""]
  const ESCAPED: Table := BACKSLASHED['&' := "&amp;"]['<' := "&lt;"]['>' := "&gt;"]

  lemma {:induction false} EscapeIsEncode(v: string)
    ensures EscapeAndroidResourceValue(v) == Encode(v, ESCAPED)
  {
    hide ReplaceAll, Encode;
    EncodeWithNothing(v);
    var t0: Table := map[];
    EscapeStage(v, t0, '\\', "\\\\");
    var t1 := t0['\\' := "\\\\"];
    EscapeStage(v, t1, '\n', "\\n");
    var t2 := t1['\n' := "\\n"];
    EscapeStage(v, t2, '\'', "\\'");
    var t3 := t2['\'' := "\\'"];
    EscapeStage(v, t3, '"', "\\\"");
    assert t3['"' := "\\\""] == BACKSLASHED;
    EscapeStage(v, BACKSLASHED, '&', "&amp;");
    EscapeStage(v, BACKSLASHED['&' := "&amp;"], '<', "&lt;");
    EscapeStage(v, BACKSLASHED['&' := "&amp;"]['<' := "&lt;"], '>', "&gt;");
  }

  /** Nothing in the text is special to the resource file: a backslash stands before what it escapes, an ampersand
      begins an entity, and there is no quote, angle bracket or line feed besides. */
  predicate IsSafe(s: string)
    decreases |s|
  {
    || s == ""
    || (|s| > 1 && s[0] == '\\' && s[1] in "\\n'\"" && IsSafe(s[2..]))
    || ("&amp;" <= s && IsSafe(s[5..])) || ("&lt;" <= s && IsSafe(s[4..])) || ("&gt;" <= s && IsSafe(s[4..]))
    || (s[0] !in "\\'\"&<>\n" && IsSafe(s[1..]))
  }

  lemma {:induction false} TokenIsSafe(c: char, rest: string)
    requires IsSafe(rest)
    ensures IsSafe(Token(ESCAPED, c) + rest)
  {
    var token := Token(ESCAPED, c);
    var s := token + rest;
    assert s[|token|..] == rest && s[..|token|] == token;
  }

  /** Escaping leaves nothing special in a text. */
  lemma {:induction false} EscapedIsSafe(v: string)
    ensures IsSafe(EscapeAndroidResourceValue(v))
  {
    hide EscapeAndroidResourceValue, IsSafe;
    EscapeIsEncode(v);
    EncodedIsSafe(v);
  }

  lemma {:induction false} EncodedIsSafe(v: string)
    ensures IsSafe(Encode(v, ESCAPED))
  {
    if v != "" {
      EncodedIsSafe(v[1..]);
      TokenIsSafe(v[0], Encode(v[1..], ESCAPED));
    }
  }

  // ----- undoing the entities -----

  /** Tokens that `pattern` can meet only whole: its first character starts a token or does not occur. */
  ghost predicate Separable(t: Table, pattern: string) {
    && |pattern| > 1 && pattern[0] in t
    && forall c :: c in t ==>
         && t[c] != ""
         && (forall i :: 1 <= i < |t[c]| ==> t[c][i] != pattern[0])
         && (t[c][0] == pattern[0] && t[c] != pattern ==> |t[c]| > 1 && t[c][1] != pattern[1])
  }

  lemma {:induction false} EntityToken(t: Table, c: char, pattern: string, r: string, rest: string)
    requires Separable(t, pattern)
    ensures var token := Token(t, c);
      ReplaceAll(token + rest, pattern, r) == (if token == pattern then r else token) + ReplaceAll(rest, pattern, r)
  {
    var token := Token(t, c);
    var all := token + rest;
    if token == pattern {
      assert all[|pattern|..] == rest && all[..|pattern|] == pattern;
    } else if token[0] == pattern[0] {
      assert all[1] == token[1];
      assert all[1..] == token[1..] + rest;
      SkipToken(token[1..], pattern, r, rest);
    } else {
      SkipToken(token, pattern, r, rest);
    }
  }

  lemma {:induction false} EntityStage(v: string, t: Table, t': Table, pattern: string, r: string)
    requires Separable(t, pattern)
    requires forall c :: Token(t', c) == if Token(t, c) == pattern then r else Token(t, c)
    ensures ReplaceAll(Encode(v, t), pattern, r) == Encode(v, t')
  {
    if v != "" {
      EntityStage(v[1..], t, t', pattern, r);
      EntityToken(t, v[0], pattern, r, Encode(v[1..], t));
      assert Encode(v, t) == Token(t, v[0]) + Encode(v[1..], t);
      assert Encode(v, t') == Token(t', v[0]) + Encode(v[1..], t');
      hide Separable, Encode, Token, ReplaceAll;
    }
  }

  const WITH_AMP: Table := BACKSLASHED['&' := "&amp;"]
  const WITH_GT: Table := WITH_AMP['>' := "&gt;"]

  lemma {:induction false} LtIsUndone(v: string)
    ensures ReplaceAll(Encode(v, ESCAPED), "&lt;", "<") == Encode(v, WITH_GT)
  {
    hide ReplaceAll, Encode;
    EntityStage(v, ESCAPED, WITH_GT, "&lt;", "<");
  }

  lemma {:induction false} GtIsUndone(v: string)
    ensures ReplaceAll(Encode(v, WITH_GT), "&gt;", ">") == Encode(v, WITH_AMP)
  {
    hide ReplaceAll, Encode;
    EntityStage(v, WITH_GT, WITH_AMP, "&gt;", ">");
  }

  lemma {:induction false} AmpIsUndone(v: string)
    ensures ReplaceAll(Encode(v, WITH_AMP), "&quot;", "\"") == Encode(v, WITH_AMP)
    ensures ReplaceAll(Encode(v, WITH_AMP), "&amp;", "&") == Encode(v, BACKSLASHED)
  {
    hide ReplaceAll, Encode;
    EntityStage(v, WITH_AMP, WITH_AMP, "&quot;", "\"");
    EntityStage(v, WITH_AMP, BACKSLASHED, "&amp;", "&");
  }

  // ----- undoing the backslashes -----

  /** Every n right after a backslash has become a line feed. */
  function Corrupted(v: string): string
    decreases |v|
  {
    if v == "" then ""
    else if v[0] == '\\' && |v| > 1 && v[1] == 'n' then "\\\n" + Corrupted(v[2..])
    else [v[0]] + Corrupted(v[1..])
  }

  /** The text once line feeds are back: backslashes still doubled, except before a lost n. */
  function Halfway(v: string, t: Table): string
    decreases |v|
  {
    if v == "" then ""
    else if v[0] == '\\' && |v| > 1 && v[1] == 'n' then "\\\n" + Halfway(v[2..], t)
    else if v[0] == '\\' then "\\\\" + Halfway(v[1..], t)
    else Token(t, v[0]) + Halfway(v[1..], t)
  }

  const QUOTES: Table := map['\'' := "\\'", '"' := "\\\""]

  /** Replacing a two-character pattern at the head of a text. */
  lemma {:induction false} ReplaceHead(a: char, b: char, r: string, x: char, y: char, rest: string)
    ensures x == a && y == b ==> ReplaceAll([x, y] + rest, [a, b], r) == r + ReplaceAll(rest, [a, b], r)
    ensures x != a || y != b ==> ReplaceAll([x, y] + rest, [a, b], r) == [x] + ReplaceAll([y] + rest, [a, b], r)
  {
    var all := [x, y] + rest;
    assert all[1..] == [y] + rest && all[2..] == rest && all[..2] == [x, y];
  }

  lemma {:induction false} ReplaceOther(a: char, b: char, r: string, x: char, rest: string)
    requires x != a || rest == "" || rest[0] != b
    ensures ReplaceAll([x] + rest, [a, b], r) == [x] + ReplaceAll(rest, [a, b], r)
  {
    var all := [x] + rest;
    assert all[1..] == rest;
    if |all| > 1 { assert all[1] == rest[0]; }
  }

  /** How one character comes through the line-feed stage, when no lost n follows. */
  lemma {:induction false} LineFeedToken(c: char, rest: string)
    requires c == '\\' ==> rest == "" || rest[0] != 'n'
    ensures ReplaceAll(Token(BACKSLASHED, c) + rest, "\\n", "\n") ==
      (if c == '\\' then "\\\\" else Token(QUOTES, c)) + ReplaceAll(rest, "\\n", "\n")
  {
    hide ReplaceAll;
    if c in BACKSLASHED {
      var second := BACKSLASHED[c][1];
      ReplaceHead('\\', 'n', "\n", '\\', second, rest);
      if c != '\n' { ReplaceOther('\\', 'n', "\n", second, rest); }
    } else {
      ReplaceOther('\\', 'n', "\n", c, rest);
    }
  }

  lemma {:induction false} LostLineFeed(rest: string)
    ensures ReplaceAll("\\\\" + (['n'] + rest), "\\n", "\n") == "\\\n" + ReplaceAll(rest, "\\n", "\n")
  {
    hide ReplaceAll;
    ReplaceHead('\\', 'n', "\n", '\\', '\\', ['n'] + rest);
    assert ['\\'] + (['n'] + rest) == ['\\', 'n'] + rest;
    ReplaceHead('\\', 'n', "\n", '\\', 'n', rest);
  }

  lemma {:induction false} LineFeedStage(v: string)
    ensures ReplaceAll(Encode(v, BACKSLASHED), "\\n", "\n") == Halfway(v, QUOTES)
    decreases |v|
  {
    if v != "" {
      hide ReplaceAll;
      if v[0] == '\\' && |v| > 1 && v[1] == 'n' {
        assert v[1..][1..] == v[2..];
        LostLineFeed(Encode(v[2..], BACKSLASHED));
        LineFeedStage(v[2..]);
      } else {
        LineFeedToken(v[0], Encode(v[1..], BACKSLASHED));
        LineFeedStage(v[1..]);
      }
    }
  }

  /** Tables that still hold some quotes; every other character stands for itself. */
  ghost predicate OnlyQuotes(t: Table) {
    t.Keys <= {'\'', '"'} && forall c :: c in t ==> t[c] == ['\\', c]
  }

  lemma HalfwayNeverStartsWith(v: string, t: Table, q: char)
    requires OnlyQuotes(t) && q in t
    ensures Halfway(v, t) == "" || Halfway(v, t)[0] != q
  {
  }

  /** How one character comes through a quote stage. */
  lemma {:induction false} QuoteToken(c: char, rest: string, t: Table, q: char)
    requires OnlyQuotes(t) && q in t && (rest == "" || rest[0] != q)
    ensures ReplaceAll("\\\\" + rest, ['\\', q], [q]) == "\\\\" + ReplaceAll(rest, ['\\', q], [q])
    ensures ReplaceAll("\\\n" + rest, ['\\', q], [q]) == "\\\n" + ReplaceAll(rest, ['\\', q], [q])
    ensures c != '\\' ==>
      ReplaceAll(Token(t, c) + rest, ['\\', q], [q]) == Token(t - {q}, c) + ReplaceAll(rest, ['\\', q], [q])
  {
    hide ReplaceAll;
    ReplaceHead('\\', q, [q], '\\', '\\', rest);
    ReplaceOther('\\', q, [q], '\\', rest);
    ReplaceHead('\\', q, [q], '\\', '\n', rest);
    ReplaceOther('\\', q, [q], '\n', rest);
    if c in t {
      ReplaceHead('\\', q, [q], '\\', c, rest);
      if c != q { ReplaceOther('\\', q, [q], c, rest); }
    } else if c != '\\' {
      ReplaceOther('\\', q, [q], c, rest);
    }
  }

  lemma {:induction false} QuoteStage(v: string, t: Table, q: char)
    requires OnlyQuotes(t) && q in t
    ensures ReplaceAll(Halfway(v, t), ['\\', q], [q]) == Halfway(v, t - {q})
    decreases |v|
  {
    if v != "" {
      hide ReplaceAll;
      var after := if v[0] == '\\' && |v| > 1 && v[1] == 'n' then v[2..] else v[1..];
      HalfwayNeverStartsWith(after, t, q);
      QuoteToken(v[0], Halfway(after, t), t, q);
      QuoteStage(after, t, q);
    }
  }

  lemma {:induction false} BackslashStage(v: string)
    ensures ReplaceAll(Halfway(v, map[]), "\\\\", "\\") == Corrupted(v)
    decreases |v|
  {
    if v != "" {
      hide ReplaceAll;
      var lost := v[0] == '\\' && |v| > 1 && v[1] == 'n';
      var rest := Halfway(if lost then v[2..] else v[1..], map[]);
      if lost {
        ReplaceHead('\\', '\\', "\\", '\\', '\n', rest);
        ReplaceOther('\\', '\\', "\\", '\n', rest);
        BackslashStage(v[2..]);
      } else {
        if v[0] == '\\' {
          ReplaceHead('\\', '\\', "\\", '\\', '\\', rest);
        } else {
          ReplaceOther('\\', '\\', "\\", v[0], rest);
        }
        BackslashStage(v[1..]);
      }
    }
  }

  // ----- what decoding an escaped value gives -----

  lemma {:induction false} DecodeOfEscape(v: string)
    ensures DecodeXml(EscapeAndroidResourceValue(v)) == Corrupted(v)
  {
    hide ReplaceAll, Encode, EscapeAndroidResourceValue, Halfway, Corrupted;
    EscapeIsEncode(v);
    LtIsUndone(v);
    GtIsUndone(v);
    AmpIsUndone(v);
    LineFeedStage(v);
    QuoteStage(v, QUOTES, '\'');
    QuoteStage(v, QUOTES - {'\''}, '"');
    assert QUOTES - {'\''} - {'"'} == map[];
    BackslashStage(v);
  }

  lemma {:induction false} QuotedIsTrimmed(s: string)
    ensures DecodeAndroidResourceValue(Quoted(s)) == DecodeXml(s)
  {
    hide DecodeXml;
    var q := Quoted(s);
    assert !IsSpace('"') && q[0] == '"' && q[|q| - 1] == '"';
    hide IsSpace;
    assert TrimStart(q) == q;
    assert TrimEnd(q) == q;
    assert q[1..|q| - 1] == s;
  }

  /** Position i holds a letter n immediately behind a backslash. */
  ghost predicate IsBackslashN(v: string, i: nat) { 0 < i < |v| && v[i] == 'n' && v[i - 1] == '\\' }

  ghost predicate HasBackslashN(v: string) { exists i: nat :: IsBackslashN(v, i) }

  lemma CorruptedHead(v: string)
    requires v != ""
    ensures var lost := v[0] == '\\' && |v| > 1 && v[1] == 'n';
      Corrupted(v) == if lost then ['\\', '\n'] + Corrupted(v[2..]) else [v[0]] + Corrupted(v[1..])
  {
  }

  lemma {:induction false} BehindTheHead(v: string, n: nat, i: nat)
    requires 1 <= n <= i < |v| && n <= 2 && (n == 2 ==> v[1] == 'n' && v[0] == '\\')
    requires n == 1 && i == 1 ==> !(v[0] == '\\' && v[1] == 'n')
    ensures v[n..][i - n] == v[i]
    ensures IsBackslashN(v[n..], i - n) <==> IsBackslashN(v, i)
  {
    if i > n { assert v[n..][i - n - 1] == v[i - 1]; }
  }

  lemma {:induction false} CorruptedAt(v: string)
    ensures |Corrupted(v)| == |v|
    ensures forall i: nat :: i < |v| ==> Corrupted(v)[i] == if IsBackslashN(v, i) then '\n' else v[i]
    decreases |v|
  {
    if v != "" {
      var n := if v[0] == '\\' && |v| > 1 && v[1] == 'n' then 2 else 1;
      CorruptedHead(v);
      hide Corrupted;
      CorruptedAt(v[n..]);
      forall i: nat | i < |v| ensures Corrupted(v)[i] == if IsBackslashN(v, i) then '\n' else v[i] {
        if n <= i { BehindTheHead(v, n, i); }
      }
    }
  }

  lemma {:induction false} CorruptedIsTheSameIff(v: string)
    ensures Corrupted(v) == v <==> !HasBackslashN(v)
  {
    hide Corrupted;
    CorruptedAt(v);
    if HasBackslashN(v) {
      var i: nat :| IsBackslashN(v, i);
      assert Corrupted(v)[i] == '\n' != v[i];
    } else {
      forall i: nat | i < |v| ensures Corrupted(v)[i] == v[i] { assert !IsBackslashN(v, i); }
    }
  }

  /** Decoding a written value gives it back with every n after a backslash turned into a line feed,
      and therefore unchanged exactly when there is none. */
  lemma {:induction false} RoundTripIffNoBackslashN(v: string)
    ensures DecodeAndroidResourceValue(Quoted(EscapeAndroidResourceValue(v))) == Corrupted(v)
    ensures DecodeAndroidResourceValue(Quoted(EscapeAndroidResourceValue(v))) == v <==> !HasBackslashN(v)
  {
    hide ReplaceAll, DecodeXml, EscapeAndroidResourceValue;
    QuotedIsTrimmed(EscapeAndroidResourceValue(v));
    DecodeOfEscape(v);
    CorruptedIsTheSameIff(v);
  }
}
