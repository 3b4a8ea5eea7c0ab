/** The string operations of JavaScript that the components share. */
module Text {

  /** The characters `\w` matches. */
  predicate IsWordChar(c: char) {
    'a' <= c <= 'z' || 'A' <= c <= 'Z' || '0' <= c <= '9' || c == '_'
  }

  /** The same by code: the ASCII digits, capitals, low line and small letters. */
  lemma WordCharsByCode(c: char)
    ensures IsWordChar(c) <==>
      48 <= c as int <= 57 || 65 <= c as int <= 90 || c as int == 95 || 97 <= c as int <= 122
  {
  }

  /** The end of the run of word characters that starts at i. */
  function WordEnd(s: string, i: nat): (end: nat)
    requires i <= |s|
    ensures i <= end <= |s|
    ensures forall k :: i <= k < end ==> IsWordChar(s[k])
    ensures end < |s| ==> !IsWordChar(s[end])
    decreases |s| - i
  {
    if i < |s| && IsWordChar(s[i]) then WordEnd(s, i + 1) else i
  }

  /** The white space and line terminators that `trim` removes. */
  predicate IsSpace(c: char) {
    || c == ' ' || '\U{0009}' <= c <= '\U{000d}' || c == '\U{00a0}' || c == '\U{1680}'
    || '\U{2000}' <= c <= '\U{200a}' || c == '\U{2028}' || c == '\U{2029}' || c == '\U{202f}'
    || c == '\U{205f}' || c == '\U{3000}' || c == '\U{feff}'
  }

  predicate IsBlank(s: string) { forall i :: 0 <= i < |s| ==> IsSpace(s[i]) }

  function TrimStart(s: string): (r: string)
    ensures |r| <= |s| && r == s[|s| - |r|..]
    ensures r != "" ==> !IsSpace(r[0])
    ensures forall k :: 0 <= k < |s| - |r| ==> IsSpace(s[k])
  {
    if s != "" && IsSpace(s[0]) then TrimStart(s[1..]) else s
  }

  function TrimEnd(s: string): (r: string)
    ensures r <= s
    ensures r != "" ==> !IsSpace(r[|r| - 1])
    ensures forall k :: |r| <= k < |s| ==> IsSpace(s[k])
  {
    if s != "" && IsSpace(s[|s| - 1]) then TrimEnd(s[..|s| - 1]) else s
  }

  function Trim(s: string): string { TrimEnd(TrimStart(s)) }

  lemma {:induction false} TrimStartSkipsSpace(space: string, s: string)
    requires IsBlank(space) && s != "" && !IsSpace(s[0])
    ensures TrimStart(space + s) == s
  {
    hide IsSpace;
    var all := space + s;
    assert !IsSpace(all[|space|]);
    assert forall k :: 0 <= k < |space| ==> all[k] == space[k] && IsSpace(space[k]);
    assert all[|space|..] == s;
  }

  /** ASCII lower-casing; enough to search for an ASCII phrase. */
  function ToLower(s: string): string {
    if s == "" then ""
    else [if 'A' <= s[0] <= 'Z' then (s[0] as int + 32) as char else s[0]] + ToLower(s[1..])
  }

  lemma {:induction false} ToLowerAt(s: string)
    ensures |ToLower(s)| == |s|
    ensures forall i :: 0 <= i < |s| ==>
      ToLower(s)[i] == if 'A' <= s[i] <= 'Z' then (s[i] as int + 32) as char else s[i]
  {
    if s != "" {
      ToLowerAt(s[1..]);
      forall i | 0 <= i < |s|
        ensures ToLower(s)[i] == if 'A' <= s[i] <= 'Z' then (s[i] as int + 32) as char else s[i]
      {
        if i > 0 { assert s[i] == s[1..][i - 1]; }
      }
    }
  }

  predicate Contains(s: string, part: string) {
    part <= s || (s != "" && Contains(s[1..], part))
  }

  /** The part stands somewhere in the text. */
  lemma {:induction false} ContainsIff(s: string, part: string)
    ensures Contains(s, part) <==> exists i :: 0 <= i <= |s| && part <= s[i..]
  {
    assert s[0..] == s;
    if s != "" {
      ContainsIff(s[1..], part);
      if i :| 0 <= i <= |s[1..]| && part <= s[1..][i..] { assert s[i + 1..] == s[1..][i..]; }
      if i :| 1 <= i <= |s| && part <= s[i..] { assert s[i..] == s[1..][i - 1..]; }
    }
  }

  /** `s.replaceAll(pattern, replacement)`: leftmost matches, none overlapping. */
  function ReplaceAll(s: string, pattern: string, replacement: string): string
    requires pattern != ""
    decreases |s|
  {
    if s == "" then ""
    else if pattern <= s then replacement + ReplaceAll(s[|pattern|..], pattern, replacement)
    else [s[0]] + ReplaceAll(s[1..], pattern, replacement)
  }

  /** Code-unit order: the `<` of JavaScript strings. */
  predicate Less(a: string, b: string) {
    if b == "" then false
    else if a == "" then true
    else a[0] < b[0] || (a[0] == b[0] && Less(a[1..], b[1..]))
  }

  /** a is a proper beginning of b, or smaller where they first differ. */
  lemma {:induction false} LessIff(a: string, b: string)
    ensures Less(a, b) <==>
      exists n :: 0 <= n <= |a| && n < |b| && a[..n] == b[..n] && (n == |a| || a[n] < b[n])
    decreases |a|
  {
    if a == "" {
      if b != "" { assert a[..0] == b[..0]; }
    } else if b != "" {
      if a[0] < b[0] { assert a[..0] == b[..0]; }
      if a[0] == b[0] {
        var c, d := a[1..], b[1..];
        LessIff(c, d);
        if n :| 0 <= n <= |c| && n < |d| && c[..n] == d[..n] && (n == |c| || c[n] < d[n]) {
          assert a[..n + 1] == [a[0]] + c[..n] && b[..n + 1] == [b[0]] + d[..n];
        }
      }
      if n :| 0 <= n <= |a| && n < |b| && a[..n] == b[..n] && (n == |a| || a[n] < b[n]) {
        if n > 0 {
          assert a[..n][0] == b[..n][0];
          assert a[1..][..n - 1] == a[..n][1..] && b[1..][..n - 1] == b[..n][1..];
        }
      }
    }
  }

  lemma {:induction false} LessIsTotal(a: string, b: string)
    ensures Less(a, b) || Less(b, a) || a == b
    decreases |a|
  {
    if a != "" && b != "" && a[0] == b[0] {
      LessIsTotal(a[1..], b[1..]);
      assert a == [a[0]] + a[1..] && b == [b[0]] + b[1..];
    }
  }

  lemma {:induction false} LessIsStrict(a: string, b: string)
    ensures !(Less(a, b) && Less(b, a)) && !Less(a, a)
    decreases |a|
  {
    if a != "" && b != "" { LessIsStrict(a[1..], b[1..]); }
    if a != "" { LessIsStrict(a[1..], a[1..]); }
  }

  lemma {:induction false} LessIsTransitive(a: string, b: string, c: string)
    requires Less(a, b) && Less(b, c)
    ensures Less(a, c)
    decreases |a|
  {
    if a != "" && a[0] == b[0] == c[0] { LessIsTransitive(a[1..], b[1..], c[1..]); }
  }
}
