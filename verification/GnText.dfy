/** Characters, white space, decimal numerals and string escapes of GN text. */
module GnText {
  import opened Wrappers

  // ----- characters -----

  predicate IsWs(c: char) {
    c == ' ' || c == '\t' || c == '\n'
  }

  predicate IsDigit(c: char) {
    '0' <= c <= '9'
  }

  predicate IsDigitOrMinus(c: char) {
    c == '-' || IsDigit(c)
  }

  predicate IsAlpha(c: char) {
    'a' <= c <= 'z' || 'A' <= c <= 'Z'
  }

  predicate IsIdentStart(c: char) {
    IsAlpha(c) || c == '_'
  }

  predicate IsIdentPart(c: char) {
    IsAlpha(c) || IsDigit(c) || c == '_'
  }

  predicate AllWs(s: string) {
    forall i :: 0 <= i < |s| ==> IsWs(s[i])
  }

  predicate AllDigits(s: string) {
    forall i :: 0 <= i < |s| ==> IsDigit(s[i])
  }

  predicate AllIdentPart(s: string) {
    forall i :: 0 <= i < |s| ==> IsIdentPart(s[i])
  }

  predicate IsIdent(s: string) {
    s != "" && IsIdentStart(s[0]) && AllIdentPart(s[1..])
  }

  /** `s` does not begin with white space. */
  predicate Unspaced(s: string) {
    s == "" || !IsWs(s[0])
  }

  /** `s` does not begin with a digit. */
  predicate Undigited(s: string) {
    s == "" || !IsDigit(s[0])
  }

  /** The classes in characters: digits, white space and escapable characters one by one, letters by
      their ranges. */
  lemma CharacterClasses(c: char)
    ensures IsWs(c) <==> c in " \t\n"
    ensures IsDigit(c) <==> c in "0123456789"
    ensures IsDigitOrMinus(c) <==> c in "-0123456789"
    ensures IsIdentStart(c) <==> c == '_' || 'a' <= c <= 'z' || 'A' <= c <= 'Z'
    ensures IsIdentPart(c) <==> c == '_' || 'a' <= c <= 'z' || 'A' <= c <= 'Z' || c in "0123456789"
    ensures IsEscapable(c) <==> c in "$\"\\"
  {
  }

  // ----- leading runs of one class of characters -----

  /** How many leading characters of `s` satisfy `p`. */
  function RunLength(p: char -> bool, s: string): (n: nat)
    ensures n <= |s|
    ensures forall i :: 0 <= i < n ==> p(s[i])
    ensures n < |s| ==> !p(s[n])
  {
    if s == "" || !p(s[0]) then 0 else 1 + RunLength(p, s[1..])
  }

  lemma {:induction false} RunLengthIs(p: char -> bool, run: string, s: string)
    requires forall i :: 0 <= i < |run| ==> p(run[i])
    requires s == "" || !p(s[0])
    ensures RunLength(p, run + s) == |run|
  {
    if run == "" {
      assert run + s == s;
    } else {
      assert (run + s)[1..] == run[1..] + s;
      RunLengthIs(p, run[1..], s);
    }
  }

  /** The text without its leading white space. */
  function SkipWs(s: string): (r: string)
    ensures |r| <= |s| && Unspaced(r)
  {
    if s == "" || !IsWs(s[0]) then s else SkipWs(s[1..])
  }

  lemma {:induction false} LeadingWs(s: string) returns (ws: string)
    ensures AllWs(ws) && s == ws + SkipWs(s)
  {
    if Unspaced(s) {
      ws := "";
    } else {
      var rest := LeadingWs(s[1..]);
      ws := [s[0]] + rest;
    }
  }

  lemma {:induction false} SpaceOnly(s: string)
    ensures SkipWs(s) == "" <==> AllWs(s)
  {
    var ws := LeadingWs(s);
    if SkipWs(s) == "" {
      assert s == ws;
    } else {
      assert s[|ws|] == SkipWs(s)[0];
    }
  }

  lemma {:induction false} SkipWsDrops(ws: string, s: string)
    requires AllWs(ws)
    ensures SkipWs(ws + s) == SkipWs(s)
  {
    if ws == "" {
      assert ws + s == s;
    } else {
      assert (ws + s)[1..] == ws[1..] + s;
      SkipWsDrops(ws[1..], s);
    }
  }

  // ----- decimal numerals -----

  function DigitChar(d: nat): (c: char)
    requires d < 10
    ensures IsDigit(c) && DigitValue(c) == d
  {
    '0' + d as char
  }

  function DigitValue(c: char): (d: nat)
    requires IsDigit(c)
    ensures d < 10
  {
    (c - '0') as nat
  }

  function NatText(n: nat): (s: string)
    ensures s != "" && AllDigits(s)
  {
    if n < 10 then [DigitChar(n)] else NatText(n / 10) + [DigitChar(n % 10)]
  }

  function NatValue(s: string): nat
    requires AllDigits(s)
  {
    if s == "" then 0 else 10 * NatValue(s[..|s| - 1]) + DigitValue(s[|s| - 1])
  }

  lemma {:induction false} NatValueOfText(n: nat)
    ensures NatValue(NatText(n)) == n
  {
    if n >= 10 {
      NatValueOfText(n / 10);
      assert NatText(n)[..|NatText(n)| - 1] == NatText(n / 10);
    }
  }

  /** Decimal numerals: the digits 0 to 9 stand for themselves, and the last digit counts units, what
      is in front of it tens. */
  lemma DecimalText(n: nat)
    ensures n < 10 ==> NatText(n) == ["0123456789"[n]]
    ensures n >= 10 ==> NatText(n) == NatText(n / 10) + NatText(n % 10)
  {
  }

  /** Python's `str` of an integer. */
  function IntText(n: int): string {
    if n < 0 then "-" + NatText(-n) else NatText(n)
  }

  // ----- string escapes -----

  predicate IsEscapable(c: char) {
    c == '$' || c == '"' || c == '\\'
  }

  /** Python's `s.replace(c, t)` for a one-character pattern. */
  function Replace(s: string, c: char, t: string): string {
    if s == "" then "" else (if s[0] == c then t else [s[0]]) + Replace(s[1..], c, t)
  }

  lemma {:induction false} ReplaceAppend(a: string, b: string, c: char, t: string)
    ensures Replace(a + b, c, t) == Replace(a, c, t) + Replace(b, c, t)
  {
    if a == "" {
      assert a + b == b;
    } else {
      assert (a + b)[1..] == a[1..] + b;
      ReplaceAppend(a[1..], b, c, t);
    }
  }

  /** The printer's three replacements, one after the other. */
  function Escape(s: string): string {
    Replace(Replace(Replace(s, '\\', "\\\\"), '"', "\\\""), '$', "\\$")
  }

  function EscapeChar(c: char): string {
    if IsEscapable(c) then ['\\', c] else [c]
  }

  /** The reference escape: a backslash in front of each escapable character. */
  function EscapeEach(s: string): string {
    if s == "" then "" else EscapeChar(s[0]) + EscapeEach(s[1..])
  }

  lemma {:induction false} EscapeIsPerCharacter(s: string)
    ensures Escape(s) == EscapeEach(s)
  {
    if s != "" {
      var c, rest := s[0], s[1..];
      EscapeIsPerCharacter(rest);
      assert s == [c] + rest;
      ReplaceAppend([c], rest, '\\', "\\\\");
      var one := Replace([c], '\\', "\\\\");
      ReplaceAppend(one, Replace(rest, '\\', "\\\\"), '"', "\\\"");
      var two := Replace(one, '"', "\\\"");
      ReplaceAppend(two, Replace(Replace(rest, '\\', "\\\\"), '"', "\\\""), '$', "\\$");
      EscapeOneCharacter(c);
    }
  }

  lemma ReplaceOne(a: char, c: char, t: string)
    ensures Replace([a], c, t) == if a == c then t else [a]
  {
    assert Replace([a][1..], c, t) == "";
  }

  lemma EscapeOneCharacter(c: char)
    ensures Escape([c]) == EscapeChar(c)
  {
    ReplaceOne(c, '\\', "\\\\");
    ReplaceOne(c, '"', "\\\"");
    ReplaceOne(c, '$', "\\$");
    ReplaceOne('\\', '"', "\\\"");
    ReplaceOne('\\', '$', "\\$");
    ReplaceOne('"', '$', "\\$");
    assert "\\\\" == ['\\'] + ['\\'] && "\\\"" == ['\\'] + ['"'];
    ReplaceAppend(['\\'], ['\\'], '"', "\\\"");
    ReplaceAppend(['\\'], ['\\'], '$', "\\$");
    ReplaceAppend(['\\'], ['"'], '$', "\\$");
  }

  /** What the unescaping loop computes. */
  function Unescape(s: string): string {
    if s == "" then ""
    else if s[0] == '\\' then
      if |s| == 1 then ""
      else if IsEscapable(s[1]) then [s[1]] + Unescape(s[2..])
      else "\\" + Unescape(s[1..])
    else [s[0]] + Unescape(s[1..])
  }

  /** The unescaping loop reaches a backslash with nothing behind it, which it drops. */
  predicate DropsBackslash(s: string) {
    if s == "" then false
    else if s[0] == '\\' then
      |s| == 1 || (if IsEscapable(s[1]) then DropsBackslash(s[2..]) else DropsBackslash(s[1..]))
    else DropsBackslash(s[1..])
  }

  // One step of the unescaping loop at position `i`.

  lemma UnescapeEscaped(value: string, i: nat)
    requires i + 1 < |value| && value[i] == '\\' && IsEscapable(value[i + 1])
    ensures Unescape(value[i..]) == [value[i + 1]] + Unescape(value[i + 2..])
  {
    assert value[i..][2..] == value[i + 2..];
  }

  lemma UnescapeLiteral(value: string, i: nat)
    requires i < |value|
    requires value[i] != '\\' || (i + 1 < |value| && !IsEscapable(value[i + 1]))
    ensures Unescape(value[i..]) == [value[i]] + Unescape(value[i + 1..])
  {
    assert value[i..][1..] == value[i + 1..];
  }

  method UnescapeGNString(value: string) returns (result: string)
    ensures result == Unescape(value)
  {
    result := "";
    var i := 0;
    while i < |value|
      invariant 0 <= i <= |value|
      invariant Unescape(value) == result + Unescape(value[i..])
    {
      if value[i] == '\\' {
        if i < |value| - 1 {
          var nextChar := value[i + 1];
          if IsEscapable(nextChar) {
            UnescapeEscaped(value, i);
            Associative(result, [nextChar], Unescape(value[i + 2..]));
            result := result + [nextChar];
            i := i + 1;
          } else {
            UnescapeLiteral(value, i);
            Associative(result, "\\", Unescape(value[i + 1..]));
            result := result + "\\";
          }
        }
      } else {
        UnescapeLiteral(value, i);
        Associative(result, [value[i]], Unescape(value[i + 1..]));
        result := result + [value[i]];
      }
      i := i + 1;
    }
  }

  lemma {:induction false} UnescapeRecoversEscape(s: string)
    ensures Unescape(Escape(s)) == s
  {
    EscapeIsPerCharacter(s);
    if s != "" {
      EscapeIsPerCharacter(s[1..]);
      UnescapeRecoversEscape(s[1..]);
      var e := EscapeEach(s);
      if IsEscapable(s[0]) {
        assert e[2..] == EscapeEach(s[1..]);
      } else {
        assert e[1..] == EscapeEach(s[1..]);
      }
    }
  }
}
