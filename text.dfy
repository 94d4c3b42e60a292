/**
 * String helpers with the meaning JavaScript gives them in agent.js:
 * `String.prototype.trim`, the regex class `\s`, `startsWith`/`endsWith`,
 * ASCII case folding, the default (UTF-16 code-unit) string order of `Array.prototype.sort`,
 * and the decimal rendering of an integer in a template literal.
 */
module Text {
  import opened Wrappers

  /** White space as ECMAScript defines it for `trim` and `\s`: the WhiteSpace
      and LineTerminator productions (TAB, VT, FF, SP, NBSP, ZWNBSP, the Zs
      category, LF, CR, LS, PS). */
  predicate IsSpace(c: char) {
    c == '\t' || c == '\n' || c == '\U{000B}' || c == '\U{000C}' || c == '\r' ||
    c == ' ' || c == '\U{00A0}' || c == '\U{1680}' ||
    ('\U{2000}' <= c <= '\U{200A}') ||
    c == '\U{2028}' || c == '\U{2029}' || c == '\U{202F}' || c == '\U{205F}' ||
    c == '\U{3000}' || c == '\U{FEFF}'
  }

  predicate AllSpace(s: string) {
    forall i :: 0 <= i < |s| ==> IsSpace(s[i])
  }

  /** Neither end of `s` is white space: what `trim` guarantees of its result. */
  predicate IsTrimmed(s: string) {
    s == [] || (!IsSpace(s[0]) && !IsSpace(s[|s| - 1]))
  }

  predicate StartsWith(s: string, prefix: string) {
    |prefix| <= |s| && s[..|prefix|] == prefix
  }

  predicate EndsWith(s: string, suffix: string) {
    |suffix| <= |s| && s[|s| - |suffix|..] == suffix
  }

  /** Index of the first character at or after `i` that is not white space. */
  function SkipSpaces(s: string, i: nat): (j: nat)
    requires i <= |s|
    ensures i <= j <= |s|
    ensures forall k :: i <= k < j ==> IsSpace(s[k])
    ensures j == |s| || !IsSpace(s[j])
    decreases |s| - i
  {
    if i < |s| && IsSpace(s[i]) then SkipSpaces(s, i + 1) else i
  }

  /** End of `s[lo..hi]` once its trailing white space is dropped. */
  function SkipSpacesBack(s: string, lo: nat, hi: nat): (j: nat)
    requires lo <= hi <= |s|
    ensures lo <= j <= hi
    ensures forall k :: j <= k < hi ==> IsSpace(s[k])
    ensures j == lo || !IsSpace(s[j - 1])
    decreases hi
  {
    if hi > lo && IsSpace(s[hi - 1]) then SkipSpacesBack(s, lo, hi - 1) else hi
  }

  /** Trailing white space removed (the regex replace `/\s+$/`). */
  function TrimEnd(s: string): (r: string)
    ensures r == [] || !IsSpace(r[|r| - 1])
  {
    s[..SkipSpacesBack(s, 0, |s|)]
  }

  /** `String.prototype.trim`: the text between the longest all-space prefix
      and the longest all-space suffix. */
  function Trim(s: string): (r: string)
    ensures IsTrimmed(r)
  {
    var a := SkipSpaces(s, 0);
    s[a..SkipSpacesBack(s, a, |s|)]
  }

  /** Text is all white space exactly when it trims to nothing. */
  lemma TrimEmpty(s: string)
    ensures AllSpace(s) <==> Trim(s) == []
  {
    var a := SkipSpaces(s, 0);
    var b := SkipSpacesBack(s, a, |s|);
    assert Trim(s) == s[a..b];
    if AllSpace(s) {
      SkipSpacesOver(s, 0, |s|);
    }
  }

  /** `SkipSpaces` stops at the first non-space character and nowhere else. */
  lemma {:induction false} SkipSpacesOver(s: string, i: nat, j: nat)
    requires i <= j <= |s|
    requires forall k :: i <= k < j ==> IsSpace(s[k])
    requires j == |s| || !IsSpace(s[j])
    ensures SkipSpaces(s, i) == j
    decreases j - i
  {
    if i < j {
      assert IsSpace(s[i]);
      SkipSpacesOver(s, i + 1, j);
    }
  }

  /** `SkipSpacesBack` stops after the last non-space character and nowhere else. */
  lemma {:induction false} SkipSpacesBackOver(s: string, lo: nat, j: nat, hi: nat)
    requires lo <= j <= hi <= |s|
    requires forall k :: j <= k < hi ==> IsSpace(s[k])
    requires j == lo || !IsSpace(s[j - 1])
    ensures SkipSpacesBack(s, lo, hi) == j
    decreases hi - j
  {
    if j < hi {
      assert IsSpace(s[hi - 1]);
      SkipSpacesBackOver(s, lo, j, hi - 1);
    }
  }

  /** Trimming removes exactly the surrounding white space: text padded with
      white space on both sides trims back to itself. */
  lemma TrimOfPadded(pre: string, m: string, post: string)
    requires AllSpace(pre) && AllSpace(post) && IsTrimmed(m)
    ensures Trim(pre + m + post) == m
  {
    var s := pre + m + post;
    if m == [] {
      SkipSpacesOver(s, 0, |s|);
    } else {
      SkipSpacesOver(s, 0, |pre|);
      SkipSpacesBackOver(s, |pre|, |pre| + |m|, |s|);
      assert s[|pre|..|pre| + |m|] == m;
    }
  }

  /** `trim` is idempotent: trimmed text is left as it is. */
  lemma TrimOfTrimmed(s: string)
    requires IsTrimmed(s)
    ensures Trim(s) == s
  {
    assert [] + s + [] == s;
    TrimOfPadded([], s, []);
  }

  /** Dropping trailing white space is the identity on text that is already trimmed. */
  lemma TrimEndOfTrimmed(s: string)
    requires IsTrimmed(s)
    ensures TrimEnd(s) == s
  {
    SkipSpacesBackOver(s, 0, |s|, |s|);
  }

  predicate IsAsciiLetter(c: char) {
    ('a' <= c <= 'z') || ('A' <= c <= 'Z')
  }

  /** ASCII case folding; on an archive suffix it agrees with JavaScript's
      `toLowerCase` and with the `/i` regex flag. */
  function LowerChar(c: char): (r: char)
    ensures 'A' <= c <= 'Z' ==> r != c && 'a' <= r <= 'z'
    ensures !('A' <= c <= 'Z') ==> r == c
  {
    if 'A' <= c <= 'Z' then "abcdefghijklmnopqrstuvwxyz"[c as int - 'A' as int] else c
  }

  function Lower(s: string): (r: string)
    ensures |r| == |s|
    ensures forall i :: 0 <= i < |s| ==> r[i] == LowerChar(s[i])
  {
    if s == [] then [] else [LowerChar(s[0])] + Lower(s[1..])
  }

  /** The UTF-16 code units of one character: the character itself below
      U+10000, otherwise a high surrogate (D800-DBFF) and a low surrogate
      (DC00-DFFF). */
  function CodeUnits(c: char): seq<int> {
    var v := c as int;
    if v < 0x10000 then [v]
    else [0xD800 + (v - 0x10000) / 0x400, 0xDC00 + (v - 0x10000) % 0x400]
  }

  /** One unit that is not a high surrogate, or a surrogate pair. */
  lemma CodeUnitsShape(c: char)
    ensures var units := CodeUnits(c);
            (|units| == 1 <==> c as int < 0x10000) && (|units| == 1 || |units| == 2) &&
            (|units| == 1 ==> units[0] == c as int && !(0xD800 <= units[0] < 0xDC00)) &&
            (|units| == 2 ==> 0xD800 <= units[0] < 0xDC00 && 0xDC00 <= units[1] < 0xE000)
  {
  }

  /** The string as JavaScript stores it: a sequence of UTF-16 code units. */
  function Utf16(s: string): seq<int> {
    if s == [] then [] else CodeUnits(s[0]) + Utf16(s[1..])
  }

  /** Element-wise order on code-unit sequences, a proper prefix first. */
  predicate LexLe(a: seq<int>, b: seq<int>) {
    a == [] || (b != [] && (a[0] < b[0] || (a[0] == b[0] && LexLe(a[1..], b[1..]))))
  }

  /** The default order of `Array.prototype.sort` on strings: their UTF-16
      code units, compared element-wise. */
  predicate Utf16Le(a: string, b: string) {
    LexLe(Utf16(a), Utf16(b))
  }

  lemma {:induction false} LexLeReflexive(a: seq<int>)
    ensures LexLe(a, a)
  {
    if a != [] { LexLeReflexive(a[1..]); }
  }

  lemma {:induction false} LexLeTotal(a: seq<int>, b: seq<int>)
    ensures LexLe(a, b) || LexLe(b, a)
  {
    if a != [] && b != [] && a[0] == b[0] { LexLeTotal(a[1..], b[1..]); }
  }

  lemma {:induction false} LexLeTransitive(a: seq<int>, b: seq<int>, c: seq<int>)
    requires LexLe(a, b) && LexLe(b, c)
    ensures LexLe(a, c)
  {
    if a != [] && b != [] && c != [] && a[0] == b[0] && b[0] == c[0] {
      LexLeTransitive(a[1..], b[1..], c[1..]);
    }
  }

  lemma {:induction false} LexLeAntisymmetric(a: seq<int>, b: seq<int>)
    requires LexLe(a, b) && LexLe(b, a)
    ensures a == b
  {
    if a != [] && b != [] {
      LexLeAntisymmetric(a[1..], b[1..]);
      assert a == [a[0]] + a[1..] && b == [b[0]] + b[1..];
    }
  }

  /** Two characters with the same code units are the same character. */
  lemma CodeUnitsInjective(c: char, d: char)
    requires CodeUnits(c) == CodeUnits(d)
    ensures c == d
  {
    var v, w := c as int, d as int;
    if v >= 0x10000 {
      assert (v - 0x10000) / 0x400 == (w - 0x10000) / 0x400;
      assert (v - 0x10000) % 0x400 == (w - 0x10000) % 0x400;
    }
    assert v == w;
  }

  /** UTF-16 is a prefix code: no character's units begin another's. */
  lemma {:induction false} Utf16Injective(a: string, b: string)
    requires Utf16(a) == Utf16(b)
    ensures a == b
  {
    if a != [] && b != [] {
      var ua, ub := CodeUnits(a[0]), CodeUnits(b[0]);
      CodeUnitsShape(a[0]);
      CodeUnitsShape(b[0]);
      assert Utf16(a) == ua + Utf16(a[1..]) && Utf16(b) == ub + Utf16(b[1..]);
      assert ua[0] == Utf16(a)[0] == Utf16(b)[0] == ub[0];
      if |ua| == 2 {
        assert ua[1] == Utf16(a)[1] == Utf16(b)[1] == ub[1];
        assert ua == ub;
      } else {
        assert ua == ub;
      }
      CodeUnitsInjective(a[0], b[0]);
      assert Utf16(a[1..]) == Utf16(a)[|ua|..] == Utf16(b)[|ub|..] == Utf16(b[1..]);
      Utf16Injective(a[1..], b[1..]);
      assert a == [a[0]] + a[1..] && b == [b[0]] + b[1..];
    }
  }

  lemma Utf16LeReflexive(a: string)
    ensures Utf16Le(a, a)
  {
    LexLeReflexive(Utf16(a));
  }

  lemma Utf16LeTotal(a: string, b: string)
    ensures Utf16Le(a, b) || Utf16Le(b, a)
  {
    LexLeTotal(Utf16(a), Utf16(b));
  }

  lemma Utf16LeTransitive(a: string, b: string, c: string)
    requires Utf16Le(a, b) && Utf16Le(b, c)
    ensures Utf16Le(a, c)
  {
    LexLeTransitive(Utf16(a), Utf16(b), Utf16(c));
  }

  lemma Utf16LeAntisymmetric(a: string, b: string)
    requires Utf16Le(a, b) && Utf16Le(b, a)
    ensures a == b
  {
    LexLeAntisymmetric(Utf16(a), Utf16(b));
    Utf16Injective(a, b);
  }

  /** Code-unit order is not code-point order: a character above U+FFFF
      starts with a surrogate, which sorts before U+E000-U+FFFF. */
  lemma SurrogateSortsFirst()
    ensures Utf16Le("\U{1F4E6}.zip", "\U{FF08}.zip")
    ensures !Utf16Le("\U{FF08}.zip", "\U{1F4E6}.zip")
  {
    var box, paren := "\U{1F4E6}.zip", "\U{FF08}.zip";
    assert CodeUnits(box[0])[0] == 0xD83D;
    assert Utf16(box) == CodeUnits(box[0]) + Utf16(box[1..]);
    assert Utf16(paren) == CodeUnits(paren[0]) + Utf16(paren[1..]);
    assert Utf16(box)[0] == 0xD83D;
    assert Utf16(paren)[0] == 0xFF08;
  }

  predicate IsDigit(c: char) {
    '0' <= c <= '9'
  }

  predicate AllDigits(s: string) {
    forall i :: 0 <= i < |s| ==> IsDigit(s[i])
  }

  function DigitChar(d: nat): (c: char)
    requires d < 10
    ensures IsDigit(c) && c as int - '0' as int == d
  {
    "0123456789"[d]
  }

  /** Decimal digits of a natural number, most significant first, no leading zero. */
  function NatToString(n: nat): (s: string)
    ensures |s| > 0 && AllDigits(s)
    ensures |s| > 1 ==> s[0] != '0'
  {
    if n < 10 then [DigitChar(n)] else NatToString(n / 10) + [DigitChar(n % 10)]
  }

  /** How a template literal renders an integer. */
  function IntToString(n: int): string {
    Sign(n) + NatToString(Abs(n))
  }

  function Sign(n: int): string {
    if n < 0 then "-" else ""
  }

  function Abs(n: int): nat {
    if n < 0 then -n else n
  }

  /** The rendering is a single non-empty line. */
  lemma IntToStringOneLine(n: int)
    ensures |IntToString(n)| > 0 && '\n' !in IntToString(n)
  {
    var digits := NatToString(Abs(n));
    assert '\n' !in digits by {
      forall i | 0 <= i < |digits| ensures digits[i] != '\n' {
        assert IsDigit(digits[i]);
      }
    }
  }

  /** Value of a string of decimal digits. */
  function DigitsValue(s: string): nat
    requires AllDigits(s)
  {
    if s == [] then 0
    else
      var last := s[|s| - 1];
      assert IsDigit(last);
      10 * DigitsValue(s[..|s| - 1]) + (last as int - '0' as int)
  }

  /** Reads back an optionally signed decimal integer; None for anything else. */
  function ParseInt(s: string): Option<int> {
    if |s| > 1 && s[0] == '-' && AllDigits(s[1..]) then
      var v: int := 0 - DigitsValue(s[1..]) as int;
      Some(v)
    else if |s| > 0 && AllDigits(s) then
      Some(DigitsValue(s))
    else
      None
  }

  lemma {:induction false} DigitsValueOfNat(n: nat)
    ensures DigitsValue(NatToString(n)) == n
  {
    if n >= 10 {
      var s := NatToString(n);
      assert s[..|s| - 1] == NatToString(n / 10);
      DigitsValueOfNat(n / 10);
    }
  }

  /** Rendering an integer and reading it back gives the integer. */
  lemma IntToStringRoundTrip(n: int)
    ensures ParseInt(IntToString(n)) == Some(n)
  {
    DigitsValueOfNat(Abs(n));
    ParseSigned(Sign(n), NatToString(Abs(n)));
  }

  /** An optional minus sign and a digit string read back as the signed value. */
  lemma ParseSigned(sign: string, digits: string)
    requires sign == "" || sign == "-"
    requires |digits| > 0 && AllDigits(digits)
    ensures ParseInt(sign + digits) == Some(if sign == "" then DigitsValue(digits) else 0 - DigitsValue(digits))
  {
    if sign == "" {
      assert sign + digits == digits;
    } else {
      assert (sign + digits)[1..] == digits;
    }
  }
}
