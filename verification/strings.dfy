/**
 * String helpers with the exact semantics of the Python and JavaScript
 * library calls the system relies on: prefix tests, splitting on one
 * separator, whitespace trimming and number formatting.
 */
module Strings {

  predicate StartsWith(s: string, prefix: string) {
    |prefix| <= |s| && s[..|prefix|] == prefix
  }

  predicate EndsWith(s: string, suffix: string) {
    |suffix| <= |s| && s[|s| - |suffix|..] == suffix
  }

  /** Substring test, as `needle in s` in Python and `s.includes(needle)` in JavaScript. */
  predicate Contains(s: string, needle: string)
    decreases |s|
  {
    StartsWith(s, needle) || (|s| > 0 && Contains(s[1..], needle))
  }

  /** The concatenation of all pieces, in order (Python's `"".join`). */
  function Concat(pieces: seq<string>): string {
    if |pieces| == 0 then "" else pieces[0] + Concat(pieces[1..])
  }

  lemma {:induction false} ConcatAppend(a: seq<string>, b: seq<string>)
    ensures Concat(a + b) == Concat(a) + Concat(b)
    decreases |a|
  {
    if |a| > 0 {
      assert (a + b)[1..] == a[1..] + b;
      ConcatAppend(a[1..], b);
    } else {
      assert a + b == b;
    }
  }

  /** Joins with a separator placed between consecutive pieces only. */
  function JoinWith(pieces: seq<string>, sep: string): string {
    if |pieces| == 0 then ""
    else if |pieces| == 1 then pieces[0]
    else pieces[0] + sep + JoinWith(pieces[1..], sep)
  }

  /**
   * `s.split(sep)` for a one-character separator, in both Python and
   * JavaScript: every occurrence cuts, empty pieces are kept, and the
   * result always has at least one piece.
   */
  function Split(s: string, sep: char): (parts: seq<string>)
    ensures |parts| >= 1
    ensures forall i | 0 <= i < |parts| :: sep !in parts[i]
    decreases |s|
  {
    if |s| == 0 then [""]
    else
      var rest := Split(s[1..], sep);
      if s[0] == sep then [""] + rest
      else [[s[0]] + rest[0]] + rest[1..]
  }

  /** Joining the pieces of a split with the separator gives back the input. */
  lemma {:induction false} SplitJoin(s: string, sep: char)
    ensures JoinWith(Split(s, sep), [sep]) == s
    decreases |s|
  {
    if |s| > 0 {
      var rest := Split(s[1..], sep);
      SplitJoin(s[1..], sep);
      if s[0] == sep {
        assert Split(s, sep) == [""] + rest;
        assert ([""] + rest)[1..] == rest;
        assert s == [sep] + s[1..];
      } else if |rest| == 1 {
        assert s == [s[0]] + s[1..];
      } else {
        var parts := Split(s, sep);
        assert parts[1..] == rest[1..];
        assert JoinWith(rest, [sep]) == rest[0] + [sep] + JoinWith(rest[1..], [sep]);
        assert s == [s[0]] + s[1..];
      }
    }
  }

  /** A piece free of the separator splits to itself. */
  lemma {:induction false} SplitNoSep(s: string, sep: char)
    requires sep !in s
    ensures Split(s, sep) == [s]
    decreases |s|
  {
    if |s| > 0 {
      SplitNoSep(s[1..], sep);
      assert s == [s[0]] + s[1..];
    }
  }

  /** Splitting at the first separator. */
  lemma {:induction false} SplitAtFirst(a: string, b: string, sep: char)
    requires sep !in a
    ensures Split(a + [sep] + b, sep) == [a] + Split(b, sep)
    decreases |a|
  {
    if |a| == 0 {
      assert a + [sep] + b == [sep] + b;
      assert ([sep] + b)[1..] == b;
    } else {
      SplitAtFirst(a[1..], b, sep);
      assert (a + [sep] + b)[1..] == a[1..] + [sep] + b;
      assert a == [a[0]] + a[1..];
    }
  }

  /** Splitting a join of separator-free pieces gives back the pieces. */
  lemma {:induction false} JoinSplit(pieces: seq<string>, sep: char)
    requires |pieces| >= 1
    requires forall i | 0 <= i < |pieces| :: sep !in pieces[i]
    ensures Split(JoinWith(pieces, [sep]), sep) == pieces
    decreases |pieces|
  {
    if |pieces| == 1 {
      SplitNoSep(pieces[0], sep);
    } else {
      JoinSplit(pieces[1..], sep);
      SplitAtFirst(pieces[0], JoinWith(pieces[1..], [sep]), sep);
      assert pieces == [pieces[0]] + pieces[1..];
    }
  }

  /** Drops leading characters that satisfy `space`. */
  function TrimStart(s: string, space: char -> bool): (r: string)
    ensures |r| <= |s| && s[|s| - |r|..] == r
    ensures |r| > 0 ==> !space(r[0])
    ensures forall i | 0 <= i < |s| - |r| :: space(s[i])
    decreases |s|
  {
    if |s| > 0 && space(s[0]) then TrimStart(s[1..], space) else s
  }

  /** Drops trailing characters that satisfy `space`. */
  function TrimEnd(s: string, space: char -> bool): (r: string)
    ensures |r| <= |s| && s[..|r|] == r
    ensures |r| > 0 ==> !space(r[|r| - 1])
    ensures forall i | |r| <= i < |s| :: space(s[i])
    decreases |s|
  {
    if |s| > 0 && space(s[|s| - 1]) then TrimEnd(s[..|s| - 1], space) else s
  }

  /** Python's `str.strip()` and JavaScript's `String.prototype.trim()`. */
  function Trim(s: string, space: char -> bool): string {
    TrimEnd(TrimStart(s, space), space)
  }

  /** Characters Python's `str.strip()` and `str.isspace()` treat as whitespace. */
  predicate IsPySpace(c: char) {
    c == ' ' || ('\t' <= c <= '\r') || ('\U{1C}' <= c <= '\U{1F}') || c == '\U{85}' || c == '\U{A0}'
    || c == '\U{1680}' || ('\U{2000}' <= c <= '\U{200A}') || c == '\U{2028}' || c == '\U{2029}'
    || c == '\U{202F}' || c == '\U{205F}' || c == '\U{3000}'
  }

  /** The WhiteSpace and LineTerminator characters of ECMAScript, which `trim()` removes. */
  predicate IsJsSpace(c: char) {
    c == ' ' || ('\t' <= c <= '\r') || c == '\U{A0}' || c == '\U{1680}'
    || ('\U{2000}' <= c <= '\U{200A}') || c == '\U{2028}' || c == '\U{2029}'
    || c == '\U{202F}' || c == '\U{205F}' || c == '\U{3000}' || c == '\U{FEFF}'
  }

  /** A string with nothing but whitespace: what `not line.strip()` detects in Python. */
  lemma BlankIffTrimEmpty(s: string)
    ensures Trim(s, IsPySpace) == "" <==> forall i | 0 <= i < |s| :: IsPySpace(s[i])
  {
  }

  // ----- Number formatting and parsing -----

  /** The lower-case digit character for a digit value below 16. */
  function DigitChar(d: nat): (c: char)
    requires d < 16
    ensures DigitValue(c) == d
  {
    if d < 10 then ('0' as int + d) as char else ('a' as int + d - 10) as char
  }

  /** Value of a digit character in bases up to 16, either case; -1 for anything else. */
  function DigitValue(c: char): int {
    if '0' <= c <= '9' then c as int - '0' as int
    else if 'a' <= c <= 'f' then c as int - 'a' as int + 10
    else if 'A' <= c <= 'F' then c as int - 'A' as int + 10
    else -1
  }

  predicate IsDigitOf(c: char, base: nat) {
    0 <= DigitValue(c) < base
  }

  predicate AllDigitsOf(s: string, base: nat) {
    forall i | 0 <= i < |s| :: IsDigitOf(s[i], base)
  }

  /** Dividing by a base takes a number of two or more digits to a smaller one and leaves a digit. */
  lemma DivStep(n: nat, base: nat)
    requires 2 <= base && n >= base
    ensures 0 <= n / base < n && 0 <= n % base < base
  {
  }

  /**
   * Lower-case positional notation without leading zeros: Python's
   * `f"{n:x}"` for base 16 and `str(n)` / JavaScript's `${n}` for base 10.
   */
  function NatToString(n: nat, base: nat): (s: string)
    requires 2 <= base <= 16
    ensures |s| >= 1
    ensures AllDigitsOf(s, base)
    decreases n
  {
    if n < base then [DigitChar(n)]
    else
      DivStep(n, base);
      var init, last := NatToString(n / base, base), DigitChar(n % base);
      assert forall i | 0 <= i < |init| + 1 :: (init + [last])[i] == if i < |init| then init[i] else last;
      init + [last]
  }

  /** The value of a digit string, most significant digit first. */
  function ParseNat(s: string, base: nat): nat
    requires AllDigitsOf(s, base)
    decreases |s|
  {
    if |s| == 0 then 0
    else ParseNat(s[..|s| - 1], base) * base + DigitValue(s[|s| - 1])
  }

  lemma DivMod(n: nat, b: nat)
    requires b > 0
    ensures (n / b) * b + n % b == n
  {
  }

  /** A number of two or more digits parses back when its quotient by the base does. */
  lemma ParseFormatStep(n: nat, base: nat)
    requires 2 <= base <= 16 && n >= base
    requires ParseNat(NatToString(n / base, base), base) == n / base
    ensures ParseNat(NatToString(n, base), base) == n
  {
    var s := NatToString(n, base);
    assert s[..|s| - 1] == NatToString(n / base, base);
    assert ParseNat(s, base) == (n / base) * base + n % base;
    DivMod(n, base);
  }

  /** Formatting then parsing a natural number gives it back. */
  lemma {:induction false} ParseFormat(n: nat, base: nat)
    requires 2 <= base <= 16
    ensures ParseNat(NatToString(n, base), base) == n
    decreases n
  {
    if n < base {
      assert [DigitChar(n)][..0] == [];
    } else {
      ParseFormat(n / base, base);
      ParseFormatStep(n, base);
    }
  }

  /** Distinct numbers have distinct notations. */
  lemma FormatInjective(a: nat, b: nat, base: nat)
    requires 2 <= base <= 16
    requires NatToString(a, base) == NatToString(b, base)
    ensures a == b
  {
    ParseFormat(a, base);
    ParseFormat(b, base);
  }

  /** `str(i)` in Python, `${i}` in JavaScript, for an integer. */
  function IntToString(i: int): string {
    if i < 0 then "-" + NatToString(-i, 10) else NatToString(i, 10)
  }

  /** ASCII lower-casing of one character. */
  function LowerChar(c: char): char {
    if 'A' <= c <= 'Z' then (c as int + 32) as char else c
  }

  function Lower(s: string): (r: string)
    ensures |r| == |s|
  {
    seq(|s|, i requires 0 <= i < |s| => LowerChar(s[i]))
  }
}
