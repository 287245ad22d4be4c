/**
 * Translation of a Raspberry Pi GPIO number into the kernel's global pin
 * number, by looking the pin up in the text of the GPIO debug file.
 */
module PinConvert {
  import opened Wrappers
  import opened Strings

  /** A JavaScript number as `parseInt` can return it: an integer or NaN. */
  datatype PinResult = Num(n: int) | NaN

  // ----- parseInt(s, 10) -----

  predicate IsDecDigit(c: char) {
    '0' <= c <= '9'
  }

  /** The longest prefix of decimal digits. */
  function LeadingDigits(s: string): (d: string)
    ensures StartsWith(s, d)
    ensures AllDigitsOf(d, 10)
    ensures |d| < |s| ==> !IsDecDigit(s[|d|])
    decreases |s|
  {
    if |s| > 0 && IsDecDigit(s[0]) then [s[0]] + LeadingDigits(s[1..]) else ""
  }

  /**
   * `parseInt(s, 10)`: leading white space is skipped, one optional sign
   * is read, then the longest run of decimal digits; without any digit
   * the result is NaN, and whatever follows the digits is ignored.
   */
  function ParseInt10(s: string): (r: PinResult)
  {
    var t := TrimStart(s, IsJsSpace);
    var neg := |t| > 0 && t[0] == '-';
    var body := if |t| > 0 && (t[0] == '-' || t[0] == '+') then t[1..] else t;
    var d := LeadingDigits(body);
    if |d| == 0 then NaN
    else
      var v: int := ParseNat(d, 10);
      Num(if neg then -v else v)
  }

  /** A digit string followed by no further digit is read back in full. */
  lemma {:induction false} LeadingDigitsOfNumber(d: string, rest: string)
    requires forall i | 0 <= i < |d| :: IsDecDigit(d[i])
    requires |rest| > 0 ==> !IsDecDigit(rest[0])
    ensures LeadingDigits(d + rest) == d
    decreases |d|
  {
    if |d| == 0 {
      assert d + rest == rest;
    } else {
      var s := d + rest;
      assert s[0] == d[0] && s[1..] == d[1..] + rest;
      LeadingDigitsOfNumber(d[1..], rest);
      assert d == [d[0]] + d[1..];
    }
  }

  /** Decimal digits are exactly the characters `0`..`9`. */
  lemma DecimalDigits(s: string)
    requires AllDigitsOf(s, 10)
    ensures forall i | 0 <= i < |s| :: IsDecDigit(s[i])
  {
    forall i | 0 <= i < |s|
      ensures IsDecDigit(s[i])
    {
      assert 0 <= DigitValue(s[i]) < 10;
    }
  }

  /** The digits of a natural number, then non-digit text, parse back to the number. */
  lemma ParseDigitsOfFormat(m: nat, rest: string)
    requires |rest| > 0 ==> !IsDecDigit(rest[0])
    ensures LeadingDigits(NatToString(m, 10) + rest) == NatToString(m, 10)
    ensures ParseNat(NatToString(m, 10), 10) == m
  {
    DecimalDigits(NatToString(m, 10));
    LeadingDigitsOfNumber(NatToString(m, 10), rest);
    ParseFormat(m, 10);
  }

  /** Text that starts with neither white space nor a sign is parsed from its first character. */
  lemma ParseIntUnsigned(s: string)
    requires |s| > 0 && IsDecDigit(s[0])
    ensures ParseInt10(s) == (var d := LeadingDigits(s); Num(ParseNat(d, 10)))
  {
    assert !IsJsSpace(s[0]);
    assert TrimStart(s, IsJsSpace) == s;
    assert s[0] != '-' && s[0] != '+';
  }

  /** Text that starts with a minus sign and a digit is parsed as a negative number. */
  lemma ParseIntNegative(s: string)
    requires |s| > 1 && s[0] == '-' && IsDecDigit(s[1])
    ensures ParseInt10(s) == (var d := LeadingDigits(s[1..]); Num(-(ParseNat(d, 10) as int)))
  {
    assert !IsJsSpace(s[0]);
    assert TrimStart(s, IsJsSpace) == s;
  }

  /** The digits of m, then non-digit text, parse to m. */
  lemma ParseIntOfNat(m: nat, rest: string)
    requires |rest| > 0 ==> !IsDecDigit(rest[0])
    ensures ParseInt10(NatToString(m, 10) + rest) == Num(m)
  {
    var d := NatToString(m, 10);
    ParseDigitsOfFormat(m, rest);
    DecimalDigits(d);
    ParseIntUnsigned(d + rest);
  }

  /** A minus sign, the digits of m, then non-digit text, parse to -m. */
  lemma ParseIntOfNegated(m: nat, rest: string)
    requires |rest| > 0 ==> !IsDecDigit(rest[0])
    ensures ParseInt10("-" + (NatToString(m, 10) + rest)) == Num(-(m as int))
  {
    var d := NatToString(m, 10);
    ParseDigitsOfFormat(m, rest);
    var s := "-" + (d + rest);
    assert s[1..] == d + rest;
    assert IsDigitOf(d[0], 10);
    assert s[1] == d[0] && IsDecDigit(d[0]);
    ParseIntNegative(s);
    assert LeadingDigits(s[1..]) == d;
  }

  /**
   * `parseInt` reads back what `${n}` printed, whatever non-digit text
   * follows it.
   */
  lemma ParseIntOfFormat(n: int, rest: string)
    requires |rest| > 0 ==> !IsDecDigit(rest[0])
    ensures ParseInt10(IntToString(n) + rest) == Num(n)
  {
    if n < 0 {
      var m: nat := -n;
      var d := NatToString(m, 10);
      assert IntToString(n) == "-" + d;
      assert ("-" + d) + rest == "-" + (d + rest);
      ParseIntOfNegated(m, rest);
    } else {
      assert IntToString(n) == NatToString(n, 10);
      ParseIntOfNat(n, rest);
    }
  }

  /** Without a digit after the optional sign, the result is NaN. */
  lemma ParseIntNaN(s: string)
    requires forall i | 0 <= i < |s| :: !IsDecDigit(s[i])
    ensures ParseInt10(s) == NaN
  {
    var t := TrimStart(s, IsJsSpace);
    assert forall i | 0 <= i < |t| :: t[i] == s[|s| - |t| + i];
    var body := if |t| > 0 && (t[0] == '-' || t[0] == '+') then t[1..] else t;
    assert |body| > 0 ==> body[0] == s[|s| - |body|];
  }

  // ----- The lookup -----

  /** The text searched for in each line: `GPIO<n>` and a space, so `GPIO1` does not match `GPIO12`. */
  function Query(gpioPin: int): string {
    "GPIO" + IntToString(gpioPin) + " "
  }

  /** A pin's notation has only digits and an optional leading minus: never a space or a `G`. */
  lemma IntToStringChars(n: int)
    ensures |IntToString(n)| >= 1
    ensures forall i | 0 <= i < |IntToString(n)| :: IntToString(n)[i] == '-' || IsDecDigit(IntToString(n)[i])
  {
    var d := NatToString(if n < 0 then -n else n, 10);
    assert forall i | 0 <= i < |d| :: IsDecDigit(d[i]) by {
      forall i | 0 <= i < |d| ensures IsDecDigit(d[i]) {
        assert IsDigitOf(d[i], 10);
      }
    }
  }

  /** Distinct pins have distinct notations, sign included. */
  lemma IntToStringInjective(a: int, b: int)
    requires IntToString(a) == IntToString(b)
    ensures a == b
  {
    var da, db := NatToString(if a < 0 then -a else a, 10), NatToString(if b < 0 then -b else b, 10);
    assert IsDigitOf(da[0], 10) && IsDigitOf(db[0], 10);
    assert IntToString(a)[0] == '-' <==> a < 0;
    assert IntToString(b)[0] == '-' <==> b < 0;
    if a < 0 {
      assert da == IntToString(a)[1..] == IntToString(b)[1..] == db;
      FormatInjective(-a, -b, 10);
    } else {
      FormatInjective(a, b, 10);
    }
  }

  /** A needle starting with `G` is found in no suffix of s that holds no `G`. */
  lemma {:induction false} NoMatchWithoutG(s: string, q: string, k: nat)
    requires k <= |s| && |q| > 0 && q[0] == 'G'
    requires forall i | k <= i < |s| :: s[i] != 'G'
    ensures !Contains(s[k..], q)
    decreases |s| - k
  {
    if k < |s| {
      assert s[k..][0] == s[k];
      assert s[k..][1..] == s[k + 1..];
      NoMatchWithoutG(s, q, k + 1);
    }
  }

  /**
   * The pattern of pin n occurs in the text `GPIO<m> ` iff n == m: the
   * trailing space keeps pin 1 from matching the line of pin 12, which the
   * bare `GPIO1` would.
   */
  lemma QueryNeedsSpace(n: int, m: int)
    ensures Contains(Query(m), Query(n)) <==> n == m
    ensures StartsWith(Query(12), "GPIO" + IntToString(1))
  {
    assert NatToString(12, 10) == NatToString(1, 10) + "2";
    var s, q := Query(m), Query(n);
    var dm, dn := IntToString(m), IntToString(n);
    IntToStringChars(m);
    IntToStringChars(n);
    assert s[..|s|] == s;
    assert forall i | 1 <= i < |s| :: s[i] != 'G' by {
      forall i | 1 <= i < |s| ensures s[i] != 'G' {
        if 4 <= i < 4 + |dm| {
          assert s[i] == dm[i - 4];
        }
      }
    }
    NoMatchWithoutG(s, q, 1);
    assert s[1..] == s[0..][1..];
    if StartsWith(s, q) {
      assert |dn| <= |dm|;
      assert q[4 + |dn|] == ' ' && s[4 + |dn|] == ' ';
      assert |dn| == |dm|;
      assert dn == q[4..4 + |dn|] == s[4..4 + |dm|] == dm;
      IntToStringInjective(n, m);
    }
  }

  const PinPrefix := "gpio-"

  /** `Array.prototype.find` with a `startsWith` test: the first part with the prefix. */
  function FirstWithPrefix(parts: seq<string>, prefix: string): (r: Option<string>)
    ensures r.Some? ==> r.value in parts && StartsWith(r.value, prefix)
    ensures r.None? <==> forall i | 0 <= i < |parts| :: !StartsWith(parts[i], prefix)
    decreases |parts|
  {
    if |parts| == 0 then None
    else if StartsWith(parts[0], prefix) then Some(parts[0])
    else FirstWithPrefix(parts[1..], prefix)
  }

  /** No part before the one found carries the prefix. */
  lemma {:induction false} FirstWithPrefixIsFirst(parts: seq<string>, prefix: string)
    requires FirstWithPrefix(parts, prefix).Some?
    ensures exists i | 0 <= i < |parts| ::
      parts[i] == FirstWithPrefix(parts, prefix).value && forall j | 0 <= j < i :: !StartsWith(parts[j], prefix)
    decreases |parts|
  {
    if !StartsWith(parts[0], prefix) {
      FirstWithPrefixIsFirst(parts[1..], prefix);
      var i :| 0 <= i < |parts[1..]| && parts[1..][i] == FirstWithPrefix(parts[1..], prefix).value
        && forall j | 0 <= j < i :: !StartsWith(parts[1..][j], prefix);
      assert parts[i + 1] == FirstWithPrefix(parts, prefix).value;
      assert forall j | 0 <= j < i + 1 :: !StartsWith(parts[j], prefix) by {
        forall j | 0 <= j < i + 1
          ensures !StartsWith(parts[j], prefix)
        {
          if j > 0 {
            assert parts[j] == parts[1..][j - 1];
          }
        }
      }
    } else {
      assert parts[0] == FirstWithPrefix(parts, prefix).value;
    }
  }

  /** `s.replace(pattern, "")`: the first occurrence of a non-empty pattern is removed. */
  function RemoveFirst(s: string, pattern: string): (r: string)
    requires |pattern| > 0
    ensures !Contains(s, pattern) ==> r == s
    decreases |s|
  {
    if StartsWith(s, pattern) then s[|pattern|..]
    else if |s| == 0 then s
    else [s[0]] + RemoveFirst(s[1..], pattern)
  }

  /** The pin a matching line names, if it has a `gpio-` part. */
  function PinOfLine(line: string): (r: Option<PinResult>)
  {
    match FirstWithPrefix(Split(line, ' '), PinPrefix)
    case Some(pin) => Some(ParseInt10(RemoveFirst(pin, PinPrefix)))
    case None => None
  }

  /** A line the loop stops at: it names the pin and has a `gpio-` part. */
  predicate Hit(line: string, gpioPin: int) {
    Contains(line, Query(gpioPin)) && PinOfLine(line).Some?
  }

  /**
   * The loop over the lines: the first line that contains the query and
   * has a `gpio-` part decides the result; lines that contain the query
   * but no such part are passed over.
   */
  function ScanLines(lines: seq<string>, gpioPin: int): Option<PinResult>
    decreases |lines|
  {
    if |lines| == 0 then None
    else if Contains(lines[0], Query(gpioPin)) && PinOfLine(lines[0]).Some? then PinOfLine(lines[0])
    else ScanLines(lines[1..], gpioPin)
  }

  /** The scan finds nothing exactly when no line names the pin with a `gpio-` part. */
  lemma {:induction false} ScanNone(lines: seq<string>, gpioPin: int)
    ensures ScanLines(lines, gpioPin).None? <==> forall i | 0 <= i < |lines| :: !Hit(lines[i], gpioPin)
    decreases |lines|
  {
    if |lines| > 0 {
      ScanNone(lines[1..], gpioPin);
      assert forall i | 1 <= i < |lines| :: lines[i] == lines[1..][i - 1];
    }
  }

  /** A result of the scan is the pin of a line that names the pin. */
  lemma {:induction false} ScanFromHit(lines: seq<string>, gpioPin: int)
    requires ScanLines(lines, gpioPin).Some?
    ensures exists i | 0 <= i < |lines| :: Hit(lines[i], gpioPin) && ScanLines(lines, gpioPin) == PinOfLine(lines[i])
    decreases |lines|
  {
    if !Hit(lines[0], gpioPin) {
      ScanFromHit(lines[1..], gpioPin);
      var i :| 0 <= i < |lines[1..]| && Hit(lines[1..][i], gpioPin) && ScanLines(lines[1..], gpioPin) == PinOfLine(lines[1..][i]);
      assert lines[i + 1] == lines[1..][i];
    } else {
      assert Hit(lines[0], gpioPin) && ScanLines(lines, gpioPin) == PinOfLine(lines[0]);
    }
  }

  /** Lines before the first hit do not influence the result. */
  lemma {:induction false} ScanSkipsMisses(before: seq<string>, after: seq<string>, gpioPin: int)
    requires forall i | 0 <= i < |before| :: !Hit(before[i], gpioPin)
    ensures ScanLines(before + after, gpioPin) == ScanLines(after, gpioPin)
    decreases |before|
  {
    if |before| > 0 {
      assert (before + after)[0] == before[0];
      assert (before + after)[1..] == before[1..] + after;
      ScanSkipsMisses(before[1..], after, gpioPin);
    } else {
      assert before + after == after;
    }
  }

  /**
   * `convertPin`: `content` is the debug file's text, or None when it
   * cannot be read. A failed read, or no line that names the pin with a
   * `gpio-` part, gives back the pin unchanged.
   */
  function ConvertPin(content: Option<string>, gpioPin: int): (r: PinResult)
    ensures content.None? ==> r == Num(gpioPin)
    ensures content.Some? && (forall i | 0 <= i < |Split(content.value, '\n')| :: !Hit(Split(content.value, '\n')[i], gpioPin))
      ==> r == Num(gpioPin)
  {
    match content
    case None => Num(gpioPin)
    case Some(text) =>
      ScanNone(Split(text, '\n'), gpioPin);
      match ScanLines(Split(text, '\n'), gpioPin)
      case Some(pin) => pin
      case None => Num(gpioPin)
  }

  /**
   * The kernel's usual line shape: a line whose first `gpio-` part is
   * `gpio-<n>`, followed by no digit, names pin n.
   */
  lemma PinOfLineFound(line: string, pre: seq<string>, n: int, tail: string, post: seq<string>)
    requires Split(line, ' ') == pre + [PinPrefix + IntToString(n) + tail] + post
    requires forall i | 0 <= i < |pre| :: !StartsWith(pre[i], PinPrefix)
    requires |tail| > 0 ==> !IsDecDigit(tail[0])
    ensures PinOfLine(line) == Some(Num(n))
  {
    var number := IntToString(n) + tail;
    assert PinPrefix + IntToString(n) + tail == PinPrefix + number;
    RemovePrefix(PinPrefix, number);
    PrefixThenFirst(pre, PinPrefix + number, post, PinPrefix);
    ParseIntOfFormat(n, tail);
  }

  /** Removing the first occurrence of a pattern the string starts with drops that prefix. */
  lemma RemovePrefix(pattern: string, rest: string)
    requires |pattern| > 0
    ensures StartsWith(pattern + rest, pattern)
    ensures RemoveFirst(pattern + rest, pattern) == rest
  {
    assert (pattern + rest)[..|pattern|] == pattern;
    assert (pattern + rest)[|pattern|..] == rest;
  }

  /** A line the loop stops at decides the result, whatever follows. */
  lemma ScanHit(line: string, after: seq<string>, gpioPin: int)
    requires Hit(line, gpioPin)
    ensures ScanLines([line] + after, gpioPin) == PinOfLine(line)
  {
    assert ([line] + after)[0] == line;
  }

  /**
   * The first line that names the pin and has a `gpio-` part decides the
   * result, whatever the lines around it hold.
   */
  lemma FirstHitDecides(before: seq<string>, line: string, after: seq<string>, gpioPin: int)
    requires forall i | 0 <= i < |before| :: !Hit(before[i], gpioPin)
    requires Hit(line, gpioPin)
    ensures ScanLines(before + [line] + after, gpioPin) == PinOfLine(line)
  {
    ScanHit(line, after, gpioPin);
    ScanSkipsMisses(before, [line] + after, gpioPin);
    assert before + [line] + after == before + ([line] + after);
  }

  /**
   * End to end: when the first line of the debug text that names the pin
   * carries `gpio-<n>` as its first `gpio-` part, the lookup returns n.
   */
  lemma ConvertPinFindsPin(text: string, before: seq<string>, line: string, after: seq<string>, gpioPin: int,
                           pre: seq<string>, n: int, tail: string, post: seq<string>)
    requires Split(text, '\n') == before + [line] + after
    requires forall i | 0 <= i < |before| :: !Hit(before[i], gpioPin)
    requires Contains(line, Query(gpioPin))
    requires Split(line, ' ') == pre + [PinPrefix + IntToString(n) + tail] + post
    requires forall i | 0 <= i < |pre| :: !StartsWith(pre[i], PinPrefix)
    requires |tail| > 0 ==> !IsDecDigit(tail[0])
    ensures ConvertPin(Some(text), gpioPin) == Num(n)
  {
    PinOfLineFound(line, pre, n, tail, post);
    FirstHitDecides(before, line, after, gpioPin);
  }

  lemma {:induction false} PrefixThenFirst(pre: seq<string>, part: string, post: seq<string>, prefix: string)
    requires forall i | 0 <= i < |pre| :: !StartsWith(pre[i], prefix)
    requires StartsWith(part, prefix)
    ensures FirstWithPrefix(pre + [part] + post, prefix) == Some(part)
    decreases |pre|
  {
    if |pre| > 0 {
      assert (pre + [part] + post)[1..] == pre[1..] + [part] + post;
      PrefixThenFirst(pre[1..], part, post, prefix);
    } else {
      assert pre + [part] + post == [part] + post;
    }
  }

  // ----- The cached read -----

  /**
   * `getData`: the file is read once; the outcome, a failure included,
   * is kept and handed to every later call. `cache` is None before the
   * first read and `disk` is what reading the file would give now.
   */
  function GetData(cache: Option<Option<string>>, disk: Option<string>): (r: (Option<string>, Option<Option<string>>))
    ensures r.1 == Some(r.0)
    ensures cache.Some? ==> r.0 == cache.value
    ensures cache.None? ==> r.0 == disk
  {
    match cache
    case Some(c) => (c, cache)
    case None => (disk, Some(disk))
  }

  /** After the first call, later calls see the first read's outcome whatever the file now holds. */
  lemma GetDataSticks(disk1: Option<string>, disk2: Option<string>)
    ensures var (c1, cache1) := GetData(None, disk1);
      var (c2, cache2) := GetData(cache1, disk2);
      c2 == c1 && cache2 == cache1
  {
  }
}
