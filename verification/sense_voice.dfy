/**
 * The result parsing of the SenseVoice speech recogniser
 * (`recognizeAudio` in src/cloud-api/m5stack/m5stack-asr.ts): the
 * recogniser prints a Python list of strings, and the last bracketed line
 * of its output is searched for quoted segments, which are joined with
 * spaces. Running the process is outside the model: its captured stdout
 * (or its failure to start) is an input.
 */
module SenseVoice {
  import opened Wrappers
  import opened Strings

  /** The characters `.` in a JavaScript regular expression does not match. */
  predicate IsLineTerminator(c: char) {
    c == '\n' || c == '\r' || c == '\U{2028}' || c == '\U{2029}'
  }

  predicate IsQuote(c: char) {
    c == '\'' || c == '"'
  }

  /** The index of the closing quote `q` in `s`, unless a line terminator or the end comes first. */
  function Close(s: string, q: char): (j: Option<nat>)
    ensures j.Some? ==> j.value < |s| && s[j.value] == q
    ensures j.Some? ==> forall k | 0 <= k < j.value :: s[k] != q && !IsLineTerminator(s[k])
    decreases |s|
  {
    if |s| == 0 || IsLineTerminator(s[0]) then None
    else if s[0] == q then Some(0)
    else match Close(s[1..], q)
      case None => None
      case Some(j) => Some(j + 1)
  }

  /** Without a closing quote, every `q` in `s` comes after a line terminator. */
  lemma {:induction false} CloseNone(s: string, q: char)
    requires !IsLineTerminator(q) && Close(s, q).None?
    ensures forall k | 0 <= k < |s| && s[k] == q :: exists m | 0 <= m < k :: IsLineTerminator(s[m])
    decreases |s|
  {
    if |s| > 0 && !IsLineTerminator(s[0]) {
      CloseNone(s[1..], q);
      forall k | 0 <= k < |s| && s[k] == q
        ensures exists m | 0 <= m < k :: IsLineTerminator(s[m])
      {
        assert s[1..][k - 1] == q;
        var m :| 0 <= m < k - 1 && IsLineTerminator(s[1..][m]);
        assert IsLineTerminator(s[m + 1]);
      }
    } else if |s| > 0 {
      forall k | 0 <= k < |s| && s[k] == q
        ensures exists m | 0 <= m < k :: IsLineTerminator(s[m])
      {
        assert IsLineTerminator(s[0]);
      }
    }
  }

  /**
   * The captured groups 2 of `matchAll(/(['"])(.*?)\1/g)`: from each
   * position, a quote opens a match that ends at the nearest equal quote on
   * the same line; a quote without one is skipped like any other character,
   * and the search resumes after each match.
   */
  function Segments(s: string): (segs: seq<string>)
    ensures forall i | 0 <= i < |segs| :: forall k | 0 <= k < |segs[i]| :: !IsLineTerminator(segs[i][k])
    decreases |s|
  {
    if |s| == 0 then []
    else if IsQuote(s[0]) then
      match Close(s[1..], s[0])
      case Some(j) => [s[1..][..j]] + Segments(s[1..][j + 1..])
      case None => Segments(s[1..])
    else Segments(s[1..])
  }

  /** `if (match[2]) textParts.push(match[2])`: empty segments are dropped. */
  function NonEmpty(segs: seq<string>): (parts: seq<string>)
    ensures |parts| <= |segs|
    ensures forall i | 0 <= i < |parts| :: parts[i] != "" && parts[i] in segs
    ensures (forall i | 0 <= i < |segs| :: segs[i] != "") ==> parts == segs
  {
    if |segs| == 0 then []
    else if segs[0] == "" then NonEmpty(segs[1..])
    else [segs[0]] + NonEmpty(segs[1..])
  }

  predicate Bracketed(line: string) {
    StartsWith(line, "[") && EndsWith(line, "]")
  }

  /** The last line that starts with '[' and ends with ']'. */
  function LastBracketed(lines: seq<string>): (r: Option<string>)
    ensures r.Some? ==> Bracketed(r.value) && r.value in lines
    ensures r.None? <==> forall i | 0 <= i < |lines| :: !Bracketed(lines[i])
    decreases |lines|
  {
    if |lines| == 0 then None
    else if Bracketed(lines[|lines| - 1]) then Some(lines[|lines| - 1])
    else
      var r := LastBracketed(lines[..|lines| - 1]);
      assert forall i | 0 <= i < |lines| - 1 :: lines[..|lines| - 1][i] == lines[i];
      r
  }

  /** The line found is one after which no line is bracketed. */
  lemma {:induction false} LastBracketedIsLast(lines: seq<string>)
    requires LastBracketed(lines).Some?
    ensures exists i | 0 <= i < |lines| ::
      (LastBracketed(lines).value == lines[i] && forall j | i < j < |lines| :: !Bracketed(lines[j]))
    decreases |lines|
  {
    var n := |lines| - 1;
    if !Bracketed(lines[n]) {
      var init := lines[..n];
      LastBracketedIsLast(init);
      var i :| 0 <= i < n && LastBracketed(init).value == init[i]
        && forall j | i < j < n :: !Bracketed(init[j]);
      assert init[i] == lines[i];
      forall j | i < j < |lines|
        ensures !Bracketed(lines[j])
      {
        if j < n {
          assert init[j] == lines[j];
        }
      }
    } else {
      assert LastBracketed(lines).value == lines[n];
    }
  }

  /** Each line of the output with the surrounding whitespace removed. */
  function TrimLines(lines: seq<string>): (t: seq<string>)
    ensures |t| == |lines| && forall i | 0 <= i < |t| :: t[i] == Trim(lines[i], IsJsSpace)
  {
    seq(|lines|, i requires 0 <= i < |lines| => Trim(lines[i], IsJsSpace))
  }

  /** The `close` handler's parsing of the recogniser's stdout. */
  function ParseOutput(stdout: string): string {
    var lines := TrimLines(Split(Trim(stdout, IsJsSpace), '\n'));
    match LastBracketed(lines)
    case None => ""
    case Some(line) =>
      var parts := NonEmpty(Segments(line));
      if |parts| == 0 then "" else JoinWith(parts, " ")
  }

  /**
   * `recognizeAudio`: "" when SenseVoice is not installed, the audio file
   * is missing or the process cannot start (`run` is `None`); otherwise the
   * parsed stdout, whatever the exit code.
   */
  function RecognizeAudio(installed: bool, audioExists: bool, run: Option<string>): (text: string)
    ensures !installed || !audioExists || run.None? ==> text == ""
    ensures installed && audioExists && run.Some? ==> text == ParseOutput(run.value)
  {
    if !installed || !audioExists then ""
    else match run
      case None => ""
      case Some(out) => ParseOutput(out)
  }

  // ----- Round trip with Python's list display -----

  /** A string Python shows between single quotes unchanged, and the pattern captures whole. */
  predicate PlainItem(s: string) {
    s != "" && forall k | 0 <= k < |s| :: !IsQuote(s[k]) && !IsLineTerminator(s[k]) && s[k] != '\\'
  }

  function Quoted(items: seq<string>): (q: seq<string>)
    ensures |q| == |items|
    ensures forall i | 0 <= i < |q| :: q[i] == "'" + items[i] + "'"
  {
    seq(|items|, i requires 0 <= i < |items| => "'" + items[i] + "'")
  }

  /** `print(['a', 'b'])` in Python: the items' reprs, separated by ", ", in brackets. */
  function PyList(items: seq<string>): string {
    "[" + JoinWith(Quoted(items), ", ") + "]"
  }

  /** A quoted plain item closes at its own end. */
  lemma {:induction false} CloseAfterItem(item: string, rest: string)
    requires forall k | 0 <= k < |item| :: !IsQuote(item[k]) && !IsLineTerminator(item[k])
    ensures Close(item + "'" + rest, '\'') == Some(|item|)
    decreases |item|
  {
    if |item| == 0 {
      assert (item + "'" + rest)[0] == '\'';
    } else {
      CloseAfterItem(item[1..], rest);
      assert (item + "'" + rest)[1..] == item[1..] + "'" + rest;
    }
  }

  /** Text without quotes opens no segment. */
  lemma {:induction false} SegmentsSkipPlain(a: string, b: string)
    requires forall k | 0 <= k < |a| :: !IsQuote(a[k])
    ensures Segments(a + b) == Segments(b)
    decreases |a|
  {
    if |a| > 0 {
      SegmentsSkipPlain(a[1..], b);
      assert (a + b)[1..] == a[1..] + b;
    } else {
      assert a + b == b;
    }
  }

  lemma SegmentsOfQuoted(item: string, rest: string)
    requires PlainItem(item)
    ensures Segments("'" + item + "'" + rest) == [item] + Segments(rest)
  {
    var s := "'" + item + "'" + rest;
    assert s[1..] == item + "'" + rest;
    CloseAfterItem(item, rest);
    assert s[1..][..|item|] == item;
    assert s[1..][|item| + 1..] == rest;
  }

  lemma {:induction false} SegmentsOfJoin(items: seq<string>)
    requires |items| > 0 && forall i | 0 <= i < |items| :: PlainItem(items[i])
    ensures Segments(JoinWith(Quoted(items), ", ") + "]") == items
    decreases |items|
  {
    var q := Quoted(items);
    if |items| == 1 {
      assert JoinWith(q, ", ") + "]" == "'" + items[0] + "'" + "]";
      SegmentsOfQuoted(items[0], "]");
      assert Segments("]") == [] by {
        assert "]"[1..] == [];
      }
    } else {
      var tail := JoinWith(q[1..], ", ") + "]";
      assert q[1..] == Quoted(items[1..]);
      SegmentsOfJoin(items[1..]);
      assert Segments(", " + tail) == Segments(tail) by {
        SegmentsSkipPlain(", ", tail);
      }
      assert JoinWith(q, ", ") + "]" == "'" + items[0] + "'" + (", " + tail);
      SegmentsOfQuoted(items[0], ", " + tail);
      assert items == [items[0]] + items[1..];
    }
  }

  /** A line that starts with '[' and ends with ']' is its own trimmed form. */
  lemma TrimBracketed(line: string)
    requires Bracketed(line)
    ensures Trim(line, IsJsSpace) == line
  {
    assert line[0] == '[' && line[|line| - 1] == ']';
    assert TrimStart(line, IsJsSpace) == line;
  }

  /** A printed list is one bracketed line. */
  lemma PyListIsOneLine(items: seq<string>)
    requires forall i | 0 <= i < |items| :: PlainItem(items[i])
    ensures var line := PyList(items);
      |line| >= 2 && line[0] == '[' && line[|line| - 1] == ']' && Bracketed(line)
      && Split(Trim(line, IsJsSpace), '\n') == [line]
  {
    var line := PyList(items);
    TrimBracketed(line);
    assert '\n' !in line by {
      if |items| > 0 {
        JoinNoChar(Quoted(items), ", ", '\n');
      }
    }
    SplitNoSep(line, '\n');
  }

  /** The segments of a printed list are its items. */
  lemma SegmentsOfPyList(items: seq<string>)
    requires forall i | 0 <= i < |items| :: PlainItem(items[i])
    ensures Segments(PyList(items)) == items
  {
    var line := PyList(items);
    if |items| == 0 {
      assert line == "[]";
      SegmentsSkipPlain(line, "");
      assert line + "" == line;
    } else {
      SegmentsOfJoin(items);
      SegmentsSkipPlain("[", JoinWith(Quoted(items), ", ") + "]");
      assert line == "[" + (JoinWith(Quoted(items), ", ") + "]");
    }
  }

  /**
   * Printing a non-empty list of plain strings and parsing the output
   * gives the strings joined by single spaces; an empty list gives "".
   */
  lemma PyListRoundTrip(items: seq<string>)
    requires forall i | 0 <= i < |items| :: PlainItem(items[i])
    ensures ParseOutput(PyList(items)) == if |items| == 0 then "" else JoinWith(items, " ")
  {
    var line := PyList(items);
    PyListIsOneLine(items);
    OneBracketedLine(line);
    SegmentsOfPyList(items);
    assert forall i | 0 <= i < |items| :: items[i] != "";
  }

  /** The output of a single bracketed line is parsed from that line. */
  lemma OneBracketedLine(line: string)
    requires Bracketed(line) && Split(Trim(line, IsJsSpace), '\n') == [line]
    ensures ParseOutput(line) == var parts := NonEmpty(Segments(line));
      if |parts| == 0 then "" else JoinWith(parts, " ")
  {
    TrimBracketed(line);
    assert TrimLines([line]) == [line];
    assert LastBracketed([line]) == Some(line);
  }

  /** A join contains a character only if a piece or the separator does. */
  lemma {:induction false} JoinNoChar(pieces: seq<string>, sep: string, c: char)
    requires c !in sep && forall i | 0 <= i < |pieces| :: c !in pieces[i]
    ensures c !in JoinWith(pieces, sep)
    decreases |pieces|
  {
    if |pieces| > 1 {
      JoinNoChar(pieces[1..], sep, c);
    }
  }

  /** A recognised list printed after the log lines wins over any earlier list. */
  lemma LastListWins(before: seq<string>, items: seq<string>)
    requires forall i | 0 <= i < |items| :: PlainItem(items[i])
    ensures LastBracketed(TrimLines(before + [PyList(items)])) == Some(PyList(items))
  {
    var line := PyList(items);
    var lines := TrimLines(before + [line]);
    PyListIsOneLine(items);
    TrimBracketed(line);
    assert lines[|lines| - 1] == line;
  }
}
