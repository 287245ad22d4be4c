/**
 * Text measurement and wrapping of python/utils.py (TextUtils): the
 * advance width of one character, the width of a line strip, and the
 * greedy character-granular line wrapping used for the scrolling body
 * text.
 */
module TextWrap {
  import opened Strings
  import Emoji

  /**
   * What the external rasteriser tells about one font: its pixel size, the
   * bounding-box width of each native glyph, the So/Sk category test, and
   * whether the SVG asset with a given file name exists and renders.
   */
  datatype Font = Font(size: nat, glyphWidth: char -> nat, symbol: char -> bool, emojiAsset: string -> bool)

  /**
   * `TextUtils.get_char_size` (width part): an emoji is as wide as the font
   * size when its asset renders (the asset is rasterised `size` x `size`)
   * and zero-width when it is missing; any other character has its glyph's
   * bounding-box width.
   */
  function CharWidth(f: Font, c: char): (w: nat)
    ensures Emoji.IsEmoji(c, f.symbol) && !f.emojiAsset(Emoji.EmojiToFilename([c])) ==> w == 0
    ensures Emoji.IsEmoji(c, f.symbol) && f.emojiAsset(Emoji.EmojiToFilename([c])) ==> w == f.size
    ensures !Emoji.IsEmoji(c, f.symbol) ==> w == f.glyphWidth(c)
  {
    if Emoji.IsEmoji(c, f.symbol) then
      if f.emojiAsset(Emoji.EmojiToFilename([c])) then f.size else 0
    else f.glyphWidth(c)
  }

  /** The summed advance widths of a line: the width of the strip `get_line_img` allocates. */
  function Width(s: string, width: char -> nat): nat
    decreases |s|
  {
    if |s| == 0 then 0 else Width(s[..|s| - 1], width) + width(s[|s| - 1])
  }

  lemma {:induction false} WidthAppend(a: string, b: string, width: char -> nat)
    ensures Width(a + b, width) == Width(a, width) + Width(b, width)
    decreases |b|
  {
    if |b| > 0 {
      WidthAppend(a, b[..|b| - 1], width);
      assert (a + b)[..|a + b| - 1] == a + b[..|b| - 1];
    } else {
      assert a + b == a;
    }
  }

  // ----- Greedy wrapping -----

  /**
   * The loop of `TextUtils.wrap_text`, one character at a time: `lines`
   * are the closed lines, `cur` the open one and `cw` its running width.
   */
  function WrapFrom(rest: string, width: char -> nat, maxWidth: int, lines: seq<string>, cur: string, cw: int): seq<string>
    decreases |rest|
  {
    if |rest| == 0 then
      if cur != "" then lines + [cur] else lines
    else
      var c := rest[0];
      var w := cw + width(c);
      if w <= maxWidth then WrapFrom(rest[1..], width, maxWidth, lines, cur + [c], w)
      else WrapFrom(rest[1..], width, maxWidth, lines + [cur], [c], width(c))
  }

  /** `TextUtils.wrap_text(draw, text, font, max_width)` over an abstract width function. */
  function WrapText(text: string, width: char -> nat, maxWidth: int): seq<string> {
    WrapFrom(text, width, maxWidth, [], "", 0)
  }

  /** A line fits, or is one (oversize) character, or is the empty first line. */
  predicate LineOk(line: string, i: nat, width: char -> nat, maxWidth: int) {
    Width(line, width) <= maxWidth || |line| == 1 || (i == 0 && line == "")
  }

  /** Line `b` had to start a new line: its first character did not fit after `a`. */
  predicate Breaks(a: string, b: string, width: char -> nat, maxWidth: int) {
    |b| > 0 && Width(a, width) + width(b[0]) > maxWidth
  }

  /** What a greedy character wrap promises about its lines. */
  predicate Wrapped(lines: seq<string>, width: char -> nat, maxWidth: int) {
    && (forall i | 0 <= i < |lines| :: LineOk(lines[i], i, width, maxWidth))
    && (forall i | 0 < i < |lines| :: lines[i] != "")
    && (forall i | 0 <= i < |lines| - 1 :: Breaks(lines[i], lines[i + 1], width, maxWidth))
  }

  /** The loop invariant of `wrap_text`. */
  predicate Pending(lines: seq<string>, cur: string, cw: int, width: char -> nat, maxWidth: int) {
    && cw == Width(cur, width)
    && Wrapped(lines, width, maxWidth)
    && (cur == "" ==> lines == [])
    && (Width(cur, width) <= maxWidth || |cur| == 1 || cur == "")
    && (|lines| > 0 ==> Breaks(lines[|lines| - 1], cur, width, maxWidth))
  }

  /** Every step of the loop keeps the invariant; the final flush yields wrapped lines. */
  lemma {:induction false} WrapFromWrapped(rest: string, width: char -> nat, maxWidth: int, lines: seq<string>, cur: string, cw: int)
    requires Pending(lines, cur, cw, width, maxWidth)
    ensures Wrapped(WrapFrom(rest, width, maxWidth, lines, cur, cw), width, maxWidth)
    decreases |rest|
  {
    if |rest| == 0 {
      if cur != "" {
        var r := lines + [cur];
        assert forall i | 0 <= i < |lines| :: r[i] == lines[i];
      }
    } else {
      var c := rest[0];
      var w := cw + width(c);
      if w <= maxWidth {
        var cur' := cur + [c];
        assert cur'[..|cur'| - 1] == cur;
        assert Width(cur', width) == w;
        if |lines| > 0 {
          assert cur'[0] == cur[0];
        }
        WrapFromWrapped(rest[1..], width, maxWidth, lines, cur', w);
      } else {
        var lines' := lines + [cur];
        assert forall i | 0 <= i < |lines| :: lines'[i] == lines[i];
        assert Width([c], width) == width(c) by {
          assert [c][..0] == [];
        }
        assert Breaks(cur, [c], width, maxWidth);
        WrapFromWrapped(rest[1..], width, maxWidth, lines', [c], width(c));
      }
    }
  }

  /** The concatenation of the closed lines, the open line and the rest never changes. */
  lemma {:induction false} WrapFromConcat(rest: string, width: char -> nat, maxWidth: int, lines: seq<string>, cur: string, cw: int)
    ensures Concat(WrapFrom(rest, width, maxWidth, lines, cur, cw)) == Concat(lines) + cur + rest
    decreases |rest|
  {
    if |rest| == 0 {
      ConcatAppend(lines, [cur]);
    } else {
      var c := rest[0];
      var w := cw + width(c);
      assert rest == [c] + rest[1..];
      if w <= maxWidth {
        WrapFromConcat(rest[1..], width, maxWidth, lines, cur + [c], w);
      } else {
        WrapFromConcat(rest[1..], width, maxWidth, lines + [cur], [c], width(c));
        ConcatAppend(lines, [cur]);
      }
    }
  }

  /** Closed lines are never revisited, and a non-empty open line starts the next line. */
  lemma {:induction false} WrapFromExtends(rest: string, width: char -> nat, maxWidth: int, lines: seq<string>, cur: string, cw: int)
    ensures var r := WrapFrom(rest, width, maxWidth, lines, cur, cw);
      |lines| <= |r| && r[..|lines|] == lines
      && (cur != "" ==> |lines| < |r| && StartsWith(r[|lines|], cur))
    decreases |rest|
  {
    if |rest| > 0 {
      var c := rest[0];
      var w := cw + width(c);
      if w <= maxWidth {
        WrapFromExtends(rest[1..], width, maxWidth, lines, cur + [c], w);
        var r := WrapFrom(rest, width, maxWidth, lines, cur, cw);
        if cur != "" {
          assert (cur + [c])[..|cur|] == cur;
          assert r[|lines|][..|cur|] == r[|lines|][..|cur| + 1][..|cur|];
        }
      } else {
        WrapFromExtends(rest[1..], width, maxWidth, lines + [cur], [c], width(c));
        var r := WrapFrom(rest, width, maxWidth, lines, cur, cw);
        assert r[..|lines| + 1][..|lines|] == r[..|lines|];
        if cur != "" {
          assert r[|lines|] == (lines + [cur])[|lines|];
        }
      }
    } else if cur != "" {
      assert (lines + [cur])[|lines|] == cur;
    }
  }

  /**
   * `wrap_text` returns lines that concatenate back to the text, each of
   * which fits or is a single oversize character, each one after the first
   * being non-empty and starting with the character that overflowed the
   * line before it. Empty text gives no lines, and the first line is empty
   * exactly when the first character alone is wider than `maxWidth`.
   */
  lemma WrapTextCorrect(text: string, width: char -> nat, maxWidth: int)
    ensures Concat(WrapText(text, width, maxWidth)) == text
    ensures Wrapped(WrapText(text, width, maxWidth), width, maxWidth)
    ensures WrapText(text, width, maxWidth) == [] <==> text == ""
    ensures text != "" ==> (WrapText(text, width, maxWidth)[0] == "" <==> width(text[0]) > maxWidth)
  {
    WrapFromConcat(text, width, maxWidth, [], "", 0);
    WrapFromWrapped(text, width, maxWidth, [], "", 0);
    if text != "" {
      var c := text[0];
      assert Width([c], width) == width(c) by {
        assert [c][..0] == [];
      }
      if width(c) <= maxWidth {
        WrapFromExtends(text[1..], width, maxWidth, [], [c], width(c));
        assert "" + [c] == [c];
      } else {
        assert [] + [""] == [""];
        WrapFromExtends(text[1..], width, maxWidth, [""], [c], width(c));
        var r := WrapText(text, width, maxWidth);
        assert r[..1][0] == r[0];
      }
    }
  }
}
