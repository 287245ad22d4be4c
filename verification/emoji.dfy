/**
 * Emoji handling of python/utils.py (EmojiUtils): which characters are
 * drawn from emoji assets, and the asset file name derived from a
 * character sequence.
 */
module Emoji {
  import opened Strings

  /**
   * `EmojiUtils.is_emoji`: the Unicode general category is So or Sk
   * (`symbol`, an external classification), or the code point is above
   * U+1F000.
   */
  function IsEmoji(c: char, symbol: char -> bool): (r: bool)
    ensures symbol(c) ==> r
    ensures c as int > 0x1F000 ==> r
    ensures c as int <= 0x1F000 && !symbol(c) ==> !r
  {
    symbol(c) || c as int > 0x1F000
  }

  /** The lower-case hex notation of every code point, in order. */
  function HexParts(s: string): (parts: seq<string>)
    ensures |parts| == |s|
    ensures forall i | 0 <= i < |s| :: parts[i] == NatToString(s[i] as int, 16)
  {
    seq(|s|, i requires 0 <= i < |s| => NatToString(s[i] as int, 16))
  }

  /** `EmojiUtils.emoji_to_filename`: hyphen-joined lower-case hex code points plus `.svg`. */
  function EmojiToFilename(s: string): string {
    JoinWith(HexParts(s), "-") + ".svg"
  }

  lemma HexHasNoHyphen(p: string)
    requires AllDigitsOf(p, 16)
    ensures '-' !in p
  {
  }

  /** The file name of a single code point is its hex notation plus `.svg`. */
  lemma SingleCodepointFilename(c: char)
    ensures EmojiToFilename([c]) == NatToString(c as int, 16) + ".svg"
  {
  }

  /** Distinct code point sequences get distinct asset file names. */
  lemma FilenameInjective(a: string, b: string)
    requires EmojiToFilename(a) == EmojiToFilename(b)
    ensures a == b
  {
    var pa, pb := HexParts(a), HexParts(b);
    var ja, jb := JoinWith(pa, "-"), JoinWith(pb, "-");
    assert ja == EmojiToFilename(a)[..|ja|];
    assert jb == EmojiToFilename(b)[..|jb|];
    assert ja == jb;
    if |a| > 0 && |b| > 0 {
      forall i | 0 <= i < |pa| { HexHasNoHyphen(pa[i]); }
      forall i | 0 <= i < |pb| { HexHasNoHyphen(pb[i]); }
      JoinSplit(pa, '-');
      JoinSplit(pb, '-');
      assert pa == pb;
      forall i | 0 <= i < |a|
        ensures a[i] == b[i]
      {
        FormatInjective(a[i] as int, b[i] as int, 16);
      }
    }
  }
}
