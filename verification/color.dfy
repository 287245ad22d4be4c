/**
 * Colour conversions of the display server (python/utils.py, ColorUtils
 * and the packing half of ImageUtils): RGB565 decoding, hex-string
 * decoding, the "any" colour decoder used by the command protocol, the
 * luminance weighting, and the 5-6-5 big-endian pixel packing sent to the
 * panel.
 */
module Color {
  import opened Wrappers
  import opened Bytes
  import opened Strings

  /** An 8-bit-per-channel colour, as the `(r, g, b)` tuples of the source. */
  datatype Rgb = Rgb(r: Byte, g: Byte, b: Byte)

  const Black: Rgb := Rgb(0, 0, 0)

  // ----- RGB565 -----

  /** Widens a 5-bit channel to 8 bits with `v * 255 // 31`. */
  function Widen5(v: int): (w: Byte)
    requires 0 <= v < 0x20
    ensures 8 * v <= w <= 8 * v + 7
  {
    v * 255 / 31
  }

  /** Widens a 6-bit channel to 8 bits with `v * 255 // 63`. */
  function Widen6(v: int): (w: Byte)
    requires 0 <= v < 0x40
    ensures 4 * v <= w <= 4 * v + 3
  {
    v * 255 / 63
  }

  /** `ColorUtils.rgb565_to_rgb255`: decodes the three bit fields of a 16-bit colour. */
  function Rgb565ToRgb255(c: int): (rgb: Rgb)
    ensures c == 0 ==> rgb == Rgb(0, 0, 0)
    ensures c == 0xFFFF ==> rgb == Rgb(255, 255, 255)
  {
    Rgb(Widen5((c / 0x800) % 0x20), Widen6((c / 0x20) % 0x40), Widen5(c % 0x20))
  }

  /** The three bit fields of a 16-bit word, from the top: 5, 6 and 5 bits. */
  lemma FieldsOfWord(r5: int, g6: int, b5: int)
    requires 0 <= r5 < 0x20 && 0 <= g6 < 0x40 && 0 <= b5 < 0x20
    ensures var w := r5 * 0x800 + g6 * 0x20 + b5;
      0 <= w < 0x10000 && (w / 0x800) % 0x20 == r5 && (w / 0x20) % 0x40 == g6 && w % 0x20 == b5
  {
    var w := r5 * 0x800 + g6 * 0x20 + b5;
    assert w / 0x800 == r5;
    assert w / 0x20 == r5 * 0x40 + g6;
    assert (r5 * 0x40 + g6) % 0x40 == g6;
  }

  /** A 16-bit word is the sum of its three bit fields in place. */
  lemma WordOfFields(c: int)
    requires 0 <= c < 0x10000
    ensures ((c / 0x800) % 0x20) * 0x800 + ((c / 0x20) % 0x40) * 0x20 + c % 0x20 == c
  {
    var hi := c / 0x20;
    assert c == hi * 0x20 + c % 0x20;
    assert hi / 0x40 == c / 0x800;
    assert hi == (hi / 0x40) * 0x40 + hi % 0x40;
    assert c / 0x800 < 0x20;
  }

  /**
   * The 16-bit word `(r >> 3) << 11 | (g >> 2) << 5 | b >> 3` that
   * `image_to_rgb565` and `convertCameraFrameToRGB565` compute per pixel.
   */
  function Pack565(p: Rgb): (w: int)
    ensures 0 <= w < 0x10000
  {
    FieldsOfWord(p.r / 8, p.g / 4, p.b / 8);
    (p.r / 8) * 0x800 + (p.g / 4) * 0x20 + p.b / 8
  }

  /** The fields of a packed word are the channels with their low bits dropped. */
  lemma Pack565Fields(p: Rgb)
    ensures var w := Pack565(p);
      (w / 0x800) % 0x20 == p.r / 8 && (w / 0x20) % 0x40 == p.g / 4 && w % 0x20 == p.b / 8
  {
    FieldsOfWord(p.r / 8, p.g / 4, p.b / 8);
  }

  /**
   * Packing a colour and decoding the word returns each channel within the
   * rounding error of its field width: 7 for red and blue, 3 for green.
   */
  lemma PackDecodeWithinRounding(p: Rgb)
    ensures WithinRounding(Rgb565ToRgb255(Pack565(p)), p)
  {
    Pack565Fields(p);
  }

  /** Decoding a 16-bit word and packing the colour again gives back the word. */
  lemma DecodePackIdentity(c: int)
    requires 0 <= c < 0x10000
    ensures Pack565(Rgb565ToRgb255(c)) == c
  {
    var q := Rgb565ToRgb255(c);
    assert q.r / 8 == (c / 0x800) % 0x20;
    assert q.g / 4 == (c / 0x20) % 0x40;
    assert q.b / 8 == c % 0x20;
    Pack565Fields(q);
    WordOfFields(c);
  }

  // ----- Pixel buffers -----

  /** Each pixel's word as two bytes, high byte first (the `byteswap()` on a little-endian host). */
  function PackPixels(ps: seq<Rgb>): (bytes: seq<Byte>)
    ensures |bytes| == 2 * |ps|
  {
    if |ps| == 0 then []
    else [Hi(Pack565(ps[0])), Lo(Pack565(ps[0]))] + PackPixels(ps[1..])
  }

  /** Bytes `2i` and `2i + 1` of a packed buffer are the high and low byte of pixel `i`'s word. */
  lemma {:induction false} PackedBytes(ps: seq<Rgb>, i: nat)
    requires i < |ps|
    ensures PackPixels(ps)[2 * i] == Hi(Pack565(ps[i]))
    ensures PackPixels(ps)[2 * i + 1] == Lo(Pack565(ps[i]))
    decreases i
  {
    if i > 0 {
      var rest := PackPixels(ps[1..]);
      PackedBytes(ps[1..], i - 1);
      assert ps[1..][i - 1] == ps[i];
      assert PackPixels(ps)[2 * i] == rest[2 * (i - 1)];
      assert PackPixels(ps)[2 * i + 1] == rest[2 * (i - 1) + 1];
    }
  }

  /**
   * How the panel reads a pixel buffer: big-endian 16-bit words decoded as
   * RGB565 (a trailing odd byte completes no pixel).
   */
  function UnpackPixels(bytes: seq<Byte>): (ps: seq<Rgb>)
    ensures |ps| == |bytes| / 2
  {
    seq(|bytes| / 2, i requires 0 <= i < |bytes| / 2 => PixelAt(bytes, i))
  }

  /** The colour of the `i`-th big-endian word of a buffer. */
  function PixelAt(bytes: seq<Byte>, i: nat): Rgb
    requires 2 * i + 1 < |bytes|
  {
    Rgb565ToRgb255(Word(bytes[2 * i], bytes[2 * i + 1]))
  }

  lemma HalfOfDouble(n: nat)
    ensures (2 * n) % 2 == 0 && (2 * n) / 2 == n
  {
  }

  /** `q` is within the rounding error of RGB565 of `p`. */
  predicate WithinRounding(q: Rgb, p: Rgb) {
    -7 <= q.r - p.r <= 7 && -3 <= q.g - p.g <= 3 && -7 <= q.b - p.b <= 7
  }

  /** The two bytes packed for pixel `i` form its 16-bit word. */
  lemma PackedWord(ps: seq<Rgb>, i: nat)
    requires i < |ps|
    ensures UnpackPixels(PackPixels(ps))[i] == Rgb565ToRgb255(Pack565(ps[i]))
  {
    var bytes := PackPixels(ps);
    var w := Pack565(ps[i]);
    HalfOfDouble(|ps|);
    var u := UnpackPixels(bytes);
    assert u[i] == PixelAt(bytes, i);
    PackedBytes(ps, i);
    HiLoRecombine(w);
  }

  /** Pixel `i` of a packed buffer decodes to within rounding error of `ps[i]`. */
  lemma DecodedPixel(ps: seq<Rgb>, i: nat)
    requires i < |ps|
    ensures WithinRounding(UnpackPixels(PackPixels(ps))[i], ps[i])
  {
    PackedWord(ps, i);
    PackDecodeWithinRounding(ps[i]);
  }

  /** Every pixel the panel decodes is within rounding error of the pixel that was packed. */
  lemma PackedBufferDecodes(ps: seq<Rgb>)
    ensures |UnpackPixels(PackPixels(ps))| == |ps|
    ensures forall i | 0 <= i < |ps| :: WithinRounding(UnpackPixels(PackPixels(ps))[i], ps[i])
  {
    HalfOfDouble(|ps|);
    forall i | 0 <= i < |ps|
      ensures WithinRounding(UnpackPixels(PackPixels(ps))[i], ps[i])
    {
      DecodedPixel(ps, i);
    }
  }

  /** Both bytes of pixel `i` survive decoding and re-packing. */
  lemma RepackPixel(bytes: seq<Byte>, i: nat)
    requires |bytes| % 2 == 0 && i < |bytes| / 2
    ensures PackPixels(UnpackPixels(bytes))[2 * i] == bytes[2 * i]
    ensures PackPixels(UnpackPixels(bytes))[2 * i + 1] == bytes[2 * i + 1]
  {
    var ps := UnpackPixels(bytes);
    var c := Word(bytes[2 * i], bytes[2 * i + 1]);
    assert ps[i] == Rgb565ToRgb255(c);
    DecodePackIdentity(c);
    HiLoOfPair(bytes[2 * i], bytes[2 * i + 1]);
    var again := PackPixels(ps);
    PackedBytes(ps, i);
    assert again[2 * i] == Hi(Pack565(ps[i])) == Hi(c);
    assert again[2 * i + 1] == Lo(Pack565(ps[i])) == Lo(c);
  }

  /** A buffer decoded by the panel and packed again is byte-for-byte the same buffer. */
  lemma UnpackedBufferRepacks(bytes: seq<Byte>)
    requires |bytes| % 2 == 0
    ensures PackPixels(UnpackPixels(bytes)) == bytes
  {
    var again := PackPixels(UnpackPixels(bytes));
    forall k | 0 <= k < |bytes|
      ensures again[k] == bytes[k]
    {
      var i := k / 2;
      RepackPixel(bytes, i);
      if k % 2 == 0 {
        assert k == 2 * i;
      } else {
        assert k == 2 * i + 1;
      }
    }
  }

  // ----- Pictures -----

  /** A raster image as rows of pixels, top row first (the H x W x 3 array of the source). */
  datatype Picture = Picture(width: nat, height: nat, rows: seq<seq<Rgb>>)

  predicate WellFormed(p: Picture) {
    |p.rows| == p.height && forall y | 0 <= y < p.height :: |p.rows[y]| == p.width
  }

  /** Row-major pixel order: the order `tobytes()` walks the array. */
  function Flatten(rows: seq<seq<Rgb>>): seq<Rgb> {
    if |rows| == 0 then [] else rows[0] + Flatten(rows[1..])
  }

  lemma {:induction false} FlattenLength(rows: seq<seq<Rgb>>, w: nat)
    requires forall y | 0 <= y < |rows| :: |rows[y]| == w
    ensures |Flatten(rows)| == |rows| * w
    decreases |rows|
  {
    if |rows| > 0 {
      FlattenLength(rows[1..], w);
    }
  }

  /**
   * The centring step of `image_to_rgb565`: the (already thumbnailed)
   * image pasted onto a black `w` x `h` background at
   * `((w - iw) // 2, (h - ih) // 2)`.
   */
  function Letterbox(img: Picture, w: nat, h: nat): (out: Picture)
    requires WellFormed(img) && img.width <= w && img.height <= h
    ensures WellFormed(out) && out.width == w && out.height == h
    ensures forall y, x | 0 <= y < h && 0 <= x < w ::
      var x0 := (w - img.width) / 2;
      var y0 := (h - img.height) / 2;
      out.rows[y][x] ==
        if x0 <= x < x0 + img.width && y0 <= y < y0 + img.height
        then img.rows[y - y0][x - x0]
        else Black
  {
    var x0 := (w - img.width) / 2;
    var y0 := (h - img.height) / 2;
    Picture(w, h, seq(h, y requires 0 <= y < h =>
      seq(w, x requires 0 <= x < w =>
        if x0 <= x < x0 + img.width && y0 <= y < y0 + img.height
        then img.rows[y - y0][x - x0]
        else Black)))
  }

  lemma DoubleArea(w: nat, h: nat)
    ensures 2 * (h * w) == 2 * w * h
  {
  }

  /**
   * `ImageUtils.image_to_rgb565` after the external thumbnail step: centre
   * on black, then pack every pixel row by row.
   */
  function ImageToRgb565(thumb: Picture, w: nat, h: nat): (bytes: seq<Byte>)
    requires WellFormed(thumb) && thumb.width <= w && thumb.height <= h
    ensures |bytes| == 2 * w * h
  {
    var out := Letterbox(thumb, w, h);
    FlattenLength(out.rows, w);
    DoubleArea(w, h);
    PackPixels(Flatten(out.rows))
  }

  /** `ImageUtils.convertCameraFrameToRGB565` after the external nearest-neighbour resize. */
  function CameraFrameToRgb565(frame: Picture): (bytes: seq<Byte>)
    requires WellFormed(frame)
    ensures |bytes| == 2 * frame.width * frame.height
  {
    FlattenLength(frame.rows, frame.width);
    DoubleArea(frame.width, frame.height);
    PackPixels(Flatten(frame.rows))
  }

  /** Centring an image in a box of its own size leaves it as it is. */
  lemma LetterboxFull(img: Picture)
    requires WellFormed(img)
    ensures Letterbox(img, img.width, img.height) == img
  {
    var out := Letterbox(img, img.width, img.height);
    forall y | 0 <= y < img.height
      ensures out.rows[y] == img.rows[y]
    {
      forall x | 0 <= x < img.width
        ensures out.rows[y][x] == img.rows[y][x]
      {
        LetterboxPixel(img, y, x);
      }
    }
    assert out.rows == img.rows;
  }

  /** With no margin on either axis, every pixel is the image's own. */
  lemma LetterboxPixel(img: Picture, y: nat, x: nat)
    requires WellFormed(img) && y < img.height && x < img.width
    ensures Letterbox(img, img.width, img.height).rows[y][x] == img.rows[y][x]
  {
    assert (img.width - img.width) / 2 == 0 && (img.height - img.height) / 2 == 0;
  }

  /** An image that already fills the target box is packed exactly like a camera frame. */
  lemma FullImagePacksLikeCamera(img: Picture)
    requires WellFormed(img)
    ensures ImageToRgb565(img, img.width, img.height) == CameraFrameToRgb565(img)
  {
    LetterboxFull(img);
  }

  // ----- Hex strings -----

  predicate IsHash(c: char) { c == '#' }

  /** The value of two hex digits, as `int(pair, 16)`. */
  function HexByte(hi: char, lo: char): Byte
    requires IsDigitOf(hi, 16) && IsDigitOf(lo, 16)
  {
    DigitValue(hi) * 16 + DigitValue(lo)
  }

  /**
   * `ColorUtils.hex_to_rgb255`: strips every leading `#`, then accepts
   * exactly six or eight hex digits of either case; with eight, the last
   * two are ignored.
   */
  function HexToRgb255(s: string): (r: Option<Rgb>)
    ensures var h := TrimStart(s, IsHash);
      r.Some? <==> AllDigitsOf(h, 16) && (|h| == 6 || |h| == 8)
  {
    var h := TrimStart(s, IsHash);
    if !AllDigitsOf(h, 16) then None
    else if |h| == 6 || |h| == 8 then Some(Rgb(HexByte(h[0], h[1]), HexByte(h[2], h[3]), HexByte(h[4], h[5])))
    else None
  }

  /** Two lower-case hex digits for a byte. */
  function HexPair(v: Byte): (p: string)
    ensures |p| == 2 && AllDigitsOf(p, 16) && HexByte(p[0], p[1]) == v
  {
    [DigitChar(v / 16), DigitChar(v % 16)]
  }

  /** `rrggbb` in lower-case hex. */
  function FormatHex(c: Rgb): (h: string)
    ensures |h| == 6 && AllDigitsOf(h, 16)
    ensures HexByte(h[0], h[1]) == c.r && HexByte(h[2], h[3]) == c.g && HexByte(h[4], h[5]) == c.b
  {
    var pr, pg, pb := HexPair(c.r), HexPair(c.g), HexPair(c.b);
    var h := pr + pg + pb;
    assert h[0] == pr[0] && h[1] == pr[1] && h[2] == pg[0] && h[3] == pg[1] && h[4] == pb[0] && h[5] == pb[1];
    h
  }

  /** `"#rrggbb"` decodes to the colour it was formatted from. */
  lemma HexRoundTrip(c: Rgb)
    ensures HexToRgb255("#" + FormatHex(c)) == Some(c)
  {
    var h := FormatHex(c);
    var s := "#" + h;
    assert s[1..] == h;
    assert !IsHash(h[0]);
    assert TrimStart(h, IsHash) == h;
    assert TrimStart(s, IsHash) == h;
  }

  /** An eight-digit `rrggbbaa` decodes like its first six digits: the alpha pair is ignored. */
  lemma HexAlphaIgnored(c: Rgb, a: Byte)
    ensures HexToRgb255(FormatHex(c) + HexPair(a)) == Some(c)
  {
    var h := FormatHex(c);
    var s := h + HexPair(a);
    assert s[..6] == h;
    assert AllDigitsOf(s, 16);
    assert !IsHash(s[0]);
    assert TrimStart(s, IsHash) == s;
  }

  /** A decoded JSON value of a command field, as the Python code tells them apart. */
  datatype JsonValue =
    | JInt(i: int)
    | JBool(b: bool)        // JSON true/false: a Python bool, which is an int
    | JStr(s: string)
    | JOther(truthy: bool)  // a float, list or object; `truthy` is its Python truth value

  predicate Truthy(v: JsonValue) {
    match v
    case JInt(i) => i != 0
    case JBool(b) => b
    case JStr(s) => s != ""
    case JOther(t) => t
  }

  /**
   * `ColorUtils.get_rgb255_from_any`: an int (bools included) in
   * [0, 0xFFFF] is an RGB565 word; a string must strip to six or eight hex
   * digits; anything else gives None.
   */
  function GetRgb255FromAny(v: JsonValue): (r: Option<Rgb>)
  {
    match v
    case JInt(i) => if 0 <= i <= 0xFFFF then Some(Rgb565ToRgb255(i)) else None
    case JBool(b) => Some(Rgb565ToRgb255(if b then 1 else 0))
    case JStr(s) =>
      var h := TrimStart(s, IsHash);
      if AllDigitsOf(h, 16) && (|h| == 6 || |h| == 8) then HexToRgb255(s) else None
    case JOther(_) => None
  }

  /**
   * The integer branch decodes exactly the 16-bit words and the string
   * branch's own check adds nothing to `hex_to_rgb255`'s: strings decode as
   * hex strings do.
   */
  lemma AnyColorDecoding(v: JsonValue)
    ensures v.JInt? ==> (GetRgb255FromAny(v).Some? <==> 0 <= v.i <= 0xFFFF)
    ensures v.JInt? && 0 <= v.i <= 0xFFFF ==> GetRgb255FromAny(v) == Some(Rgb565ToRgb255(v.i))
    ensures v.JStr? ==> GetRgb255FromAny(v) == HexToRgb255(v.s)
    ensures v.JBool? ==> GetRgb255FromAny(v) == GetRgb255FromAny(JInt(if v.b then 1 else 0))
    ensures v.JOther? ==> GetRgb255FromAny(v) == None
  {
  }

  // ----- Luminance -----

  /**
   * `ColorUtils.calculate_luminance` in integer thousandths:
   * 299 r + 587 g + 114 b, and -1 (that is -1000) for no colour.
   */
  function Luminance(c: Option<Rgb>): (l: int)
    ensures c.None? ==> l == -1000
    ensures c.Some? ==> 0 <= l <= 255000
    ensures c == Some(Black) ==> l == 0
    ensures c == Some(Rgb(255, 255, 255)) ==> l == 255000
  {
    match c
    case None => -1000
    case Some(p) => 299 * p.r + 587 * p.g + 114 * p.b
  }

  /** Brightening any channel never lowers the luminance. */
  lemma LuminanceMonotone(p: Rgb, q: Rgb)
    requires p.r <= q.r && p.g <= q.g && p.b <= q.b
    ensures Luminance(Some(p)) <= Luminance(Some(q))
  {
  }
}
