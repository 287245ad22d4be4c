/**
 * One frame of the render thread of python/chatbot-ui.py
 * (`RenderThread.render_frame`, `render_main_text`, `render_battery`):
 * which strips are sent to the panel, what they show, and how the
 * picture shown instead of the text screen is cropped and cached.
 * Rasterising glyphs and resampling pixels are outside the model: a strip
 * is described by what it shows, and resizing is a parameter.
 */
module Render {
  import opened Wrappers
  import opened Strings
  import Color
  import Display
  import Panel
  import TextWrap

  /** A picture whose rows all have its width, as an opened image file always is. */
  type Image = p: Color.Picture | Color.WellFormed(p) witness Color.Picture(0, 0, [])

  /** What one `draw_image` call shows. */
  datatype Content =
    | Photo(pic: Color.Picture)
    /**
     * The header: status and emoji text, the battery level, the battery
     * body's fill (`None` when no rectangle is drawn) and whether the level
     * is written in black.
     */
    | HeaderStrip(status: string, emoji: string, level: int, fill: Option<Color.Rgb>, darkText: bool)
    /** The text area: the visible lines, the height skipped above them, and the scroll position. */
    | TextStrip(lines: seq<string>, offsetY: int, scrollTop: int)
    /**
     * The text area when the strip to paste was never built: `paste` is
     * handed `None`. What the imaging library does with that is not part
     * of this model.
     */
    | NoStrip(scrollTop: int)

  /** A `draw_image(x, y, w, h, ...)` call. */
  datatype Draw = Draw(x: nat, y: nat, w: nat, h: nat, content: Content)

  // ----- Cropping a picture to the screen's shape -----

  /** A crop rectangle: left and top corner, width and height. */
  datatype Box = Box(left: nat, top: nat, w: nat, h: nat)

  /**
   * The centred crop of a `w` x `h` picture to the screen's 240:280 = 6:7
   * shape: a picture wider than 6:7 keeps its height and loses columns on
   * both sides, any other keeps its width and loses rows. A picture of
   * height 0 fails on the ratio's division by zero (caught, nothing drawn).
   * The float comparisons and truncations of the source are written as
   * exact integer arithmetic.
   */
  function CropBox(w: nat, h: nat): (b: Option<Box>)
    ensures b.None? <==> h == 0
  {
    if h == 0 then None
    else if w * 7 > h * 6 then
      var cw := h * 6 / 7;
      Some(Box((w - cw) / 2, 0, cw, h))
    else
      var ch := w * 7 / 6;
      Some(Box(0, (h - ch) / 2, w, ch))
  }

  /**
   * The crop lies inside the picture, is centred, keeps one full side,
   * and is the largest such box of the 6:7 shape: one more column (or
   * row) would make it wider (or taller) than the screen's shape.
   */
  lemma CropBoxShape(w: nat, h: nat)
    requires h > 0
    ensures var b := CropBox(w, h).value;
      && b.left + b.w <= w && b.top + b.h <= h
      && (b.left * 2 == w - b.w || b.left * 2 + 1 == w - b.w)
      && (b.top * 2 == h - b.h || b.top * 2 + 1 == h - b.h)
      && (b.h == h || b.w == w)
      && (b.h == h ==> b.w * 7 <= h * 6 < (b.w + 1) * 7)
      && (b.w == w && b.h < h ==> b.h * 6 <= w * 7 < (b.h + 1) * 6)
  {
  }

  /** The pixels inside a box. */
  function Crop(img: Image, b: Box): (out: Image)
    requires b.left + b.w <= img.width && b.top + b.h <= img.height
    ensures out.width == b.w && out.height == b.h
    ensures forall y, x | 0 <= y < b.h && 0 <= x < b.w :: out.rows[y][x] == img.rows[b.top + y][b.left + x]
  {
    Color.Picture(b.w, b.h, seq(b.h, y requires 0 <= y < b.h => seq(b.w, x requires 0 <= x < b.w => img.rows[b.top + y][b.left + x])))
  }

  /** The picture as `render_frame` shows it: cropped to the screen's shape, then resized to fill it. */
  function Fit(img: Image, resize: Color.Picture -> Color.Picture): Option<Color.Picture> {
    match CropBox(img.width, img.height)
    case None => None
    case Some(b) =>
      CropBoxShape(img.width, img.height);
      Some(resize(Crop(img, b)))
  }

  // ----- The text screen -----

  /** The battery body is filled unless the colour is pure black. */
  function BatteryFill(c: Color.Rgb): (fill: Option<Color.Rgb>)
    ensures fill.None? <==> c == Color.Black
    ensures fill.Some? ==> fill.value == c
  {
    if c == Color.Black then None else Some(c)
  }

  /** The level is written in black on a fill brighter than 128 (in thousandths, 128000), in white otherwise. */
  predicate DarkText(c: Color.Rgb) {
    Color.Luminance(Some(c)) > 128000
  }

  /**
   * The level text stays readable: white on a black body, black on a
   * white one, and brightening the fill can only switch white text to
   * black, never back.
   */
  lemma BatteryTextContrast(p: Color.Rgb, q: Color.Rgb)
    requires p.r <= q.r && p.g <= q.g && p.b <= q.b
    ensures !DarkText(Color.Black)
    ensures DarkText(Color.Rgb(255, 255, 255))
    ensures DarkText(p) ==> DarkText(q)
  {
    Color.LuminanceMonotone(p, q);
  }

  function Header(d: Display.State): Content {
    HeaderStrip(d.status, d.emoji, d.batteryLevel, BatteryFill(d.batteryColor), DarkText(d.batteryColor))
  }

  /**
   * `render_main_text`: empty text draws nothing into the (black) text
   * area and leaves the scroll position; otherwise the text is wrapped to
   * the screen width less the margins and the visible lines are drawn.
   */
  function TextArea(d: Display.State, font: TextWrap.Font, lh: nat): Content {
    if d.text == "" then TextStrip([], 0, d.scrollTop)
    else
      var lines := TextWrap.WrapText(d.text, c => TextWrap.CharWidth(font, c), Display.TextWidth);
      var (shown, y) := Display.ScanLines(lines, 0, d.scrollTop, lh, Display.TextAreaHeight, false, [], 0);
      TextStrip(shown, y, d.scrollTop)
  }

  /** The scroll position after the frame: only a drawn text advances it. */
  function ScrollAfter(d: Display.State, font: TextWrap.Font, lh: nat): int {
    var lines := TextWrap.WrapText(d.text, c => TextWrap.CharWidth(font, c), Display.TextWidth);
    Display.ScrollAfterFrame(d, |lines|, lh)
  }

  /**
   * The text strip shows exactly the lines of the wrapped text that reach
   * into the text area, as one contiguous run, and skips the height of the
   * lines above it.
   */
  lemma TextAreaShowsVisibleLines(d: Display.State, font: TextWrap.Font, lh: nat)
    requires d.text != ""
    ensures var lines := TextWrap.WrapText(d.text, c => TextWrap.CharWidth(font, c), Display.TextWidth);
      var t := TextArea(d, font, lh);
      exists a: nat, b: nat | a <= b <= |lines| ::
        && t.lines == lines[a..b]
        && t.offsetY == a * lh
        && (forall j | 0 <= j < |lines| :: Display.Visible(j, d.scrollTop, lh, Display.TextAreaHeight) <==> a <= j < b)
  {
    var lines := TextWrap.WrapText(d.text, c => TextWrap.CharWidth(font, c), Display.TextWidth);
    var a, b := Display.VisibleWindow(lines, d.scrollTop, lh, Display.TextAreaHeight);
  }

  // ----- The cached text strip -----

  /** The visible run of the wrapped lines and the height of the hidden lines above it. */
  function VisibleStrip(lines: seq<string>, top: int, lh: nat): (seq<string>, int) {
    Display.ScanLines(lines, 0, top, lh, Display.TextAreaHeight, false, [], 0)
  }

  /**
   * What `render_main_text` keeps from frame to frame: `current_render_text`,
   * the joined lines the strip was last built for, and `text_cache_image`,
   * described by the lines it holds and the height left blank above them
   * (`None` until a strip is built).
   */
  datatype TextCache = TextCache(key: string, strip: Option<(seq<string>, int)>)

  /** The render thread's start: no text rendered yet and no strip. */
  const NoTextCache := TextCache("", None)

  /**
   * `render_main_text` as written, on the wrapped lines of a non-empty
   * text: the strip is rebuilt only when the joined visible lines differ
   * from the text it was last built for, and the cached strip is pasted
   * whatever lines and offset it was built with.
   */
  function MainTextAsWritten(cache: TextCache, lines: seq<string>, top: int, lh: nat): (TextCache, Content) {
    var (shown, y) := VisibleStrip(lines, top, lh);
    var c := if Concat(shown) != cache.key then TextCache(Concat(shown), Some((shown, y))) else cache;
    (c, if c.strip.Some? then TextStrip(c.strip.value.0, c.strip.value.1, top) else NoStrip(top))
  }

  /**
   * The written cache shows the visible lines at their offset exactly when
   * their joined text is new or the cached strip happens to be the one
   * they need; in every other frame it pastes a strip built for other
   * lines or another offset.
   */
  lemma MainTextAsWrittenAgrees(cache: TextCache, lines: seq<string>, top: int, lh: nat)
    ensures var (shown, y) := VisibleStrip(lines, top, lh);
      var (c, t) := MainTextAsWritten(cache, lines, top, lh);
      && c.key == Concat(shown)
      && (t == TextStrip(shown, y, top) <==> Concat(shown) != cache.key || cache.strip == Some((shown, y)))
  {
  }

  /**
   * The stale strip, concretely: ten equal wrapped lines, a 24-pixel line
   * height and a scroll speed of 24. At scroll position 24 lines 0..8 are
   * visible and the strip is built with no blank height above them; at 48
   * lines 1..9 are visible, 24 pixels down, but they join to the same text,
   * so the old strip is pasted again and everything is drawn one line too
   * high, leaving the last visible line out.
   */
  lemma StaleStripExample(l: string)
    requires l != ""
    ensures var lines := seq(10, _ => l);
      var (c1, t1) := MainTextAsWritten(NoTextCache, lines, 24, 24);
      var (c2, t2) := MainTextAsWritten(c1, lines, 48, 24);
      && t1 == TextStrip(lines[0..9], 0, 24)
      && VisibleStrip(lines, 48, 24) == (lines[1..10], 24)
      && t2 == TextStrip(lines[0..9], 0, 48)
  {
    var lines := seq(10, _ => l);
    var a1, b1 := Display.VisibleWindow(lines, 24, 24, Display.TextAreaHeight);
    assert Display.Visible(0, 24, 24, Display.TextAreaHeight) && Display.Visible(8, 24, 24, Display.TextAreaHeight);
    assert !Display.Visible(9, 24, 24, Display.TextAreaHeight);
    assert a1 == 0 && b1 == 9;
    var a2, b2 := Display.VisibleWindow(lines, 48, 24, Display.TextAreaHeight);
    assert !Display.Visible(0, 48, 24, Display.TextAreaHeight) && Display.Visible(1, 48, 24, Display.TextAreaHeight);
    assert Display.Visible(9, 48, 24, Display.TextAreaHeight);
    assert a2 == 1 && b2 == 10;
    assert lines[0..9] == lines[1..10];
    assert Concat(lines[0..9]) != "" by {
      assert lines[0..9] == [l] + lines[1..9];
    }
  }

  /**
   * The corrected cache is keyed by the strip itself, the visible lines
   * together with the blank height above them, so a cached strip is only
   * reused for the lines and offset it was built with.
   */
  function MainText(cache: Option<(seq<string>, int)>, lines: seq<string>, top: int, lh: nat)
    : (Option<(seq<string>, int)>, Content)
  {
    var strip := VisibleStrip(lines, top, lh);
    var c := if cache != Some(strip) then Some(strip) else cache;
    (c, TextStrip(c.value.0, c.value.1, top))
  }

  /**
   * Whatever the corrected cache holds, the text area shows exactly the
   * lines that reach into it, as one contiguous run, below the height of
   * the lines above it, and the cache then holds that strip.
   */
  lemma MainTextShowsVisibleLines(cache: Option<(seq<string>, int)>, lines: seq<string>, top: int, lh: nat)
    ensures var (c, t) := MainText(cache, lines, top, lh);
      exists a: nat, b: nat | a <= b <= |lines| ::
        && t == TextStrip(lines[a..b], a * lh, top)
        && c == Some((lines[a..b], a * lh))
        && (forall j | 0 <= j < |lines| :: Display.Visible(j, top, lh, Display.TextAreaHeight) <==> a <= j < b)
  {
    var a, b := Display.VisibleWindow(lines, top, lh, Display.TextAreaHeight);
  }

  /** The frame's text area is what the corrected cache shows for the wrapped text. */
  lemma TextAreaIsMainText(cache: Option<(seq<string>, int)>, d: Display.State, font: TextWrap.Font, lh: nat)
    requires d.text != ""
    ensures var lines := TextWrap.WrapText(d.text, c => TextWrap.CharWidth(font, c), Display.TextWidth);
      TextArea(d, font, lh) == MainText(cache, lines, d.scrollTop, lh).1
  {
  }

  // ----- Frames -----

  function TextScreen(d: Display.State, font: TextWrap.Font, lh: nat): seq<Draw> {
    [ Draw(0, 0, Panel.LcdWidth, Display.HeaderHeight, Header(d)),
      Draw(0, Display.HeaderHeight, Panel.LcdWidth, Display.TextAreaHeight, TextArea(d, font, lh)) ]
  }

  /** A full-screen picture. */
  function PhotoScreen(p: Color.Picture): seq<Draw> {
    [Draw(0, 0, Panel.LcdWidth, Panel.LcdHeight, Photo(p))]
  }

  /**
   * `render_frame` as written: nothing in camera mode; with an image path
   * set, the cached picture if there is one (whatever path it came from),
   * else the picture at the path, loaded, fitted and cached (nothing when
   * it cannot be loaded); with no image path, the text screen, dropping
   * the cache. Returns the new cache, the draws and the new scroll position.
   */
  function RenderFrameAsWritten(cache: Option<Color.Picture>, d: Display.State, cameraMode: bool,
                                font: TextWrap.Font, lh: nat,
                                load: string -> Option<Image>, resize: Color.Picture -> Color.Picture)
    : (Option<Color.Picture>, seq<Draw>, int)
  {
    if cameraMode then (cache, [], d.scrollTop)
    else if d.imagePath != "" then
      if cache.Some? then (cache, PhotoScreen(cache.value), d.scrollTop)
      else if load(d.imagePath).None? then (cache, [], d.scrollTop)
      else
        match Fit(load(d.imagePath).value, resize)
        case None => (cache, [], d.scrollTop)
        case Some(p) => (Some(p), PhotoScreen(p), d.scrollTop)
    else (None, TextScreen(d, font, lh), ScrollAfter(d, font, lh))
  }

  /**
   * Once a picture is cached, changing the image path to another
   * non-empty path keeps showing the cached picture: the new file is
   * never even loaded.
   */
  lemma StaleImageAsWritten(p: Color.Picture, d: Display.State, font: TextWrap.Font, lh: nat,
                            load: string -> Option<Image>, resize: Color.Picture -> Color.Picture)
    requires d.imagePath != ""
    ensures RenderFrameAsWritten(Some(p), d, false, font, lh, load, resize).1 == PhotoScreen(p)
  {
  }

  /** A one-colour picture. */
  function Solid(w: nat, h: nat, c: Color.Rgb): (img: Image)
    ensures img.width == w && img.height == h
    ensures forall y, x | 0 <= y < h && 0 <= x < w :: img.rows[y][x] == c
  {
    Color.Picture(w, h, seq(h, y requires 0 <= y < h => seq(w, x => c)))
  }

  /**
   * The stale picture, concretely: "a.png" is red, "b.png" is blue (both
   * 6 x 7, so the crop keeps them whole). After showing "a.png" the path
   * becomes "b.png" and the frame still shows the red picture, although
   * the blue one is what the path names.
   */
  lemma StaleImageExample(d: Display.State, font: TextWrap.Font, lh: nat)
    requires d.imagePath == "b.png"
    ensures var red := Solid(6, 7, Color.Rgb(255, 0, 0));
      var blue := Solid(6, 7, Color.Rgb(0, 0, 255));
      var load := (s: string) => if s == "a.png" then Some(red) else if s == "b.png" then Some(blue) else None;
      var resize := (p: Color.Picture) => p;
      var shown := RenderFrameAsWritten(None, d.(imagePath := "a.png"), false, font, lh, load, resize);
      var next := RenderFrameAsWritten(shown.0, d, false, font, lh, load, resize);
      && shown.1 == PhotoScreen(Fit(red, resize).value)
      && next.1 == PhotoScreen(Fit(red, resize).value)
      && Fit(blue, resize).Some?
      && next.1 != PhotoScreen(Fit(blue, resize).value)
  {
    var red := Solid(6, 7, Color.Rgb(255, 0, 0));
    var blue := Solid(6, 7, Color.Rgb(0, 0, 255));
    var resize := (p: Color.Picture) => p;
    assert CropBox(6, 7) == Some(Box(0, 0, 6, 7));
    var r := Fit(red, resize).value;
    var b := Fit(blue, resize).value;
    assert r.rows[0][0] == Color.Rgb(255, 0, 0);
    assert b.rows[0][0] == Color.Rgb(0, 0, 255);
    assert PhotoScreen(r)[0].content.pic != PhotoScreen(b)[0].content.pic;
  }

  /** The corrected cache remembers which path its picture came from. */
  datatype Cached = Cached(path: string, pic: Color.Picture)

  /** Every cached picture is the fitted picture of its own path. */
  predicate Coherent(cache: Option<Cached>, load: string -> Option<Image>, resize: Color.Picture -> Color.Picture) {
    cache.Some? ==>
      load(cache.value.path).Some? && Fit(load(cache.value.path).value, resize) == Some(cache.value.pic)
  }

  /** `render_frame` with the cache keyed by path: a cached picture is reused only for the path it came from. */
  function RenderFrame(cache: Option<Cached>, d: Display.State, cameraMode: bool,
                       font: TextWrap.Font, lh: nat,
                       load: string -> Option<Image>, resize: Color.Picture -> Color.Picture)
    : (Option<Cached>, seq<Draw>, int)
  {
    if cameraMode then (cache, [], d.scrollTop)
    else if d.imagePath != "" then
      if cache.Some? && cache.value.path == d.imagePath then (cache, PhotoScreen(cache.value.pic), d.scrollTop)
      else if load(d.imagePath).None? then (cache, [], d.scrollTop)
      else
        match Fit(load(d.imagePath).value, resize)
        case None => (cache, [], d.scrollTop)
        case Some(p) => (Some(Cached(d.imagePath, p)), PhotoScreen(p), d.scrollTop)
    else (None, TextScreen(d, font, lh), ScrollAfter(d, font, lh))
  }

  /**
   * With the keyed cache the frame shows the picture the current path
   * names, whenever it can be loaded and fitted, and nothing else; the
   * cache stays coherent from frame to frame.
   */
  lemma RenderFrameShowsCurrentImage(cache: Option<Cached>, d: Display.State, font: TextWrap.Font, lh: nat,
                                     load: string -> Option<Image>, resize: Color.Picture -> Color.Picture)
    requires Coherent(cache, load, resize)
    requires d.imagePath != ""
    ensures var (c, draws, _) := RenderFrame(cache, d, false, font, lh, load, resize);
      && Coherent(c, load, resize)
      && (load(d.imagePath).Some? && Fit(load(d.imagePath).value, resize).Some? ==>
            draws == PhotoScreen(Fit(load(d.imagePath).value, resize).value))
      && (load(d.imagePath).None? || Fit(load(d.imagePath).value, resize).None? ==> draws == [])
  {
  }

  /** The corrected frame differs from the written one only by reloading for a new path. */
  lemma RenderFrameAgrees(cache: Option<Cached>, d: Display.State, cameraMode: bool, font: TextWrap.Font, lh: nat,
                          load: string -> Option<Image>, resize: Color.Picture -> Color.Picture)
    requires cache.None? || d.imagePath == "" || cache.value.path == d.imagePath
    ensures var plain := if cache.Some? then Some(cache.value.pic) else None;
      var r := RenderFrame(cache, d, cameraMode, font, lh, load, resize);
      var w := RenderFrameAsWritten(plain, d, cameraMode, font, lh, load, resize);
      r.1 == w.1 && r.2 == w.2 && (if r.0.Some? then Some(r.0.value.pic) else None) == w.0
  {
  }

  /** Camera mode draws nothing and changes nothing. */
  lemma CameraModeSkips(cache: Option<Cached>, d: Display.State, font: TextWrap.Font, lh: nat,
                        load: string -> Option<Image>, resize: Color.Picture -> Color.Picture)
    ensures RenderFrame(cache, d, true, font, lh, load, resize) == (cache, [], d.scrollTop)
  {
  }

  /**
   * Without an image path the frame is the header strip over the text
   * area, which together cover the screen exactly once; the cache is
   * dropped and the scroll position advances as `render_main_text` does.
   */
  lemma TextFrameTiles(cache: Option<Cached>, d: Display.State, font: TextWrap.Font, lh: nat,
                       load: string -> Option<Image>, resize: Color.Picture -> Color.Picture)
    requires d.imagePath == ""
    ensures var (c, draws, top) := RenderFrame(cache, d, false, font, lh, load, resize);
      && c.None? && |draws| == 2
      && draws[0].y == 0 && draws[0].y + draws[0].h == draws[1].y && draws[1].y + draws[1].h == Panel.LcdHeight
      && draws[0].x == 0 && draws[1].x == 0 && draws[0].w == Panel.LcdWidth && draws[1].w == Panel.LcdWidth
      && draws[0].content == Header(d)
      && top >= d.scrollTop && (d.text == "" ==> top == d.scrollTop)
  {
  }

  /** Every strip a frame draws fits the panel, so `draw_image` accepts it whatever its pixels. */
  lemma DrawsFitPanel(cache: Option<Cached>, d: Display.State, cameraMode: bool, font: TextWrap.Font, lh: nat,
                      load: string -> Option<Image>, resize: Color.Picture -> Color.Picture, pixels: seq<int>)
    ensures var draws := RenderFrame(cache, d, cameraMode, font, lh, load, resize).1;
      forall k | 0 <= k < |draws| :: Panel.DrawImage(draws[k].x, draws[k].y, draws[k].w, draws[k].h, pixels).Ok?
  {
  }
}
