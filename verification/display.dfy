/**
 * The display state of python/chatbot-ui.py: the module-level `current_*`
 * variables, their partial update by `update_display_data`, and the
 * scrolling of the main text in `render_main_text`.
 */
module Display {
  import opened Wrappers
  import opened Strings
  import Color

  /** The `current_*` globals the renderer reads, plus the line-image cache. */
  datatype State = State(
    status: string,
    emoji: string,
    text: string,
    batteryLevel: int,
    batteryColor: Color.Rgb,
    scrollTop: int,
    scrollSpeed: int,
    imagePath: string,
    // The keys of TextUtils' line-image cache. Only its emptying by
    // `clean_line_image_cache()` (python/chatbot-ui.py:267) is modelled; the
    // glyph drawing that fills it is not part of this model.
    lineCache: set<string>)

  /** The globals at start-up; the battery colour is `#55FF00` decoded. */
  const Initial := State("Hello", "\U{1F604}", "Waiting for message...", 100, Color.Rgb(0x55, 0xFF, 0x00), 0, 6, "", {})

  /** The keyword arguments of `update_display_data`; `None` is Python's `None`. */
  datatype Update = Update(
    status: Option<string>,
    emoji: Option<string>,
    text: Option<string>,
    scrollSpeed: Option<int>,
    batteryLevel: Option<int>,
    batteryColor: Option<Color.Rgb>,
    imagePath: Option<string>)

  /** New text that does not extend the current text starts over at the top. */
  predicate Restarts(st: State, u: Update) {
    u.text.Some? && !StartsWith(u.text.value, st.text)
  }

  /**
   * `update_display_data`: every given argument overwrites its field and
   * every `None` keeps it; new text that is not a continuation of the
   * current text resets the scroll position and empties the line cache.
   */
  function UpdateDisplayData(st: State, u: Update): (r: State)
    ensures Restarts(st, u) ==> r.scrollTop == 0 && r.lineCache == {}
    ensures !Restarts(st, u) ==> r.scrollTop == st.scrollTop && r.lineCache == st.lineCache
    ensures r.status == u.status.GetOr(st.status)
    ensures r.emoji == u.emoji.GetOr(st.emoji)
    ensures r.text == u.text.GetOr(st.text)
    ensures r.scrollSpeed == u.scrollSpeed.GetOr(st.scrollSpeed)
    ensures r.batteryLevel == u.batteryLevel.GetOr(st.batteryLevel)
    ensures r.batteryColor == u.batteryColor.GetOr(st.batteryColor)
    ensures r.imagePath == u.imagePath.GetOr(st.imagePath)
  {
    var st1 := if Restarts(st, u) then st.(scrollTop := 0, lineCache := {}) else st;
    st1.(
      status := u.status.GetOr(st1.status),
      emoji := u.emoji.GetOr(st1.emoji),
      text := u.text.GetOr(st1.text),
      scrollSpeed := u.scrollSpeed.GetOr(st1.scrollSpeed),
      batteryLevel := u.batteryLevel.GetOr(st1.batteryLevel),
      batteryColor := u.batteryColor.GetOr(st1.batteryColor),
      imagePath := u.imagePath.GetOr(st1.imagePath))
  }

  /** Streaming text that only grows never moves the scroll position, including repeating the same text. */
  lemma ContinuationKeepsScroll(st: State, more: string)
    ensures var r := UpdateDisplayData(st, Update(None, None, Some(st.text + more), None, None, None, None));
      r.scrollTop == st.scrollTop && r.lineCache == st.lineCache && r.text == st.text + more
  {
    assert (st.text + more)[..|st.text|] == st.text;
  }

  /** Applying the same update twice is the same as applying it once. */
  lemma UpdateIdempotent(st: State, u: Update)
    ensures UpdateDisplayData(UpdateDisplayData(st, u), u) == UpdateDisplayData(st, u)
  {
    var r := UpdateDisplayData(st, u);
    if u.text.Some? {
      assert StartsWith(u.text.value, r.text);
    }
  }

  /** An update with no arguments changes nothing. */
  lemma EmptyUpdateIsIdentity(st: State)
    ensures UpdateDisplayData(st, Update(None, None, None, None, None, None, None)) == st
  {
  }

  // ----- Scrolling the main text -----

  /** The header strip takes 88 pixels plus a 10-pixel margin; the text area is the rest of the 280-pixel screen. */
  const HeaderHeight := 88 + 10
  const TextAreaHeight := 280 - HeaderHeight
  /** Text is wrapped to the screen width minus a 10-pixel margin on each side. */
  const TextWidth := 240 - 20

  /** Line i is drawn when it reaches below the scroll position and starts no lower than the area's end. */
  predicate Visible(i: int, top: int, lh: nat, area: int) {
    (i + 1) * lh >= top && i * lh - top <= area
  }

  lemma MulMono(a: int, b: int, c: nat)
    requires a <= b
    ensures a * c <= b * c
  {
  }

  /** The visible lines form one unbroken run. */
  lemma VisibleContiguous(i: int, j: int, k: int, top: int, lh: nat, area: int)
    requires i <= j <= k && Visible(i, top, lh, area) && Visible(k, top, lh, area)
    ensures Visible(j, top, lh, area)
  {
    MulMono(i + 1, j + 1, lh);
    MulMono(j, k, lh);
  }

  /**
   * The line loop of `render_main_text` from line i on: visible lines are
   * collected, and `render_y` grows by a line height for each line that is
   * passed before the first visible one.
   */
  function ScanLines(lines: seq<string>, i: nat, top: int, lh: nat, area: int, fin: bool, shown: seq<string>, y: int): (seq<string>, int)
    decreases |lines| - i
  {
    if i >= |lines| then (shown, y)
    else if Visible(i, top, lh, area) then ScanLines(lines, i + 1, top, lh, area, true, shown + [lines[i]], y)
    else if !fin then ScanLines(lines, i + 1, top, lh, area, fin, shown, y + lh)
    else ScanLines(lines, i + 1, top, lh, area, fin, shown, y)
  }

  /** The index of the first visible line at or after i, or the number of lines. */
  function FirstVisible(lines: seq<string>, i: nat, top: int, lh: nat, area: int): (a: nat)
    requires i <= |lines|
    ensures i <= a <= |lines|
    ensures forall j | i <= j < a :: !Visible(j, top, lh, area)
    ensures a < |lines| ==> Visible(a, top, lh, area)
    decreases |lines| - i
  {
    if i == |lines| || Visible(i, top, lh, area) then i else FirstVisible(lines, i + 1, top, lh, area)
  }

  /** The index of the first hidden line at or after i, or the number of lines. */
  function FirstHidden(lines: seq<string>, i: nat, top: int, lh: nat, area: int): (b: nat)
    requires i <= |lines|
    ensures i <= b <= |lines|
    ensures forall j | i <= j < b :: Visible(j, top, lh, area)
    ensures b < |lines| ==> !Visible(b, top, lh, area)
    decreases |lines| - i
  {
    if i == |lines| || !Visible(i, top, lh, area) then i else FirstHidden(lines, i + 1, top, lh, area)
  }

  /** Once a line after a visible one is hidden, every later line is hidden too. */
  lemma HiddenAfterRun(a: int, i: int, j: int, top: int, lh: nat, area: int)
    requires a <= i <= j && Visible(a, top, lh, area) && !Visible(i, top, lh, area)
    ensures !Visible(j, top, lh, area)
  {
    MulMono(a + 1, i + 1, lh);
    MulMono(i, j, lh);
  }

  /** After the visible run has ended, the rest of the loop changes nothing. */
  lemma {:induction false} ScanAfterRun(lines: seq<string>, i: nat, top: int, lh: nat, area: int, shown: seq<string>, y: int)
    requires i <= |lines|
    requires forall j | i <= j < |lines| :: !Visible(j, top, lh, area)
    ensures ScanLines(lines, i, top, lh, area, true, shown, y) == (shown, y)
    decreases |lines| - i
  {
    if i < |lines| {
      ScanAfterRun(lines, i + 1, top, lh, area, shown, y);
    }
  }

  /** Inside the visible run the loop collects exactly the run. */
  lemma {:induction false} ScanInRun(lines: seq<string>, a: nat, i: nat, top: int, lh: nat, area: int, y: int)
    requires a < i <= |lines|
    requires forall j | a <= j < i :: Visible(j, top, lh, area)
    ensures var b := FirstHidden(lines, i, top, lh, area);
      ScanLines(lines, i, top, lh, area, true, lines[a..i], y) == (lines[a..b], y)
    decreases |lines| - i
  {
    var b := FirstHidden(lines, i, top, lh, area);
    if i < |lines| {
      if Visible(i, top, lh, area) {
        assert lines[a..i] + [lines[i]] == lines[a..i + 1];
        ScanInRun(lines, a, i + 1, top, lh, area, y);
      } else {
        forall j | i <= j < |lines|
          ensures !Visible(j, top, lh, area)
        {
          HiddenAfterRun(a, i, j, top, lh, area);
        }
        ScanAfterRun(lines, i, top, lh, area, lines[a..i], y);
      }
    }
  }

  /** Before the first visible line the loop only moves `render_y` down. */
  lemma {:induction false} ScanBeforeRun(lines: seq<string>, i: nat, top: int, lh: nat, area: int)
    requires i <= |lines|
    ensures var a := FirstVisible(lines, i, top, lh, area);
      var b := if a < |lines| then FirstHidden(lines, a, top, lh, area) else a;
      ScanLines(lines, i, top, lh, area, false, [], i * lh) == (lines[a..b], a * lh)
    decreases |lines| - i
  {
    var a := FirstVisible(lines, i, top, lh, area);
    if i < |lines| {
      if Visible(i, top, lh, area) {
        assert [] + [lines[i]] == lines[i..i + 1];
        assert FirstHidden(lines, i, top, lh, area) == FirstHidden(lines, i + 1, top, lh, area);
        ScanInRun(lines, i, i + 1, top, lh, area, i * lh);
        assert ScanLines(lines, i, top, lh, area, false, [], i * lh) == ScanLines(lines, i + 1, top, lh, area, true, lines[i..i + 1], i * lh);
      } else {
        assert i * lh + lh == (i + 1) * lh;
        assert FirstVisible(lines, i, top, lh, area) == FirstVisible(lines, i + 1, top, lh, area);
        ScanBeforeRun(lines, i + 1, top, lh, area);
        assert ScanLines(lines, i, top, lh, area, false, [], i * lh) == ScanLines(lines, i + 1, top, lh, area, false, [], (i + 1) * lh);
      }
    } else {
      assert lines[i..i] == [];
    }
  }

  /**
   * What `render_main_text` shows: the visible lines are exactly the run
   * `lines[a..b]` (every line inside is visible, every line outside is
   * not), and `render_y` is the height of the lines above the run.
   */
  lemma VisibleWindow(lines: seq<string>, top: int, lh: nat, area: int) returns (a: nat, b: nat)
    ensures a <= b <= |lines|
    ensures ScanLines(lines, 0, top, lh, area, false, [], 0) == (lines[a..b], a * lh)
    ensures forall j | 0 <= j < |lines| :: Visible(j, top, lh, area) <==> a <= j < b
  {
    a := FirstVisible(lines, 0, top, lh, area);
    b := if a < |lines| then FirstHidden(lines, a, top, lh, area) else a;
    ScanBeforeRun(lines, 0, top, lh, area);
    forall j | 0 <= j < |lines|
      ensures Visible(j, top, lh, area) <==> a <= j < b
    {
      if Visible(j, top, lh, area) && j >= b {
        VisibleContiguous(a, b, j, top, lh, area);
      }
    }
  }

  /**
   * The scroll step at the end of `render_main_text`: the position moves
   * by the speed while the speed is positive and the position is still
   * above (lines + 1) line heights minus the area height.
   */
  function Advance(top: int, speed: int, lineCount: nat, lh: nat, area: int): (t: int)
    ensures t >= top
    ensures t > top <==> speed > 0 && top < (lineCount + 1) * lh - area
    ensures t == top || t == top + speed
    ensures t < (lineCount + 1) * lh - area + speed || t == top
  {
    if speed > 0 && top < (lineCount + 1) * lh - area then top + speed else top
  }

  /** The scroll position after `frames` renders of unchanged text. */
  function AdvanceFrames(top: int, speed: int, lineCount: nat, lh: nat, area: int, frames: nat): int
    decreases frames
  {
    if frames == 0 then top else AdvanceFrames(Advance(top, speed, lineCount, lh, area), speed, lineCount, lh, area, frames - 1)
  }

  /**
   * However many frames are rendered the position never goes back and
   * never passes the scroll limit by a full step: it stops at most one
   * step beyond the last line's end.
   */
  lemma {:induction false} AdvanceFramesBounded(top: int, speed: int, lineCount: nat, lh: nat, area: int, frames: nat)
    ensures AdvanceFrames(top, speed, lineCount, lh, area, frames) >= top
    ensures var t := AdvanceFrames(top, speed, lineCount, lh, area, frames);
      t == top || t < (lineCount + 1) * lh - area + speed
    decreases frames
  {
    if frames > 0 {
      AdvanceFramesBounded(Advance(top, speed, lineCount, lh, area), speed, lineCount, lh, area, frames - 1);
    }
  }

  /**
   * `render_main_text` for one frame: nothing at all for empty text;
   * otherwise the text is wrapped to the text width and the scroll
   * position advances.
   */
  function ScrollAfterFrame(st: State, wrappedLines: nat, lh: nat): (top: int)
    ensures st.text == "" ==> top == st.scrollTop
    ensures top >= st.scrollTop
  {
    if st.text == "" then st.scrollTop
    else Advance(st.scrollTop, st.scrollSpeed, wrappedLines, lh, TextAreaHeight)
  }
}
