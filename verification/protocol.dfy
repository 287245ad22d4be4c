/**
 * The line protocol of the display server in python/chatbot-ui.py
 * (`handle_client`): the bytes one client sends are decoded chunk by
 * chunk and cut into lines at '\n', blank lines are skipped, and every
 * other line is one JSON command that may fade the LED, set the
 * backlight, switch camera mode, update the display state and ask for a
 * reply.
 */
module Protocol {
  import opened Wrappers
  import opened Strings
  import opened Bytes
  import Color
  import Display
  import Panel
  import CameraMode

  /** A field read with a non-`None` default: absent, present as JSON `null`, or given. */
  datatype Field<T> = Absent | Null | Given(value: T)

  /**
   * The fields of one decoded command object that `handle_client` reads.
   * `content.get(k, None)` cannot tell an absent key from a JSON `null`, so
   * those fields are options; only `scroll_speed` (default 2) can.
   */
  datatype Command = Command(
    status: Option<string>,
    emoji: Option<string>,
    text: Option<string>,
    rgb: Option<Color.JsonValue>,
    brightness: Option<int>,
    scrollSpeed: Field<int>,
    response: Option<Color.JsonValue>,
    batteryLevel: Option<int>,
    batteryColor: Option<Color.JsonValue>,
    image: Option<string>,
    capturePath: Option<string>,
    cameraMode: Option<Color.JsonValue>)

  /** A command naming no field at all. */
  const NoFields := Command(None, None, None, None, None, Absent, None, None, None, None, None, None)

  /** What `json.loads` makes of a line. */
  datatype Parsed =
    | Invalid
    /** Valid JSON that is not an object; `typeName` is its Python type (`list`, `int`, ...). */
    | NonObject(typeName: string)
    | Object(cmd: Command)

  /** Everything a command can change: the display globals and the camera-mode globals. */
  datatype Server = Server(display: Display.State, camera: CameraMode.State)

  const Initial := Server(Display.Initial, CameraMode.Initial)

  /** Hardware and client effects, in the order the handler causes them. */
  datatype Effect =
    | Fade(target: Color.Rgb)
    | Backlight(duty: int)
    | Camera(effect: CameraMode.Effect)

  /** A line sent back to the client that sent the command. */
  datatype Reply = Ack | Response(value: Color.JsonValue) | Error(message: string)

  /** The result of handling some input: the new server state, the effects and the replies. */
  datatype Outcome = Outcome(server: Server, effects: seq<Effect>, replies: seq<Reply>)

  /**
   * The message of the TypeError raised by unpacking `None` into
   * `set_rgb_fade(*rgb)`, as CPython 3.9 and later word it: the method is
   * named with its module, `whisplay`, and its qualified name.
   */
  const UnpackNone := "whisplay.WhisplayBoard.set_rgb_fade() argument after * must be an iterable, not NoneType"

  /** The reply to a line that is not JSON at all. */
  const InvalidJson := "invalid JSON"

  /** The message of the AttributeError from calling `.get` on a JSON value that is not an object. */
  function NoGet(typeName: string): string {
    "'" + typeName + "' object has no attribute 'get'"
  }

  /**
   * The bytes written for a reply; `dumps` is `json.dumps` of a value,
   * which is embedded with the default `": "` separator.
   */
  function Wire(r: Reply, dumps: Color.JsonValue -> string): (line: string)
    ensures |line| > 0 && line[|line| - 1] == '\n'
    ensures r.Ack? ==> line == "OK\n"
    ensures r.Error? ==> StartsWith(line, "ERROR: ") && line[7..|line| - 1] == r.message
    ensures r.Response? ==> StartsWith(line, "{\"response\": ")
  {
    match r
    case Ack => "OK\n"
    case Error(m) => "ERROR: " + m + "\n"
    case Response(v) => "{\"response\": " + dumps(v) + "}\n"
  }

  /** `scroll_speed = content.get("scroll_speed", 2)`. */
  function ScrollSpeedArg(f: Field<int>): (a: Option<int>)
    ensures f.Absent? ==> a == Some(2)
    ensures f.Null? ==> a == None
    ensures f.Given? ==> a == Some(f.value)
  {
    match f
    case Absent => Some(2)
    case Null => None
    case Given(v) => Some(v)
  }

  /** `battery_tuple`: the decoded colour when `battery_color` is truthy (possibly `None`), black otherwise. */
  function BatteryTuple(v: Option<Color.JsonValue>): Option<Color.Rgb> {
    if v.Some? && Color.Truthy(v.value) then Color.GetRgb255FromAny(v.value) else Some(Color.Black)
  }

  /** The fields whose presence makes the handler call `update_display_data`. */
  predicate UpdatesDisplay(c: Command) {
    c.text.Some? || c.status.Some? || c.emoji.Some? || c.batteryLevel.Some? || c.batteryColor.Some? || c.image.Some?
  }

  /** `rgbled` is truthy but names no colour: unpacking the `None` raises before anything changes. */
  predicate BadColor(c: Command) {
    c.rgb.Some? && Color.Truthy(c.rgb.value) && Color.GetRgb255FromAny(c.rgb.value).None?
  }

  function ToUpdate(c: Command): Display.Update {
    Display.Update(c.status, c.emoji, c.text, ScrollSpeedArg(c.scrollSpeed), c.batteryLevel, BatteryTuple(c.batteryColor), c.image)
  }

  function CameraEffects(out: seq<CameraMode.Effect>): (es: seq<Effect>)
    ensures |es| == |out|
    ensures forall k | 0 <= k < |es| :: es[k] == Camera(out[k])
  {
    seq(|out|, k requires 0 <= k < |out| => Camera(out[k]))
  }

  /** `set_rgb_fade` is called when `RGB` is truthy (and decodes). */
  function FadeEffects(c: Command): (es: seq<Effect>)
    requires !BadColor(c)
    ensures |es| <= 1
    ensures |es| == 1 <==> c.rgb.Some? && Color.Truthy(c.rgb.value)
    ensures |es| == 1 ==> es[0] == Fade(Color.GetRgb255FromAny(c.rgb.value).value)
  {
    if c.rgb.Some? && Color.Truthy(c.rgb.value) then [Fade(Color.GetRgb255FromAny(c.rgb.value).value)] else []
  }

  /** `if brightness: whisplay.set_backlight(brightness)`, which ignores values outside 0..100. */
  function LightEffects(c: Command): (es: seq<Effect>)
    ensures |es| <= 1
    ensures |es| == 1 <==> c.brightness.Some? && 0 < c.brightness.value <= 100
    ensures |es| == 1 ==> es[0] == Backlight(100 - c.brightness.value)
  {
    if c.brightness.Some? && c.brightness.value != 0 && Panel.SetBacklight(c.brightness.value).Some?
    then [Backlight(Panel.SetBacklight(c.brightness.value).value)] else []
  }

  /** The capture path is stored first, then camera mode is switched by the value's truthiness. */
  function CameraCommands(cam: CameraMode.State, c: Command): (r: (CameraMode.State, seq<CameraMode.Effect>))
    ensures c.capturePath.None? && c.cameraMode.None? ==> r == (cam, [])
    ensures c.cameraMode.None? ==> r.0.cameraMode == cam.cameraMode && r.0.thread == cam.thread
    ensures r.0.capturePath == c.capturePath.GetOr(cam.capturePath)
  {
    var cam1 := if c.capturePath.Some? then CameraMode.Step(cam, CameraMode.SetCapturePath(c.capturePath.value)).0 else cam;
    if c.cameraMode.Some? then CameraMode.Step(cam1, CameraMode.SetCameraMode(Color.Truthy(c.cameraMode.value)))
    else (cam1, [])
  }

  /** The body of the `try` in `handle_client` for one decoded object. */
  function HandleCommand(srv: Server, c: Command): Outcome {
    if BadColor(c) then Outcome(srv, [], [Error(UnpackNone)])
    else
      var (cam, out) := CameraCommands(srv.camera, c);
      var display := if UpdatesDisplay(c) then Display.UpdateDisplayData(srv.display, ToUpdate(c)) else srv.display;
      var answer := if c.response.Some? && Color.Truthy(c.response.value) then [Response(c.response.value)] else [];
      Outcome(Server(display, cam), FadeEffects(c) + LightEffects(c) + CameraEffects(out), [Ack] + answer)
  }

  /**
   * Every command gets "OK" (followed by the response when one is asked
   * for) unless its colour cannot be decoded; then it gets one error and
   * has no effect at all. A command naming no display field leaves the
   * display alone, and a successful one never touches the display beyond
   * what `update_display_data` does with the command's fields.
   */
  lemma HandleCommandReplies(srv: Server, c: Command)
    ensures var o := HandleCommand(srv, c);
      && (BadColor(c) <==> o.replies == [Error(UnpackNone)])
      && (BadColor(c) ==> o.server == srv && o.effects == [])
      && (!BadColor(c) ==> o.replies[0] == Ack && 1 <= |o.replies| <= 2)
      && (!BadColor(c) ==> (|o.replies| == 2 <==> c.response.Some? && Color.Truthy(c.response.value)))
      && (!BadColor(c) && |o.replies| == 2 ==> o.replies[1] == Response(c.response.value))
      && (!UpdatesDisplay(c) ==> o.server.display == srv.display)
      && (!BadColor(c) && UpdatesDisplay(c) ==> o.server.display == Display.UpdateDisplayData(srv.display, ToUpdate(c)))
  {
    var o := HandleCommand(srv, c);
    if !BadColor(c) {
      var answer := if c.response.Some? && Color.Truthy(c.response.value) then [Response(c.response.value)] else [];
      assert o.replies == [Ack] + answer;
      assert o.replies[0] == Ack != Error(UnpackNone);
    }
  }

  /**
   * The LED fades to the decoded colour exactly when `RGB` is truthy and
   * decodes, and that comes first; the backlight changes exactly for a
   * non-zero brightness in 0..100, with duty cycle 100 - brightness.
   */
  lemma HandleCommandHardware(srv: Server, c: Command)
    requires !BadColor(c)
    ensures var o := HandleCommand(srv, c);
      && ((|o.effects| > 0 && o.effects[0].Fade?) <==> c.rgb.Some? && Color.Truthy(c.rgb.value))
      && (c.rgb.Some? && Color.Truthy(c.rgb.value) ==> o.effects[0] == Fade(Color.GetRgb255FromAny(c.rgb.value).value))
      && ((exists k | 0 <= k < |o.effects| :: o.effects[k].Backlight?) <==> c.brightness.Some? && 0 < c.brightness.value <= 100)
      && (forall k | 0 <= k < |o.effects| && o.effects[k].Backlight? :: o.effects[k].duty == 100 - c.brightness.value)
  {
    var o := HandleCommand(srv, c);
    var fade := FadeEffects(c);
    var light := LightEffects(c);
    var cams := CameraEffects(CameraCommands(srv.camera, c).1);
    assert o.effects == fade + light + cams;
    if c.brightness.Some? && 0 < c.brightness.value <= 100 {
      assert o.effects[|fade|].Backlight?;
    }
    forall k | 0 <= k < |o.effects| && o.effects[k].Backlight?
      ensures k == |fade| && o.effects[k] == light[0]
    {
    }
  }

  /**
   * The battery colour a successful display update leaves: a truthy value
   * that decodes sets it, a truthy value that does not decode keeps the old
   * one, and a falsy value (`0`, `""`, `false`) paints it black. So does a
   * missing or null `battery_color` when another display field is present.
   */
  lemma BatteryColorOutcome(srv: Server, c: Command)
    requires !BadColor(c) && UpdatesDisplay(c)
    ensures c.batteryColor.None? ==> HandleCommand(srv, c).server.display.batteryColor == Color.Black
    ensures c.batteryColor.Some? ==>
      var r := HandleCommand(srv, c).server.display.batteryColor;
      var v := c.batteryColor.value;
      && (Color.Truthy(v) && Color.GetRgb255FromAny(v).Some? ==> r == Color.GetRgb255FromAny(v).value)
      && (Color.Truthy(v) && Color.GetRgb255FromAny(v).None? ==> r == srv.display.batteryColor)
      && (!Color.Truthy(v) ==> r == Color.Black)
  {
  }

  /**
   * Any display update that does not mention `scroll_speed` sets the speed
   * to the default 2 (not the start-up 6); only an explicit `null` keeps it.
   */
  lemma ScrollSpeedDefaulting(srv: Server, c: Command)
    requires !BadColor(c) && UpdatesDisplay(c)
    ensures c.scrollSpeed.Absent? ==> HandleCommand(srv, c).server.display.scrollSpeed == 2
    ensures c.scrollSpeed.Null? ==> HandleCommand(srv, c).server.display.scrollSpeed == srv.display.scrollSpeed
    ensures c.scrollSpeed.Given? ==> HandleCommand(srv, c).server.display.scrollSpeed == c.scrollSpeed.value
  {
  }

  /** A capture path and camera mode in one command: the new path is the one the camera starts with. */
  lemma CapturePathBeforeCameraMode(srv: Server, c: Command, p: string, v: Color.JsonValue)
    requires !BadColor(c) && c.capturePath == Some(p) && c.cameraMode == Some(v) && Color.Truthy(v)
    ensures var o := HandleCommand(srv, c);
      o.server.camera.cameraMode && o.server.camera.capturePath == p
      && Camera(CameraMode.StartCamera(p)) in o.effects
  {
    var o := HandleCommand(srv, c);
    var k := |FadeEffects(c)| + |LightEffects(c)|;
    assert CameraCommands(srv.camera, c).1 == [CameraMode.StartCamera(p)];
    assert o.effects[k] == Camera(CameraMode.StartCamera(p));
  }

  // ----- Lines -----

  /**
   * One line through the inner loop: blank lines (Python `str.strip`
   * whitespace only) are skipped, unparsable lines and non-objects are
   * answered with an error.
   */
  function HandleLine(srv: Server, line: string, parse: string -> Parsed): (o: Outcome)
    ensures Trim(line, IsPySpace) == "" ==> o == Outcome(srv, [], [])
    ensures Trim(line, IsPySpace) != "" ==> |o.replies| > 0
  {
    if Trim(line, IsPySpace) == "" then Outcome(srv, [], [])
    else
      match parse(line)
      case Invalid => Outcome(srv, [], [Error(InvalidJson)])
      case NonObject(t) => Outcome(srv, [], [Error(NoGet(t))])
      case Object(c) =>
        HandleCommandReplies(srv, c);
        HandleCommand(srv, c)
  }

  /** One outcome followed by another. */
  function Then(a: Outcome, b: Outcome): Outcome {
    Outcome(b.server, a.effects + b.effects, a.replies + b.replies)
  }

  /** The lines of one batch, in order. */
  function HandleLines(srv: Server, lines: seq<string>, parse: string -> Parsed): Outcome
    decreases |lines|
  {
    if |lines| == 0 then Outcome(srv, [], [])
    else
      var o := HandleLine(srv, lines[0], parse);
      Then(o, HandleLines(o.server, lines[1..], parse))
  }

  lemma {:induction false} HandleLinesAppend(srv: Server, a: seq<string>, b: seq<string>, parse: string -> Parsed)
    ensures HandleLines(srv, a + b, parse)
      == Then(HandleLines(srv, a, parse), HandleLines(HandleLines(srv, a, parse).server, b, parse))
    decreases |a|
  {
    if |a| == 0 {
      assert a + b == b;
    } else {
      assert (a + b)[0] == a[0];
      assert (a + b)[1..] == a[1..] + b;
      var o := HandleLine(srv, a[0], parse);
      HandleLinesAppend(o.server, a[1..], b, parse);
      assert HandleLines(srv, a + b, parse) == Then(o, HandleLines(o.server, a[1..] + b, parse));
      assert HandleLines(srv, a, parse) == Then(o, HandleLines(o.server, a[1..], parse));
      var m := HandleLines(o.server, a[1..], parse);
      ThenAssoc(o, m, HandleLines(m.server, b, parse));
    }
  }

  /** The number of lines that are not blank. */
  function CountNonBlank(lines: seq<string>): (n: nat)
    ensures n <= |lines|
  {
    if |lines| == 0 then 0
    else (if Trim(lines[0], IsPySpace) == "" then 0 else 1) + CountNonBlank(lines[1..])
  }

  /** Every non-blank line is answered with one or two replies; blank lines are not answered. */
  lemma {:induction false} RepliesPerLine(srv: Server, lines: seq<string>, parse: string -> Parsed)
    ensures CountNonBlank(lines) <= |HandleLines(srv, lines, parse).replies| <= 2 * CountNonBlank(lines)
    decreases |lines|
  {
    if |lines| > 0 {
      var o := HandleLine(srv, lines[0], parse);
      RepliesPerLine(o.server, lines[1..], parse);
      if Trim(lines[0], IsPySpace) != "" {
        match parse(lines[0])
        case Invalid =>
        case NonObject(_) =>
        case Object(c) => HandleCommandReplies(srv, c);
      }
    }
  }

  // ----- Framing -----

  /** `while "\n" in buffer: line, buffer = buffer.split("\n", 1)`: the complete lines and the unterminated rest. */
  function Frame(buffer: string): (f: (seq<string>, string))
    ensures '\n' !in f.1
    ensures forall k | 0 <= k < |f.0| :: '\n' !in f.0[k]
  {
    var parts := Split(buffer, '\n');
    (parts[..|parts| - 1], parts[|parts| - 1])
  }

  /** Framing gives back the buffer: every line with its terminator, then the rest. */
  lemma FrameJoin(buffer: string)
    ensures JoinWith(Frame(buffer).0 + [Frame(buffer).1], "\n") == buffer
  {
    var parts := Split(buffer, '\n');
    assert parts == parts[..|parts| - 1] + [parts[|parts| - 1]];
    SplitJoin(buffer, '\n');
  }

  /** Splitting text after some complete lines: the lines come first, untouched. */
  lemma {:induction false} SplitAfterLines(ls: seq<string>, r: string, t: string, sep: char)
    requires forall k | 0 <= k < |ls| :: sep !in ls[k]
    ensures Split(JoinWith(ls + [r], [sep]) + t, sep) == ls + Split(r + t, sep)
    decreases |ls|
  {
    if |ls| == 0 {
      assert ls + [r] == [r];
    } else {
      var tail := JoinWith(ls[1..] + [r], [sep]);
      assert (ls + [r])[1..] == ls[1..] + [r];
      assert JoinWith(ls + [r], [sep]) == ls[0] + [sep] + tail;
      assert ls[0] + [sep] + tail + t == ls[0] + [sep] + (tail + t);
      SplitAtFirst(ls[0], tail + t, sep);
      SplitAfterLines(ls[1..], r, t, sep);
      assert ls == [ls[0]] + ls[1..];
    }
  }

  /** Framing after more data arrives keeps the lines framed before and re-frames only the rest. */
  lemma FrameAppend(s: string, t: string)
    ensures Frame(s + t).0 == Frame(s).0 + Frame(Frame(s).1 + t).0
    ensures Frame(s + t).1 == Frame(Frame(s).1 + t).1
  {
    var (ls, r) := Frame(s);
    FrameJoin(s);
    SplitAfterLines(ls, r, t, '\n');
    var q := Split(r + t, '\n');
    var p := Split(s + t, '\n');
    assert p == ls + q;
    assert p[..|p| - 1] == ls + q[..|q| - 1];
  }

  /** How the receive loop of one connection ends. */
  datatype Session = Session(
    outcome: Outcome,
    /** The decoded text still buffered when the loop stops; it is dropped with the connection. */
    left: string,
    /** A received chunk was not valid UTF-8 on its own, and the connection was closed for it. */
    decodeFailed: bool)

  /**
   * `handle_client`'s receive loop. Each received chunk of bytes is
   * decoded on its own (`decode` is UTF-8 decoding, `None` where Python's
   * `bytes.decode` raises). A chunk that decodes to the empty string is the
   * peer closing the connection; any other is appended to the buffer and
   * the complete lines are handled. A chunk that does not decode raises
   * out of the loop into the outer handler, which closes the connection:
   * the buffer and every later chunk are dropped.
   */
  function Serve(srv: Server, buffer: string, chunks: seq<seq<Byte>>, decode: seq<Byte> -> Option<string>,
                 parse: string -> Parsed): Session
    decreases |chunks|
  {
    if |chunks| == 0 then Session(Outcome(srv, [], []), buffer, false)
    else
      match decode(chunks[0])
      case None => Session(Outcome(srv, [], []), buffer, true)
      case Some(data) =>
        if data == "" then Session(Outcome(srv, [], []), buffer, false)
        else
          var (lines, rest) := Frame(buffer + data);
          var o := HandleLines(srv, lines, parse);
          var s := Serve(o.server, rest, chunks[1..], decode, parse);
          Session(Then(o, s.outcome), s.left, s.decodeFailed)
  }

  /** Every chunk decodes on its own to some text. */
  predicate AllDecode(chunks: seq<seq<Byte>>, decode: seq<Byte> -> Option<string>) {
    forall k | 0 <= k < |chunks| :: decode(chunks[k]).Some? && decode(chunks[k]).value != ""
  }

  /** The texts the chunks decode to, in order. */
  function Decoded(chunks: seq<seq<Byte>>, decode: seq<Byte> -> Option<string>): (texts: seq<string>)
    requires AllDecode(chunks, decode)
    ensures |texts| == |chunks|
    ensures forall k | 0 <= k < |chunks| :: Some(texts[k]) == decode(chunks[k])
    decreases |chunks|
  {
    if |chunks| == 0 then [] else [decode(chunks[0]).value] + Decoded(chunks[1..], decode)
  }

  lemma ThenAssoc(a: Outcome, b: Outcome, c: Outcome)
    ensures Then(Then(a, b), c) == Then(a, Then(b, c))
  {
  }

  /** Framing the buffer with all texts is framing it with the first text, then the rest with the others. */
  lemma FrameFirstChunk(buffer: string, texts: seq<string>)
    requires |texts| > 0
    ensures var first := Frame(buffer + texts[0]);
      && Frame(buffer + Concat(texts)).0 == first.0 + Frame(first.1 + Concat(texts[1..])).0
      && Frame(buffer + Concat(texts)).1 == Frame(first.1 + Concat(texts[1..])).1
  {
    var more := Concat(texts[1..]);
    assert buffer + Concat(texts) == (buffer + texts[0]) + more by {
      assert Concat(texts) == texts[0] + more;
    }
    FrameAppend(buffer + texts[0], more);
  }

  /**
   * When every chunk decodes on its own, how the stream is cut into chunks
   * does not matter: the outcome is that of handling every complete line
   * of the decoded stream at once, and what is left is its unterminated tail.
   */
  lemma {:induction false} ChunkingIrrelevant(srv: Server, buffer: string, chunks: seq<seq<Byte>>,
                                              decode: seq<Byte> -> Option<string>, parse: string -> Parsed)
    requires '\n' !in buffer
    requires AllDecode(chunks, decode)
    ensures var s := Serve(srv, buffer, chunks, decode, parse);
      var stream := buffer + Concat(Decoded(chunks, decode));
      && s.outcome == HandleLines(srv, Frame(stream).0, parse)
      && s.left == Frame(stream).1
      && !s.decodeFailed
    decreases |chunks|
  {
    var texts := Decoded(chunks, decode);
    if |chunks| == 0 {
      assert buffer + Concat(texts) == buffer;
      SplitNoSep(buffer, '\n');
    } else {
      var (lines, rest) := Frame(buffer + texts[0]);
      var o := HandleLines(srv, lines, parse);
      assert texts[1..] == Decoded(chunks[1..], decode);
      ChunkingIrrelevant(o.server, rest, chunks[1..], decode, parse);
      FrameFirstChunk(buffer, texts);
      HandleLinesAppend(srv, lines, Frame(rest + Concat(texts[1..])).0, parse);
    }
  }

  /**
   * A chunk that is not valid UTF-8 on its own (a receive that ends inside
   * a multi-byte character, say) ends the connection: the loop stops as it
   * was after the chunks before it, and neither the bad chunk nor any
   * later one is looked at, even when the bytes together would decode.
   */
  lemma {:induction false} ServeStopsAtUndecodable(srv: Server, buffer: string, a: seq<seq<Byte>>, bad: seq<Byte>,
                                                   b: seq<seq<Byte>>, decode: seq<Byte> -> Option<string>,
                                                   parse: string -> Parsed)
    requires AllDecode(a, decode) && decode(bad).None?
    ensures Serve(srv, buffer, a + [bad] + b, decode, parse) == Serve(srv, buffer, a, decode, parse).(decodeFailed := true)
    decreases |a|
  {
    if |a| == 0 {
      assert a + [bad] + b == [bad] + b;
    } else {
      var data := decode(a[0]).value;
      var (lines, rest) := Frame(buffer + data);
      var o := HandleLines(srv, lines, parse);
      assert (a + [bad] + b)[0] == a[0];
      assert (a + [bad] + b)[1..] == a[1..] + [bad] + b;
      assert AllDecode(a[1..], decode) by {
        forall k | 0 <= k < |a[1..]|
          ensures decode(a[1..][k]).Some? && decode(a[1..][k]).value != ""
        {
          assert a[1..][k] == a[k + 1];
        }
      }
      ServeStopsAtUndecodable(o.server, rest, a[1..], bad, b, decode, parse);
    }
  }

  /**
   * A whole connection whose chunks all decode: its lines are handled in
   * order, every one of them is answered, and its unterminated last line
   * never is.
   */
  lemma ConnectionOutcome(srv: Server, chunks: seq<seq<Byte>>, decode: seq<Byte> -> Option<string>, parse: string -> Parsed)
    requires AllDecode(chunks, decode)
    ensures var s := Serve(srv, "", chunks, decode, parse);
      var stream := Concat(Decoded(chunks, decode));
      && s.outcome == HandleLines(srv, Frame(stream).0, parse)
      && JoinWith(Frame(stream).0 + [s.left], "\n") == stream
      && CountNonBlank(Frame(stream).0) <= |s.outcome.replies|
      && !s.decodeFailed
  {
    var stream := Concat(Decoded(chunks, decode));
    ChunkingIrrelevant(srv, "", chunks, decode, parse);
    assert "" + stream == stream;
    FrameJoin(stream);
    RepliesPerLine(srv, Frame(stream).0, parse);
  }

  /**
   * A connection whose chunks decode up to one that does not: only the
   * lines completed before that chunk are handled, and the connection is
   * closed for the decoding error.
   */
  lemma UndecodableChunkCloses(srv: Server, a: seq<seq<Byte>>, bad: seq<Byte>, b: seq<seq<Byte>>,
                               decode: seq<Byte> -> Option<string>, parse: string -> Parsed)
    requires AllDecode(a, decode) && decode(bad).None?
    ensures var s := Serve(srv, "", a + [bad] + b, decode, parse);
      s.decodeFailed && s.outcome == HandleLines(srv, Frame(Concat(Decoded(a, decode))).0, parse)
  {
    ServeStopsAtUndecodable(srv, "", a, bad, b, decode, parse);
    ChunkingIrrelevant(srv, "", a, decode, parse);
    assert "" + Concat(Decoded(a, decode)) == Concat(Decoded(a, decode));
  }

  /** A connection that closes before sending any '\n' changes nothing and gets no reply. */
  lemma UnterminatedIgnored(srv: Server, data: seq<Byte>, decode: seq<Byte> -> Option<string>, parse: string -> Parsed)
    requires decode(data).Some? && decode(data).value != "" && '\n' !in decode(data).value
    ensures Serve(srv, "", [data], decode, parse) == Session(Outcome(srv, [], []), decode(data).value, false)
  {
    var text := decode(data).value;
    assert "" + text == text;
    SplitNoSep(text, '\n');
    assert Frame(text) == ([], text);
    assert HandleLines(srv, [], parse) == Outcome(srv, [], []);
    assert [data][1..] == [];
    assert Serve(srv, text, [], decode, parse) == Session(Outcome(srv, [], []), text, false);
    assert Then(Outcome(srv, [], []), Outcome(srv, [], [])) == Outcome(srv, [], []);
  }
}
