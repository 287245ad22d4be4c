/**
 * The LCD wire protocol of python/whisplay.py (WhisplayBoard): every
 * drawing operation is a trace of data/command-line levels and SPI
 * transfers, and the panel's reading of such a trace is an independent
 * definition (`Run`) against which the operations are checked.
 */
module Panel {
  import opened Wrappers
  import opened Bytes

  const LcdWidth := 240
  const LcdHeight := 280
  /** The panel's controller RAM starts 20 lines above the visible area. */
  const CornerOffset := 20
  /** `_send_data` never hands more than this many bytes to one SPI write. */
  const MaxChunk := 4096

  /** One observable action on the bus: the DC pin level, a full-duplex transfer, a write. */
  datatype Event = Dc(high: bool) | Xfer(data: seq<int>) | Write(data: seq<int>)

  // ----- The panel's view of a trace -----

  /** A command byte as the controller received it, with the parameter bytes that followed. */
  datatype Cmd = Cmd(op: int, params: seq<int>)

  /** Controller state: the DC level last seen and the commands received so far. */
  datatype Bus = Bus(dataMode: bool, cmds: seq<Cmd>)

  /** Each byte sent with DC low is a command of its own. */
  function AsCommands(d: seq<int>): (cs: seq<Cmd>)
    ensures |cs| == |d|
    ensures forall i | 0 <= i < |d| :: cs[i] == Cmd(d[i], [])
  {
    seq(|d|, i requires 0 <= i < |d| => Cmd(d[i], []))
  }

  /** Bytes sent with DC high are parameters of the latest command; with no command yet they are lost. */
  function AppendParams(cmds: seq<Cmd>, d: seq<int>): seq<Cmd> {
    if |cmds| == 0 then cmds
    else cmds[..|cmds| - 1] + [Cmd(cmds[|cmds| - 1].op, cmds[|cmds| - 1].params + d)]
  }

  function Step(st: Bus, e: Event): Bus {
    match e
    case Dc(h) => st.(dataMode := h)
    case Xfer(d) => if st.dataMode then st.(cmds := AppendParams(st.cmds, d)) else st.(cmds := st.cmds + AsCommands(d))
    case Write(d) => if st.dataMode then st.(cmds := AppendParams(st.cmds, d)) else st.(cmds := st.cmds + AsCommands(d))
  }

  /** What the controller has received after the whole trace. */
  function Run(trace: seq<Event>, st: Bus): Bus
    decreases |trace|
  {
    if |trace| == 0 then st else Run(trace[1..], Step(st, trace[0]))
  }

  lemma {:induction false} RunAppend(a: seq<Event>, b: seq<Event>, st: Bus)
    ensures Run(a + b, st) == Run(b, Run(a, st))
    decreases |a|
  {
    if |a| == 0 {
      assert a + b == b;
    } else {
      assert (a + b)[1..] == a[1..] + b;
      RunAppend(a[1..], b, Step(st, a[0]));
    }
  }

  lemma AppendParamsTwice(cmds: seq<Cmd>, a: seq<int>, b: seq<int>)
    ensures AppendParams(AppendParams(cmds, a), b) == AppendParams(cmds, a + b)
  {
    if |cmds| > 0 {
      var c := cmds[|cmds| - 1];
      assert c.params + a + b == c.params + (a + b);
    }
  }

  // ----- _send_data and _send_command -----

  function Flat(chunks: seq<seq<int>>): seq<int> {
    if |chunks| == 0 then [] else chunks[0] + Flat(chunks[1..])
  }

  /** The slices `data[i : i + 4096]` for `i` in `range(0, len(data), 4096)`. */
  function Chunks(data: seq<int>): (cs: seq<seq<int>>)
    ensures Flat(cs) == data
    decreases |data|
  {
    if |data| == 0 then []
    else if |data| <= MaxChunk then [data]
    else
      var rest := Chunks(data[MaxChunk..]);
      assert data == data[..MaxChunk] + data[MaxChunk..];
      [data[..MaxChunk]] + rest
  }

  /** Every chunk is non-empty and at most 4096 bytes long, and there are ceil(n / 4096) of them. */
  lemma {:induction false} ChunksShape(data: seq<int>)
    ensures var cs := Chunks(data);
      (forall i | 0 <= i < |cs| :: 0 < |cs[i]| <= MaxChunk) && |cs| == (|data| + MaxChunk - 1) / MaxChunk
    decreases |data|
  {
    if |data| > MaxChunk {
      ChunksShape(data[MaxChunk..]);
      var rest := Chunks(data[MaxChunk..]);
      assert Chunks(data) == [data[..MaxChunk]] + rest;
      assert (|data| + MaxChunk - 1) / MaxChunk == (|data| - MaxChunk + MaxChunk - 1) / MaxChunk + 1;
    }
  }

  function Writes(cs: seq<seq<int>>): (t: seq<Event>)
    ensures |t| == |cs|
    ensures forall i | 0 <= i < |cs| :: t[i] == Write(cs[i])
  {
    seq(|cs|, i requires 0 <= i < |cs| => Write(cs[i]))
  }

  /** `_send_data(data)`: DC high, then one write per chunk. */
  function SendData(data: seq<int>): seq<Event> {
    [Dc(true)] + Writes(Chunks(data))
  }

  /** `_send_command(cmd, *args)`: DC low and the command byte; a data phase only when there are arguments. */
  function SendCommand(cmd: int, args: seq<int>): seq<Event> {
    [Dc(false), Xfer([cmd])] + (if |args| > 0 then [Dc(true)] + SendData(args) else [])
  }

  lemma {:induction false} RunWrites(cs: seq<seq<int>>, cmds: seq<Cmd>)
    ensures Run(Writes(cs), Bus(true, cmds)) == Bus(true, AppendParams(cmds, Flat(cs)))
    decreases |cs|
  {
    if |cs| == 0 {
      assert AppendParams(cmds, []) == cmds by {
        if |cmds| > 0 {
          assert cmds[|cmds| - 1].params + [] == cmds[|cmds| - 1].params;
        }
      }
    } else {
      assert Writes(cs)[1..] == Writes(cs[1..]);
      RunWrites(cs[1..], AppendParams(cmds, cs[0]));
      AppendParamsTwice(cmds, cs[0], Flat(cs[1..]));
    }
  }

  /**
   * Whatever the data's length, the chunks the panel receives add up to
   * exactly the data, appended to the parameters of the latest command.
   */
  lemma RunSendData(data: seq<int>, st: Bus)
    ensures Run(SendData(data), st) == Bus(true, AppendParams(st.cmds, data))
  {
    RunAppend([Dc(true)], Writes(Chunks(data)), st);
    RunWrites(Chunks(data), st.cmds);
  }

  /** The panel receives exactly one command carrying exactly the arguments. */
  lemma RunSendCommand(cmd: int, args: seq<int>, st: Bus)
    ensures Run(SendCommand(cmd, args), st) == Bus(|args| > 0, st.cmds + [Cmd(cmd, args)])
  {
    var head := [Dc(false), Xfer([cmd])];
    assert Run(head, st) == Bus(false, st.cmds + [Cmd(cmd, [])]) by {
      var s1 := Step(st, Dc(false));
      assert head[1..] == [Xfer([cmd])];
      assert Run(head, st) == Run([Xfer([cmd])], s1);
      assert [Xfer([cmd])][1..] == [];
      assert AsCommands([cmd]) == [Cmd(cmd, [])];
      assert Run([Xfer([cmd])], s1) == Step(s1, Xfer([cmd]));
    }
    if |args| > 0 {
      var tail := [Dc(true)] + SendData(args);
      RunAppend(head, tail, st);
      var mid := Bus(true, st.cmds + [Cmd(cmd, [])]);
      assert SendCommand(cmd, args) == head + tail;
      RunAppend([Dc(true)], SendData(args), Run(head, st));
      assert Run([Dc(true)], Run(head, st)) == mid by {
        assert [Dc(true)][1..] == [];
      }
      RunSendData(args, mid);
      assert (st.cmds + [Cmd(cmd, [])])[..|st.cmds|] == st.cmds;
      assert [] + args == args;
    } else {
      assert SendCommand(cmd, args) == head;
    }
  }

  // ----- set_window -----

  /** Python's `v >> 8`: floor division, so negative coordinates stay negative. */
  function Shr8(v: int): int { v / 0x100 }

  /** The four parameter bytes of an address command for the range `a..b`. */
  function AddressParams(a: int, b: int): seq<int> {
    [Shr8(a), Lo(a), Shr8(b), Lo(b)]
  }

  /** How the controller reads an address command: two big-endian 16-bit values, `a` then `b`. */
  predicate Addresses(p: seq<int>, a: int, b: int) {
    |p| == 4 && p[0] * 0x100 + p[1] == a && p[2] * 0x100 + p[3] == b
  }

  /** `(v >> 8) * 256 + (v & 0xFF)` recovers every integer, and both parts are bytes for 16-bit values. */
  lemma AddressParamsDecode(a: int, b: int)
    ensures Addresses(AddressParams(a, b), a, b)
    ensures 0 <= a < 0x10000 && 0 <= b < 0x10000 ==> forall i | 0 <= i < 4 :: 0 <= AddressParams(a, b)[i] < 0x100
  {
  }

  /**
   * The bytes an SPI transfer actually puts on the wire: the spidev driver
   * stores each Python int in an unsigned 8-bit byte, keeping it modulo 256.
   * Traces record the ints before this truncation.
   */
  function OnWire(d: seq<int>): (w: seq<int>)
    ensures |w| == |d|
    ensures forall i | 0 <= i < |d| :: 0 <= w[i] < 0x100 && (d[i] - w[i]) % 0x100 == 0
  {
    seq(|d|, i requires 0 <= i < |d| => d[i] % 0x100)
  }

  /** For 16-bit coordinates the truncation changes nothing, so the controller reads the coordinates themselves. */
  lemma AddressParamsOnWire(a: int, b: int)
    requires 0 <= a < 0x10000 && 0 <= b < 0x10000
    ensures OnWire(AddressParams(a, b)) == AddressParams(a, b)
    ensures Addresses(OnWire(AddressParams(a, b)), a, b)
  {
    AddressParamsDecode(a, b);
  }

  /** A negative coordinate does not survive the wire: -1 is sent as 0xFF 0xFF and read as 0xFFFF. */
  lemma NegativeAddressOnWire()
    ensures AddressParams(-1, -1) == [-1, 0xFF, -1, 0xFF]
    ensures OnWire(AddressParams(-1, -1)) == [0xFF, 0xFF, 0xFF, 0xFF]
    ensures Addresses(OnWire(AddressParams(-1, -1)), 0xFFFF, 0xFFFF)
  {
  }

  /** `set_window(x0, y0, x1, y1, use_horizontal)`: column and row address set (modes 0..3 only), then memory write. */
  function SetWindow(x0: int, y0: int, x1: int, y1: int, mode: int): seq<Event> {
    if mode == 0 || mode == 1 then
      SendCommand(0x2A, AddressParams(x0, x1)) + SendCommand(0x2B, AddressParams(y0 + CornerOffset, y1 + CornerOffset))
      + SendCommand(0x2C, [])
    else if mode == 2 || mode == 3 then
      SendCommand(0x2A, AddressParams(x0 + CornerOffset, x1 + CornerOffset)) + SendCommand(0x2B, AddressParams(y0, y1))
      + SendCommand(0x2C, [])
    else SendCommand(0x2C, [])
  }

  /** The window the controller was given, with the 20-line offset on the rows (modes 0, 1) or columns (2, 3). */
  predicate WindowCmds(cmds: seq<Cmd>, x0: int, y0: int, x1: int, y1: int, mode: int) {
    if mode == 0 || mode == 1 || mode == 2 || mode == 3 then
      var (dx, dy) := if mode <= 1 then (0, CornerOffset) else (CornerOffset, 0);
      && |cmds| == 3
      && cmds[0].op == 0x2A && Addresses(cmds[0].params, x0 + dx, x1 + dx)
      && cmds[1].op == 0x2B && Addresses(cmds[1].params, y0 + dy, y1 + dy)
      && cmds[2] == Cmd(0x2C, [])
    else cmds == [Cmd(0x2C, [])]
  }

  /** Three commands in a row, the last without arguments, leave the controller in command mode. */
  lemma RunThreeCommands(c0: Cmd, c1: Cmd, op: int, st: Bus)
    ensures Run(SendCommand(c0.op, c0.params) + SendCommand(c1.op, c1.params) + SendCommand(op, []), st)
      == Bus(false, st.cmds + [c0, c1, Cmd(op, [])])
  {
    var a := SendCommand(c0.op, c0.params);
    var b := SendCommand(c1.op, c1.params);
    RunAppend(a + b, SendCommand(op, []), st);
    RunAppend(a, b, st);
    RunSendCommand(c0.op, c0.params, st);
    RunSendCommand(c1.op, c1.params, Run(a, st));
    RunSendCommand(op, [], Run(a + b, st));
    assert st.cmds + [c0] + [c1] + [Cmd(op, [])] == st.cmds + [c0, c1, Cmd(op, [])];
  }

  /** The three commands of a window whose corners are shifted by (dx, dy). */
  function ShiftedWindow(x0: int, y0: int, x1: int, y1: int, dx: int, dy: int): seq<Cmd> {
    [Cmd(0x2A, AddressParams(x0 + dx, x1 + dx)), Cmd(0x2B, AddressParams(y0 + dy, y1 + dy)), Cmd(0x2C, [])]
  }

  lemma RunShiftedWindow(x0: int, y0: int, x1: int, y1: int, dx: int, dy: int, st: Bus)
    ensures var w := ShiftedWindow(x0, y0, x1, y1, dx, dy);
      Run(SendCommand(w[0].op, w[0].params) + SendCommand(w[1].op, w[1].params) + SendCommand(0x2C, []), st)
      == Bus(false, st.cmds + w)
  {
    var w := ShiftedWindow(x0, y0, x1, y1, dx, dy);
    RunThreeCommands(w[0], w[1], 0x2C, st);
  }

  /** In modes 0..3 `set_window` sends the three commands of the window shifted by the 20-line offset. */
  lemma SetWindowShifted(x0: int, y0: int, x1: int, y1: int, mode: int)
    requires 0 <= mode <= 3
    ensures var (dx, dy) := if mode <= 1 then (0, CornerOffset) else (CornerOffset, 0);
      var w := ShiftedWindow(x0, y0, x1, y1, dx, dy);
      SetWindow(x0, y0, x1, y1, mode) == SendCommand(w[0].op, w[0].params) + SendCommand(w[1].op, w[1].params) + SendCommand(0x2C, [])
  {
  }

  /** In modes 0..3 the two address commands carry the window shifted by the 20-line offset. */
  lemma RunAddressedWindow(x0: int, y0: int, x1: int, y1: int, mode: int, st: Bus)
    requires 0 <= mode <= 3
    ensures var r := Run(SetWindow(x0, y0, x1, y1, mode), st);
      !r.dataMode && |r.cmds| >= |st.cmds| && r.cmds[..|st.cmds|] == st.cmds
      && WindowCmds(r.cmds[|st.cmds|..], x0, y0, x1, y1, mode)
  {
    var n := |st.cmds|;
    var (dx, dy) := if mode <= 1 then (0, CornerOffset) else (CornerOffset, 0);
    var w := ShiftedWindow(x0, y0, x1, y1, dx, dy);
    SetWindowShifted(x0, y0, x1, y1, mode);
    RunShiftedWindow(x0, y0, x1, y1, dx, dy, st);
    ShiftedWindowCmds(x0, y0, x1, y1, mode);
    var r := Run(SetWindow(x0, y0, x1, y1, mode), st);
    assert r.cmds[n..] == w && r.cmds[..n] == st.cmds;
  }

  lemma ShiftedWindowCmds(x0: int, y0: int, x1: int, y1: int, mode: int)
    requires 0 <= mode <= 3
    ensures var (dx, dy) := if mode <= 1 then (0, CornerOffset) else (CornerOffset, 0);
      WindowCmds(ShiftedWindow(x0, y0, x1, y1, dx, dy), x0, y0, x1, y1, mode)
  {
    var (dx, dy) := if mode <= 1 then (0, CornerOffset) else (CornerOffset, 0);
    AddressParamsDecode(x0 + dx, x1 + dx);
    AddressParamsDecode(y0 + dy, y1 + dy);
  }

  /**
   * The controller receives exactly the window's commands: in modes 0..3
   * the two address commands with the 20-line offset, then the memory
   * write; in any other mode the memory write alone.
   */
  lemma RunSetWindow(x0: int, y0: int, x1: int, y1: int, mode: int, st: Bus)
    ensures var r := Run(SetWindow(x0, y0, x1, y1, mode), st);
      !r.dataMode && |r.cmds| >= |st.cmds| && r.cmds[..|st.cmds|] == st.cmds
      && WindowCmds(r.cmds[|st.cmds|..], x0, y0, x1, y1, mode)
  {
    if 0 <= mode <= 3 {
      RunAddressedWindow(x0, y0, x1, y1, mode, st);
    } else {
      RunSendCommand(0x2C, [], st);
      var r := Run(SetWindow(x0, y0, x1, y1, mode), st);
      assert r.cmds[|st.cmds|..] == [Cmd(0x2C, [])];
    }
  }

  // ----- Drawing -----

  /** `draw_pixel`: coordinates at or beyond the right or bottom edge are ignored; negative ones are not checked. */
  function DrawPixel(x: int, y: int, color: int): (t: seq<Event>)
    ensures x >= LcdWidth || y >= LcdHeight ==> t == []
  {
    if x >= LcdWidth || y >= LcdHeight then []
    else SetWindow(x, y, x, y, 0) + SendData([Hi(color), Lo(color)])
  }

  /**
   * A mode-0 window followed by a data phase: the controller gets the two
   * address commands and a memory write whose parameters are the data.
   */
  lemma RunWindowData(x0: int, y0: int, x1: int, y1: int, data: seq<int>, st: Bus)
    ensures var r := Run(SetWindow(x0, y0, x1, y1, 0) + SendData(data), st);
      var n := |st.cmds|;
      |r.cmds| == n + 3 && r.cmds[..n] == st.cmds
      && Addresses(r.cmds[n].params, x0, x1)
      && Addresses(r.cmds[n + 1].params, y0 + CornerOffset, y1 + CornerOffset)
      && r.cmds[n + 2] == Cmd(0x2C, data)
  {
    var w := SetWindow(x0, y0, x1, y1, 0);
    var n := |st.cmds|;
    RunAppend(w, SendData(data), st);
    var r := Run(w, st);
    RunSetWindow(x0, y0, x1, y1, 0, st);
    RunSendData(data, r);
    var tail := r.cmds[n..];
    assert r.cmds[n] == tail[0] && r.cmds[n + 1] == tail[1] && r.cmds[n + 2] == tail[2] == Cmd(0x2C, []);
    assert r.cmds[n + 2].params + data == data;
    var r' := AppendParams(r.cmds, data);
    assert r' == r.cmds[..n + 2] + [Cmd(0x2C, data)];
    assert r'[..n] == r.cmds[..n];
  }

  /** A drawn pixel is a one-pixel window followed by a memory write of the colour's two bytes. */
  lemma RunDrawPixel(x: int, y: int, color: int, st: Bus)
    requires x < LcdWidth && y < LcdHeight
    ensures var r := Run(DrawPixel(x, y, color), st);
      |r.cmds| == |st.cmds| + 3 && r.cmds[..|st.cmds|] == st.cmds
      && Addresses(r.cmds[|st.cmds|].params, x, x)
      && Addresses(r.cmds[|st.cmds| + 1].params, y + CornerOffset, y + CornerOffset)
      && r.cmds[|st.cmds| + 2] == Cmd(0x2C, [Hi(color), Lo(color)])
      && Word(Hi(color), Lo(color)) == color % 0x10000
  {
    RunWindowData(x, y, x, y, [Hi(color), Lo(color)], st);
    WordOfColor(color);
  }

  /** The two bytes sent for a colour form the colour's low 16 bits. */
  lemma WordOfColor(color: int)
    ensures Word(Hi(color), Lo(color)) == color % 0x10000
  {
  }

  /** The 240 x 280 repetitions of the colour's (high, low) byte pair. */
  function Repeat(n: nat, hi: int, lo: int): (d: seq<int>)
    ensures |d| == 2 * n
    ensures forall i | 0 <= i < n :: d[2 * i] == hi && d[2 * i + 1] == lo
  {
    seq(2 * n, i requires 0 <= i < 2 * n => if i % 2 == 0 then hi else lo)
  }

  /** `fill_screen(color)`: the full-screen window, then every pixel in the colour. */
  function FillScreen(color: int): seq<Event> {
    SetWindow(0, 0, LcdWidth - 1, LcdHeight - 1, 0) + SendData(Repeat(LcdWidth * LcdHeight, Hi(color), Lo(color)))
  }

  lemma RunFillScreen(color: int, st: Bus)
    ensures var r := Run(FillScreen(color), st);
      |r.cmds| == |st.cmds| + 3 && r.cmds[..|st.cmds|] == st.cmds
      && Addresses(r.cmds[|st.cmds|].params, 0, LcdWidth - 1)
      && Addresses(r.cmds[|st.cmds| + 1].params, CornerOffset, LcdHeight - 1 + CornerOffset)
      && var ram := r.cmds[|st.cmds| + 2];
      ram.op == 0x2C && |ram.params| == 2 * LcdWidth * LcdHeight
      && (forall i | 0 <= i < LcdWidth * LcdHeight :: ram.params[2 * i] == Hi(color) && ram.params[2 * i + 1] == Lo(color))
      && Word(Hi(color), Lo(color)) == color % 0x10000
  {
    var px := Repeat(LcdWidth * LcdHeight, Hi(color), Lo(color));
    RunWindowData(0, 0, LcdWidth - 1, LcdHeight - 1, px, st);
    WordOfColor(color);
  }

  /** `draw_image`: refuses an image that sticks out right or below; otherwise window plus the data unchanged. */
  function DrawImage(x: int, y: int, width: int, height: int, pixels: seq<int>): (r: Result<seq<Event>, string>)
    ensures r.Err? <==> x + width > LcdWidth || y + height > LcdHeight
  {
    if x + width > LcdWidth || y + height > LcdHeight then Err("Image size exceeds screen bounds")
    else Ok(SetWindow(x, y, x + width - 1, y + height - 1, 0) + SendData(pixels))
  }

  /** An accepted image reaches the panel byte for byte inside the window it spans. */
  lemma RunDrawImage(x: int, y: int, width: int, height: int, pixels: seq<int>, st: Bus)
    requires DrawImage(x, y, width, height, pixels).Ok?
    ensures var r := Run(DrawImage(x, y, width, height, pixels).value, st);
      |r.cmds| == |st.cmds| + 3 && r.cmds[..|st.cmds|] == st.cmds
      && Addresses(r.cmds[|st.cmds|].params, x, x + width - 1)
      && Addresses(r.cmds[|st.cmds| + 1].params, y + CornerOffset, y + height - 1 + CornerOffset)
      && r.cmds[|st.cmds| + 2] == Cmd(0x2C, pixels)
  {
    RunWindowData(x, y, x + width - 1, y + height - 1, pixels, st);
  }

  // ----- draw_line -----

  function Abs(v: int): nat { if v < 0 then -v else v }

  /** The pixels of a point list drawn one after the other. */
  function PixelsTrace(pts: seq<(int, int)>, color: int): seq<Event> {
    if |pts| == 0 then [] else PixelsTrace(pts[..|pts| - 1], color) + DrawPixel(pts[|pts| - 1].0, pts[|pts| - 1].1, color)
  }

  /** Neighbouring pixels of a line touch: each coordinate moves by at most one, and they differ. */
  predicate Connected(pts: seq<(int, int)>) {
    forall k | 0 <= k < |pts| - 1 ::
      Abs(pts[k + 1].0 - pts[k].0) <= 1 && Abs(pts[k + 1].1 - pts[k].1) <= 1 && pts[k + 1] != pts[k]
  }

  lemma ConnectedSnoc(pts: seq<(int, int)>, p: (int, int))
    requires |pts| >= 1 && Connected(pts)
    requires Abs(p.0 - pts[|pts| - 1].0) <= 1 && Abs(p.1 - pts[|pts| - 1].1) <= 1 && p != pts[|pts| - 1]
    ensures Connected(pts + [p])
  {
    var q := pts + [p];
    forall k | 0 <= k < |q| - 1
      ensures Abs(q[k + 1].0 - q[k].0) <= 1 && Abs(q[k + 1].1 - q[k].1) <= 1 && q[k + 1] != q[k]
    {
      if k < |pts| - 1 {
        assert q[k] == pts[k] && q[k + 1] == pts[k + 1];
      }
    }
  }

  /** Every pixel lies within (dx, dy) of (x0, y0). */
  predicate InBox(pts: seq<(int, int)>, x0: int, y0: int, dx: int, dy: int) {
    forall k | 0 <= k < |pts| :: Abs(pts[k].0 - x0) <= dx && Abs(pts[k].1 - y0) <= dy
  }

  lemma BoxSnoc(pts: seq<(int, int)>, p: (int, int), x0: int, y0: int, dx: int, dy: int)
    requires InBox(pts, x0, y0, dx, dy)
    requires Abs(p.0 - x0) <= dx && Abs(p.1 - y0) <= dy
    ensures InBox(pts + [p], x0, y0, dx, dy)
  {
    var q := pts + [p];
    forall k | 0 <= k < |q|
      ensures Abs(q[k].0 - x0) <= dx && Abs(q[k].1 - y0) <= dy
    {
      if k < |pts| {
        assert q[k] == pts[k];
      }
    }
  }

  lemma PixelsTraceSnoc(pts: seq<(int, int)>, p: (int, int), color: int)
    ensures PixelsTrace(pts + [p], color) == PixelsTrace(pts, color) + DrawPixel(p.0, p.1, color)
  {
    assert (pts + [p])[..|pts|] == pts;
  }

  /** Multiplication by repeated addition, so that loop invariants stay linear. */
  function Mul(a: nat, b: nat): nat {
    if a == 0 then 0 else Mul(a - 1, b) + b
  }

  lemma {:induction false} MulIsProduct(a: nat, b: nat)
    ensures Mul(a, b) == a * b
  {
    if a > 0 {
      MulIsProduct(a - 1, b);
    }
  }

  /** Bresenham's error term after cx steps along x and cy steps along y of a (dx, dy) walk. */
  function ErrorTerm(dx: nat, dy: nat, cx: nat, cy: nat): int {
    dx - dy + Mul(cy, dx) - Mul(cx, dy)
  }

  lemma MulBelow(a: nat, b: nat, c: nat)
    requires a < b
    ensures Mul(a, c) + c <= Mul(b, c)
  {
    MulIsProduct(a, c);
    MulIsProduct(b, c);
    assert a * c + c == (a + 1) * c <= b * c;
  }

  /**
   * Once one coordinate of the walk has arrived while the other has not,
   * the error term forbids a further step on the arrived coordinate.
   */
  lemma ArrivedAxisStays(dx: nat, dy: nat, cx: nat, cy: nat)
    requires cx <= dx && cy <= dy
    ensures cx == dx && cy < dy ==> 2 * ErrorTerm(dx, dy, cx, cy) + dy <= 0
    ensures cy == dy && cx < dx ==> 2 * ErrorTerm(dx, dy, cx, cy) >= dx
  {
    MulIsProduct(dx, dy);
    MulIsProduct(dy, dx);
    if cx == dx && cy < dy {
      MulBelow(cy, dy, dx);
    }
    if cy == dy && cx < dx {
      MulBelow(cx, dx, dy);
    }
  }

  /** The pixels drawn so far: a connected run from the start to (x, y) inside the box, drawn in order. */
  predicate Drawn(pts: seq<(int, int)>, trace: seq<Event>, x0: int, y0: int, x: int, y: int, dx: int, dy: int, color: int) {
    && |pts| >= 1 && pts[0] == (x0, y0) && pts[|pts| - 1] == (x, y)
    && Connected(pts)
    && InBox(pts, x0, y0, dx, dy)
    && trace == PixelsTrace(pts, color)
  }

  lemma DrawnSnoc(pts: seq<(int, int)>, trace: seq<Event>, x0: int, y0: int, x: int, y: int, x': int, y': int,
                  dx: int, dy: int, color: int)
    requires Drawn(pts, trace, x0, y0, x, y, dx, dy, color)
    requires Abs(x' - x) <= 1 && Abs(y' - y) <= 1 && (x', y') != (x, y)
    requires Abs(x' - x0) <= dx && Abs(y' - y0) <= dy
    ensures Drawn(pts + [(x', y')], trace + DrawPixel(x', y', color), x0, y0, x', y', dx, dy, color)
  {
    BoxSnoc(pts, (x', y'), x0, y0, dx, dy);
    ConnectedSnoc(pts, (x', y'));
    PixelsTraceSnoc(pts, (x', y'), color);
  }

  /**
   * One iteration of the walk, before the end is reached: at least one
   * coordinate moves, neither overshoots, and the error term is kept up
   * to date by subtracting dy for an x step and adding dx for a y step.
   */
  lemma BresenhamStep(dx: nat, dy: nat, cx: nat, cy: nat, stepX: bool, stepY: bool)
    requires cx <= dx && cy <= dy && !(cx == dx && cy == dy)
    requires stepX <==> 2 * ErrorTerm(dx, dy, cx, cy) > -(dy as int)
    requires stepY <==> 2 * ErrorTerm(dx, dy, cx, cy) < dx
    ensures stepX || stepY
    ensures stepX ==> cx < dx
    ensures stepY ==> cy < dy
    ensures ErrorTerm(dx, dy, if stepX then cx + 1 else cx, if stepY then cy + 1 else cy)
      == ErrorTerm(dx, dy, cx, cy) - (if stepX then dy else 0) + (if stepY then dx else 0)
  {
    ArrivedAxisStays(dx, dy, cx, cy);
    assert Mul(cx + 1, dy) == Mul(cx, dy) + dy;
    assert Mul(cy + 1, dx) == Mul(cy, dx) + dx;
  }

  /**
   * One coordinate of the walk after `c` of its `|a1 - a0|` steps: a step
   * moves it by one towards `a1` and never past it.
   */
  lemma CoordStep(a0: int, a1: int, c: nat, a: int, step: bool)
    requires c <= Abs(a1 - a0) && a == (if a0 < a1 then a0 + c else a0 - c)
    requires step ==> c < Abs(a1 - a0)
    ensures var c' := if step then c + 1 else c;
      var a' := if step then a + (if a0 < a1 then 1 else -1) else a;
      a' == (if a0 < a1 then a0 + c' else a0 - c') && Abs(a' - a0) == c' <= Abs(a1 - a0) && Abs(a' - a) <= 1
      && (step ==> a' != a)
  {
  }

  /**
   * The loop state of `draw_line` after `cx` steps along x and `cy` along
   * y: the error term, the current pixel, and the pixels drawn so far.
   */
  predicate Walk(x0: int, y0: int, x1: int, y1: int, color: int, cx: nat, cy: nat, err: int, x: int, y: int,
                 pts: seq<(int, int)>, trace: seq<Event>)
  {
    var dx, dy := Abs(x1 - x0), Abs(y1 - y0);
    && cx <= dx && cy <= dy
    && err == ErrorTerm(dx, dy, cx, cy)
    && x == (if x0 < x1 then x0 + cx else x0 - cx)
    && y == (if y0 < y1 then y0 + cy else y0 - cy)
    && |pts| <= cx + cy + 1
    && Drawn(pts, trace, x0, y0, x, y, dx, dy, color)
  }

  /** One iteration of the loop keeps the walk's invariant and makes progress. */
  lemma WalkStep(x0: int, y0: int, x1: int, y1: int, color: int, cx: nat, cy: nat, err: int, x: int, y: int,
                 pts: seq<(int, int)>, trace: seq<Event>,
                 cx': nat, cy': nat, err': int, x': int, y': int, pts': seq<(int, int)>, trace': seq<Event>)
    requires Walk(x0, y0, x1, y1, color, cx, cy, err, x, y, pts, trace) && !(x == x1 && y == y1)
    requires var dx, dy := Abs(x1 - x0), Abs(y1 - y0);
      var stepX, stepY := 2 * err > -(dy as int), 2 * err < dx;
      && x' == (if stepX then x + (if x0 < x1 then 1 else -1) else x)
      && y' == (if stepY then y + (if y0 < y1 then 1 else -1) else y)
      && cx' == (if stepX then cx + 1 else cx) && cy' == (if stepY then cy + 1 else cy)
      && err' == err - (if stepX then dy else 0) + (if stepY then dx else 0)
      && pts' == pts + [(x', y')] && trace' == trace + DrawPixel(x', y', color)
    ensures Walk(x0, y0, x1, y1, color, cx', cy', err', x', y', pts', trace')
    ensures cx' + cy' > cx + cy
  {
    var dx, dy := Abs(x1 - x0), Abs(y1 - y0);
    var stepX, stepY := 2 * err > -(dy as int), 2 * err < dx;
    BresenhamStep(dx, dy, cx, cy, stepX, stepY);
    CoordStep(x0, x1, cx, x, stepX);
    CoordStep(y0, y1, cy, y, stepY);
    DrawnSnoc(pts, trace, x0, y0, x, y, x', y', dx, dy, color);
  }

  /** The walk starts at (x0, y0) with only that pixel drawn. */
  lemma WalkStart(x0: int, y0: int, x1: int, y1: int, color: int)
    ensures Walk(x0, y0, x1, y1, color, 0, 0, Abs(x1 - x0) - Abs(y1 - y0), x0, y0, [(x0, y0)], DrawPixel(x0, y0, color))
  {
    assert PixelsTrace([(x0, y0)], color) == PixelsTrace([], color) + DrawPixel(x0, y0, color);
    assert Mul(0, Abs(x1 - x0)) == 0 && Mul(0, Abs(y1 - y0)) == 0;
  }

  /** Once the walk stands on (x1, y1), the pixels drawn form the whole line. */
  lemma WalkDone(x0: int, y0: int, x1: int, y1: int, color: int, cx: nat, cy: nat, err: int,
                 pts: seq<(int, int)>, trace: seq<Event>)
    requires Walk(x0, y0, x1, y1, color, cx, cy, err, x1, y1, pts, trace)
    ensures |pts| >= 1
    ensures pts[0] == (x0, y0) && pts[|pts| - 1] == (x1, y1)
    ensures Connected(pts)
    ensures |pts| <= Abs(x1 - x0) + Abs(y1 - y0) + 1
    ensures InBox(pts, x0, y0, Abs(x1 - x0), Abs(y1 - y0))
    ensures trace == PixelsTrace(pts, color)
  {
  }

  /**
   * One pass of `draw_line`'s loop body: move along x (and subtract dy
   * from the error) when twice the error exceeds -dy, along y (and add dx)
   * when it is below dx, and draw the new pixel.
   */
  method LineStep(x0: int, y0: int, x1: int, y1: int, color: int, err: int, x: int, y: int,
                  cx: nat, cy: nat, pts: seq<(int, int)>, trace: seq<Event>)
    returns (err': int, x': int, y': int, cx': nat, cy': nat, pts': seq<(int, int)>, trace': seq<Event>)
    requires Walk(x0, y0, x1, y1, color, cx, cy, err, x, y, pts, trace) && !(x == x1 && y == y1)
    ensures Walk(x0, y0, x1, y1, color, cx', cy', err', x', y', pts', trace')
    ensures cx' + cy' > cx + cy
  {
    var dx: int, dy: int := Abs(x1 - x0), Abs(y1 - y0);
    var e2 := 2 * err;
    var stepX, stepY := e2 > -dy, e2 < dx;
    err' := err - (if stepX then dy else 0) + (if stepY then dx else 0);
    x' := if stepX then x + (if x0 < x1 then 1 else -1) else x;
    y' := if stepY then y + (if y0 < y1 then 1 else -1) else y;
    cx', cy' := if stepX then cx + 1 else cx, if stepY then cy + 1 else cy;
    pts' := pts + [(x', y')];
    trace' := trace + DrawPixel(x', y', color);
    WalkStep(x0, y0, x1, y1, color, cx, cy, err, x, y, pts, trace, cx', cy', err', x', y', pts', trace');
  }

  /**
   * `draw_line`: Bresenham's walk from (x0, y0) to (x1, y1). It stops,
   * the first pixel is the start and the last the end, neighbouring
   * pixels touch, no more than |dx| + |dy| + 1 pixels are drawn and each
   * one lies in the box spanned by the end points.
   */
  method DrawLine(x0: int, y0: int, x1: int, y1: int, color: int) returns (pts: seq<(int, int)>, trace: seq<Event>)
    ensures |pts| >= 1
    ensures pts[0] == (x0, y0) && pts[|pts| - 1] == (x1, y1)
    ensures Connected(pts)
    ensures |pts| <= Abs(x1 - x0) + Abs(y1 - y0) + 1
    ensures InBox(pts, x0, y0, Abs(x1 - x0), Abs(y1 - y0))
    ensures trace == PixelsTrace(pts, color)
  {
    var err := Abs(x1 - x0) - Abs(y1 - y0);
    var x, y := x0, y0;
    var cx: nat, cy: nat := 0, 0;
    pts := [(x, y)];
    trace := DrawPixel(x, y, color);
    WalkStart(x0, y0, x1, y1, color);
    while !(x == x1 && y == y1)
      invariant Walk(x0, y0, x1, y1, color, cx, cy, err, x, y, pts, trace)
      decreases Abs(x1 - x0) + Abs(y1 - y0) - (cx + cy)
    {
      err, x, y, cx, cy, pts, trace := LineStep(x0, y0, x1, y1, color, err, x, y, cx, cy, pts, trace);
    }
    WalkDone(x0, y0, x1, y1, color, cx, cy, err, pts, trace);
  }

  // ----- Backlight -----

  /**
   * `set_backlight(brightness)`: the PWM duty cycle is inverted
   * (100 - brightness, the LED pin is active low); brightness outside
   * 0..100 is ignored rather than clamped. `None` means no duty change.
   */
  function SetBacklight(brightness: int): (duty: Option<int>)
    ensures duty.Some? <==> 0 <= brightness <= 100
    ensures duty.Some? ==> 0 <= duty.value <= 100 && duty.value + brightness == 100
  {
    if 0 <= brightness <= 100 then Some(100 - brightness) else None
  }

  /** A brighter setting always gives a strictly lower duty cycle. */
  lemma BacklightAntitone(a: int, b: int)
    requires 0 <= a < b <= 100
    ensures SetBacklight(b).value < SetBacklight(a).value
  {
  }
}
