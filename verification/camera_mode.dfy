/**
 * The camera-mode button machine of python/chatbot-ui.py
 * (`on_button_pressed`, `on_button_release`, `check_is_released`,
 * `exit_camera_mode` and the `camera_mode` command field). Timers become
 * events the environment delivers; times are integer milliseconds.
 */
module CameraMode {

  /** Both timers of the machine wait two seconds. */
  const TimerDelay := 2000
  /** A press released within this many milliseconds is a short press. */
  const ShortPress := 2000

  datatype State = State(
    cameraMode: bool,
    pressTime: int,
    releaseTime: int,
    /** `camera_thread is not None`. */
    thread: bool,
    /** Camera threads started and no longer referenced, hence never stopped. */
    orphans: nat,
    capturePath: string)

  const Initial := State(false, 0, 0, false, 0, "")

  datatype Event =
    | Press(t: int)
    | Release(t: int)
    /** The 2-second timer armed by a press in camera mode fires. */
    | CheckTimer
    /** The 2-second timer armed after a capture fires. */
    | ExitTimer
    /** A command line carried `camera_mode`; `on` is the value's truthiness. */
    | SetCameraMode(on: bool)
    /** A command line carried `capture_image_path`. */
    | SetCapturePath(path: string)

  datatype Effect =
    | Broadcast(event: string)
    | Capture
    | StopCamera
    | StartCamera(path: string)
    | ArmCheck(at: int)
    | ArmExit(at: int)

  /** `exit_camera_mode`: stop the camera if there is one, always broadcast, leave camera mode. */
  function ExitCameraMode(st: State): (r: (State, seq<Effect>))
    ensures !r.0.cameraMode && !r.0.thread
    ensures Broadcast("exit_camera_mode") in r.1
    ensures StopCamera in r.1 <==> st.thread
  {
    var stop := if st.thread then [StopCamera] else [];
    (st.(cameraMode := false, thread := false), stop + [Broadcast("exit_camera_mode")])
  }

  function Step(st: State, e: Event): (State, seq<Effect>) {
    match e
    case Press(t) =>
      if st.cameraMode then (st.(pressTime := t), [ArmCheck(t + TimerDelay)])
      else (st, [Broadcast("button_pressed")])
    case Release(t) =>
      if st.cameraMode then
        var st' := st.(releaseTime := t);
        if t - st.pressTime <= ShortPress && st.thread then
          (st', [Capture, Broadcast("camera_capture"), ArmExit(t + TimerDelay)])
        else (st', [])
      else (st, [Broadcast("button_released")])
    case CheckTimer =>
      if st.cameraMode && st.releaseTime < st.pressTime then ExitCameraMode(st) else (st, [])
    case ExitTimer => ExitCameraMode(st)
    case SetCameraMode(on) =>
      if on then
        (st.(cameraMode := true, thread := true, orphans := if st.thread then st.orphans + 1 else st.orphans),
         [StartCamera(st.capturePath)])
      else
        (st.(cameraMode := false, thread := false), if st.thread then [StopCamera] else [])
    case SetCapturePath(p) => (st.(capturePath := p), [])
  }

  /** The state after a run of events, and every effect in order. */
  function Run(st: State, es: seq<Event>): (State, seq<Effect>)
    decreases |es|
  {
    if |es| == 0 then (st, [])
    else
      var (st1, out1) := Step(st, es[0]);
      var (st2, out2) := Run(st1, es[1..]);
      (st2, out1 + out2)
  }

  /** The client notifications among the effects. */
  function Broadcasts(out: seq<Effect>): (evs: seq<string>)
    ensures |evs| <= |out|
    ensures forall k | 0 <= k < |evs| :: Broadcast(evs[k]) in out
  {
    if |out| == 0 then []
    else if out[0].Broadcast? then [out[0].event] + Broadcasts(out[1..])
    else Broadcasts(out[1..])
  }

  lemma BroadcastsAppend(a: seq<Effect>, b: seq<Effect>)
    ensures Broadcasts(a + b) == Broadcasts(a) + Broadcasts(b)
  {
    if |a| > 0 {
      assert (a + b)[1..] == a[1..] + b;
    } else {
      assert a + b == b;
    }
  }

  /** Outside camera mode the button is reported to the clients and nothing else happens. */
  lemma ButtonOutsideCameraMode(st: State, t: int)
    requires !st.cameraMode
    ensures Step(st, Press(t)) == (st, [Broadcast("button_pressed")])
    ensures Step(st, Release(t)) == (st, [Broadcast("button_released")])
  {
  }

  /**
   * In camera mode a press only records its time and arms the check, and
   * a release never reports `button_released`: it captures exactly when it
   * comes within two seconds of the press and a camera is running.
   */
  lemma ButtonInCameraMode(st: State, t: int)
    requires st.cameraMode
    ensures Step(st, Press(t)) == (st.(pressTime := t), [ArmCheck(t + TimerDelay)])
    ensures Broadcast("button_released") !in Step(st, Release(t)).1
    ensures Step(st, Release(t)).0 == st.(releaseTime := t)
    ensures Capture in Step(st, Release(t)).1 <==> t - st.pressTime <= ShortPress && st.thread
    ensures Capture in Step(st, Release(t)).1 ==> Broadcasts(Step(st, Release(t)).1) == ["camera_capture"]
  {
    var out: seq<Effect> := [Capture, Broadcast("camera_capture"), ArmExit(t + TimerDelay)];
    assert Broadcasts(out[2..]) == [] by {
      assert out[2..][1..] == [];
    }
    assert out[1..][1..] == out[2..];
  }

  /** One event, then the rest. */
  lemma RunCons(st: State, e: Event, rest: seq<Event>)
    ensures Run(st, [e] + rest) == (Run(Step(st, e).0, rest).0, Step(st, e).1 + Run(Step(st, e).0, rest).1)
  {
    assert ([e] + rest)[1..] == rest;
  }

  /** The check exits camera mode exactly when camera mode is on and the button is still held. */
  lemma CheckExitsOnlyOnLongPress(st: State)
    ensures var (r, out) := Step(st, CheckTimer);
      (Broadcasts(out) == ["exit_camera_mode"] && !r.cameraMode) <==> st.cameraMode && st.releaseTime < st.pressTime
    ensures !(st.cameraMode && st.releaseTime < st.pressTime) ==> Step(st, CheckTimer) == (st, [])
  {
    var stop: seq<Effect> := if st.thread then [StopCamera] else [];
    BroadcastsAppend(stop, [Broadcast("exit_camera_mode")]);
  }

  /** Turning camera mode off by command stops the camera but tells no client. */
  lemma CommandOffIsSilent(st: State)
    ensures var (r, out) := Step(st, SetCameraMode(false));
      !r.cameraMode && !r.thread && Broadcasts(out) == []
  {
  }

  /** Turning camera mode on again while a camera runs orphans the running camera thread. */
  lemma CommandOnTwiceOrphans(st: State)
    requires st.thread
    ensures Step(st, SetCameraMode(true)).0.orphans == st.orphans + 1
    ensures StopCamera !in Step(st, SetCameraMode(true)).1
  {
  }

  /** A run of one event is that event's step. */
  lemma RunOne(st: State, e: Event)
    ensures Run(st, [e]) == Step(st, e)
  {
    RunCons(st, e, []);
    assert [e] + [] == [e];
    assert Step(st, e).1 + [] == Step(st, e).1;
  }

  /** A camera thread only exists in camera mode. */
  predicate ThreadInCameraMode(st: State) {
    st.thread ==> st.cameraMode
  }

  /**
   * Every event keeps a camera thread confined to camera mode: the thread
   * is started only together with the mode, and every way out of the mode
   * drops it.
   */
  lemma {:induction false} RunKeepsThreadInCameraMode(st: State, es: seq<Event>)
    requires ThreadInCameraMode(st)
    ensures ThreadInCameraMode(Run(st, es).0)
    decreases |es|
  {
    if |es| > 0 {
      RunKeepsThreadInCameraMode(Step(st, es[0]).0, es[1..]);
    }
  }

  /** Switching camera mode on by command reaches the state both press scenarios start from. */
  lemma TurnOn(st: State)
    ensures var r := Run(st, [SetCameraMode(true)]).0;
      r.cameraMode && r.thread && ThreadInCameraMode(r)
  {
    RunOne(st, SetCameraMode(true));
  }

  /** After a release no earlier than the press, the check finds the button up and the exit timer leaves camera mode. */
  lemma ShortPressTail(s2: State)
    requires s2.cameraMode && s2.thread && s2.pressTime <= s2.releaseTime
    ensures Run(s2, [CheckTimer, ExitTimer])
      == (s2.(cameraMode := false, thread := false), [StopCamera, Broadcast("exit_camera_mode")])
  {
    RunOne(s2, ExitTimer);
    RunCons(s2, CheckTimer, [ExitTimer]);
    assert [CheckTimer] + [ExitTimer] == [CheckTimer, ExitTimer];
    assert Step(s2, CheckTimer) == (s2, []);
    assert ExitCameraMode(s2).1 == [StopCamera] + [Broadcast("exit_camera_mode")] == [StopCamera, Broadcast("exit_camera_mode")];
    assert [] + ExitCameraMode(s2).1 == ExitCameraMode(s2).1;
  }

  /** A release within two seconds of the press captures, then the tail exits. */
  lemma ShortPressRelease(s1: State, r: int)
    requires s1.cameraMode && s1.thread && s1.pressTime <= r <= s1.pressTime + ShortPress
    ensures Run(s1, [Release(r), CheckTimer, ExitTimer])
      == (s1.(releaseTime := r, cameraMode := false, thread := false),
          [Capture, Broadcast("camera_capture"), ArmExit(r + TimerDelay), StopCamera, Broadcast("exit_camera_mode")])
  {
    var s2 := s1.(releaseTime := r);
    ShortPressTail(s2);
    RunCons(s1, Release(r), [CheckTimer, ExitTimer]);
    assert [Release(r)] + [CheckTimer, ExitTimer] == [Release(r), CheckTimer, ExitTimer];
    assert Step(s1, Release(r)) == (s2, [Capture, Broadcast("camera_capture"), ArmExit(r + TimerDelay)]);
    assert [Capture, Broadcast("camera_capture"), ArmExit(r + TimerDelay)] + [StopCamera, Broadcast("exit_camera_mode")]
      == [Capture, Broadcast("camera_capture"), ArmExit(r + TimerDelay), StopCamera, Broadcast("exit_camera_mode")];
  }

  /**
   * A short press in camera mode with a camera running: pressed at `p`,
   * released at `r` no later than two seconds after; the check then finds
   * the button released and the exit timer leaves camera mode. The camera
   * captures once and is stopped, and the clients hear exactly a capture
   * and an exit.
   */
  lemma ShortPressScenario(st: State, p: int, r: int)
    requires st.cameraMode && st.thread
    requires p <= r <= p + ShortPress
    ensures var (s, out) := Run(st, [Press(p), Release(r), CheckTimer, ExitTimer]);
      && out == [ArmCheck(p + TimerDelay), Capture, Broadcast("camera_capture"), ArmExit(r + TimerDelay),
                 StopCamera, Broadcast("exit_camera_mode")]
      && Broadcasts(out) == ["camera_capture", "exit_camera_mode"]
      && s == st.(pressTime := p, releaseTime := r, cameraMode := false, thread := false)
  {
    var s1 := st.(pressTime := p);
    ShortPressRelease(s1, r);
    RunCons(st, Press(p), [Release(r), CheckTimer, ExitTimer]);
    assert [Press(p)] + [Release(r), CheckTimer, ExitTimer] == [Press(p), Release(r), CheckTimer, ExitTimer];
    var o2: seq<Effect> := [Capture, Broadcast("camera_capture"), ArmExit(r + TimerDelay)];
    var o4: seq<Effect> := [StopCamera, Broadcast("exit_camera_mode")];
    var out := [ArmCheck(p + TimerDelay)] + (o2 + o4);
    assert Run(st, [Press(p), Release(r), CheckTimer, ExitTimer]).1 == out;
    BroadcastsAppend([ArmCheck(p + TimerDelay)], o2 + o4);
    BroadcastsAppend(o2, o4);
    ButtonInCameraMode(s1, r);
    BroadcastsAppend([StopCamera], [Broadcast("exit_camera_mode")]);
  }

  /** Still held when the check fires: the check exits, and the later release is an ordinary one. */
  lemma LongPressTail(s1: State, r: int)
    requires s1.cameraMode && s1.releaseTime < s1.pressTime
    ensures Run(s1, [CheckTimer, Release(r)])
      == (ExitCameraMode(s1).0, ExitCameraMode(s1).1 + [Broadcast("button_released")])
  {
    var s2 := ExitCameraMode(s1).0;
    RunOne(s2, Release(r));
    assert Step(s2, Release(r)) == (s2, [Broadcast("button_released")]);
    RunCons(s1, CheckTimer, [Release(r)]);
    assert [CheckTimer] + [Release(r)] == [CheckTimer, Release(r)];
  }

  /** The effects of a long press: the check's exit, then the ordinary release. */
  lemma LongPressRun(st: State, p: int, r: int)
    requires st.cameraMode && st.releaseTime < p
    ensures Run(st, [Press(p), CheckTimer, Release(r)])
      == (st.(pressTime := p, cameraMode := false, thread := false),
          [ArmCheck(p + TimerDelay)] + ((if st.thread then [StopCamera] else []) + [Broadcast("exit_camera_mode")])
          + [Broadcast("button_released")])
  {
    var s1 := st.(pressTime := p);
    LongPressTail(s1, r);
    RunCons(st, Press(p), [CheckTimer, Release(r)]);
    assert [Press(p)] + [CheckTimer, Release(r)] == [Press(p), CheckTimer, Release(r)];
    var x := ExitCameraMode(s1).1;
    assert [ArmCheck(p + TimerDelay)] + (x + [Broadcast("button_released")])
      == [ArmCheck(p + TimerDelay)] + x + [Broadcast("button_released")];
  }

  /** Whether or not a camera is stopped, the long press tells the clients the same two things. */
  lemma LongPressBroadcasts(p: int, stop: seq<Effect>)
    requires stop == [] || stop == [StopCamera]
    ensures var out := [ArmCheck(p + TimerDelay)] + (stop + [Broadcast("exit_camera_mode")]) + [Broadcast("button_released")];
      && out == [ArmCheck(p + TimerDelay)] + stop + [Broadcast("exit_camera_mode"), Broadcast("button_released")]
      && Broadcasts(out) == ["exit_camera_mode", "button_released"]
      && Capture !in out
  {
    var o2 := stop + [Broadcast("exit_camera_mode")];
    BroadcastsAppend([ArmCheck(p + TimerDelay)] + o2, [Broadcast("button_released")]);
    BroadcastsAppend([ArmCheck(p + TimerDelay)], o2);
    BroadcastsAppend(stop, [Broadcast("exit_camera_mode")]);
  }

  /**
   * A long press in camera mode: pressed at `p` (after the previous
   * release) and still held when the check fires, so camera mode ends
   * without a capture and a running camera is stopped; the release at `r`
   * then happens outside camera mode and is reported as an ordinary
   * `button_released`.
   */
  lemma LongPressScenario(st: State, p: int, r: int)
    requires st.cameraMode && st.releaseTime < p
    ensures var (s, out) := Run(st, [Press(p), CheckTimer, Release(r)]);
      && out == [ArmCheck(p + TimerDelay)] + (if st.thread then [StopCamera] else [])
                + [Broadcast("exit_camera_mode"), Broadcast("button_released")]
      && Broadcasts(out) == ["exit_camera_mode", "button_released"]
      && Capture !in out
      && s == st.(pressTime := p, cameraMode := false, thread := false)
  {
    LongPressRun(st, p, r);
    var stop: seq<Effect> := if st.thread then [StopCamera] else [];
    LongPressBroadcasts(p, stop);
  }
}
