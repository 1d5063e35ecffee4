/**
  The state kept by the alarm's main loop across frames: whether the intruder
  email was already sent for the current detection episode (`sent_email`),
  the beep thread's stop flag (`stop_beep`), and whether the beep thread is
  alive. Pose detection reduces each frame to one presence boolean; the email
  thread is an emitted "notify" event; joining the beep thread is a
  synchronous stop.
 */
module AlarmMonitor {
  import opened Wrappers

  // ---------------------------------------------------------------------------
  // One frame
  // ---------------------------------------------------------------------------

  datatype MonitorState = MonitorState(sentEmail: bool, stopBeep: bool, alarmRunning: bool)

  /** No email sent yet, stop flag clear, no beep thread. */
  const Initial := MonitorState(false, false, false)

  /** A running alarm has never been asked to stop: every stop request is followed by a join. */
  predicate Consistent(s: MonitorState)
  {
    s.alarmRunning ==> !s.stopBeep
  }

  /** What one frame made the loop do: start an email thread, start the beep thread, join it. */
  datatype Effects = Effects(notify: bool, alarmStarted: bool, alarmJoined: bool)

  datatype StepResult = StepResult(next: MonitorState, effects: Effects)

  /** Set the stop flag and join the beep thread if it is alive. */
  function StopAlarm(s: MonitorState): StepResult
  {
    StepResult(s.(stopBeep := true, alarmRunning := false), Effects(false, false, s.alarmRunning))
  }

  /** The detection branch of the loop for one frame. */
  function Step(s: MonitorState, present: bool): StepResult
  {
    if present then
      var notify := !s.sentEmail;
      var start := !s.alarmRunning;
      StepResult(
        MonitorState(true, if start then false else s.stopBeep, true),
        Effects(notify, start, false))
    else
      var stopped := StopAlarm(s);
      StepResult(stopped.next.(sentEmail := false), stopped.effects)
  }

  /**
    A present frame emits a notification exactly when none was sent for the
    episode, starts the alarm exactly when it is not running, and leaves the
    email flag set, the alarm running and its stop flag clear; an absent frame
    joins a running alarm and leaves the email flag clear, the alarm stopped
    and its stop flag set. Consistency is kept.
   */
  lemma StepSpec(s: MonitorState, present: bool)
    requires Consistent(s)
    ensures var r := Step(s, present);
      && Consistent(r.next)
      && (r.effects.notify <==> present && !s.sentEmail)
      && (r.effects.alarmStarted <==> present && !s.alarmRunning)
      && (r.effects.alarmJoined <==> !present && s.alarmRunning)
      && r.next == MonitorState(present, !present, present)
  {
  }

  /** Seeing a person on two frames in a row: the second frame does nothing new. */
  lemma PresentTwiceIsIdempotent(s: MonitorState)
    ensures var once := Step(s, true).next;
      && Step(once, true).next == once
      && !Step(once, true).effects.notify
      && !Step(once, true).effects.alarmStarted
  {
  }

  // ---------------------------------------------------------------------------
  // The loop's mutable state
  // ---------------------------------------------------------------------------

  class Monitor {
    var sentEmail: bool
    var stopBeep: bool
    var alarmRunning: bool

    function State(): MonitorState
      reads this
    {
      MonitorState(sentEmail, stopBeep, alarmRunning)
    }

    constructor ()
      ensures State() == Initial
    {
      sentEmail, stopBeep, alarmRunning := false, false, false;
    }

    /** Stop the alarm and wait for it: set the flag, then join the beep thread if alive. */
    method Stop() returns (joined: bool)
      modifies this
      ensures StopAlarm(old(State())) == StepResult(State(), Effects(false, false, joined))
    {
      stopBeep := true;
      joined := alarmRunning;
      if alarmRunning {
        alarmRunning := false;
      }
    }

    /** Handle one frame in which a person is, or is not, detected. */
    method ObserveFrame(present: bool) returns (effects: Effects)
      modifies this
      ensures Step(old(State()), present) == StepResult(State(), effects)
    {
      var notify, started, joined := false, false, false;
      if present {
        if !sentEmail {
          notify := true;
          sentEmail := true;
        }
        if !alarmRunning {
          stopBeep := false;
          alarmRunning := true;
          started := true;
        }
      } else {
        joined := Stop();
        sentEmail := false;
      }
      effects := Effects(notify, started, joined);
    }
  }

  // ---------------------------------------------------------------------------
  // The loop over the frames of the capture
  // ---------------------------------------------------------------------------

  /** One read from the camera: a failed read, or a frame with its presence and quit-key results. */
  datatype Frame = ReadFailed | Captured(present: bool, quitKey: bool)

  /** The capture was closed (the frames ran out), a read failed, or `q` was pressed. */
  datatype ExitReason = CaptureClosed | ReadFailure | QuitKey

  /**
    What the loop has done so far: its state, the indices of the frames that
    started an email, the alarm state after each processed frame, and the exit
    taken, if any.
   */
  datatype Progress = Progress(
    state: MonitorState, notified: seq<nat>, alarmAfter: seq<bool>, exit: Option<ExitReason>)

  /** One iteration of the loop on frame `f`; its index is the number of frames processed. */
  function Advance(p: Progress, f: Frame): Progress
  {
    match f
    case ReadFailed => p.(exit := Some(ReadFailure))
    case Captured(present, quit) =>
      var k := |p.alarmAfter|;
      var r := Step(p.state, present);
      var notified := if r.effects.notify then p.notified + [k] else p.notified;
      var s := if quit then StopAlarm(r.next).next else r.next;
      Progress(s, notified, p.alarmAfter + [s.alarmRunning], if quit then Some(QuitKey) else None)
  }

  /** The loop fed the given frames; frames after an exit are never read. */
  function Feed(frames: seq<Frame>): Progress
  {
    if frames == [] then Progress(Initial, [], [], None)
    else
      var p := Feed(frames[..|frames| - 1]);
      if p.exit.Some? then p else Advance(p, frames[|frames| - 1])
  }

  /** The record of a whole run of the loop. */
  datatype Trace = Trace(notified: seq<nat>, alarmAfter: seq<bool>, exit: ExitReason, final: MonitorState)

  function Run(frames: seq<Frame>): Trace
  {
    var p := Feed(frames);
    Trace(p.notified, p.alarmAfter, if p.exit.Some? then p.exit.value else CaptureClosed, p.state)
  }

  /** Once the loop has exited, later frames change nothing. */
  lemma {:induction false} ExitIsFinal(frames: seq<Frame>, n: nat)
    requires n <= |frames| && Feed(frames[..n]).exit.Some?
    ensures Feed(frames) == Feed(frames[..n])
    decreases |frames| - n
  {
    if n < |frames| {
      assert frames[..n + 1][..n] == frames[..n];
      ExitIsFinal(frames, n + 1);
    } else {
      assert frames[..n] == frames;
    }
  }

  /**
    The main loop: read frames until the capture closes, a read fails or the
    quit key is pressed, recording where emails start and the alarm state.
   */
  method RunMonitor(frames: seq<Frame>) returns (trace: Trace)
    ensures trace == Run(frames)
  {
    var monitor := new Monitor();
    var notified: seq<nat> := [];
    var alarmAfter: seq<bool> := [];
    var exit: Option<ExitReason> := None;
    var i := 0;
    while i < |frames| && exit.None?
      invariant 0 <= i <= |frames|
      invariant exit.None? ==> |alarmAfter| == i
      invariant Feed(frames[..i]) == Progress(monitor.State(), notified, alarmAfter, exit)
    {
      assert frames[..i + 1][..i] == frames[..i];
      match frames[i] {
        case ReadFailed =>
          exit := Some(ReadFailure);
        case Captured(present, quit) =>
          var effects := monitor.ObserveFrame(present);
          if effects.notify {
            notified := notified + [i];
          }
          if quit {
            var _ := monitor.Stop();
            exit := Some(QuitKey);
          }
          alarmAfter := alarmAfter + [monitor.alarmRunning];
      }
      i := i + 1;
    }
    if exit.Some? {
      ExitIsFinal(frames, i);
    } else {
      assert frames[..i] == frames;
    }
    trace := Trace(notified, alarmAfter, if exit.Some? then exit.value else CaptureClosed, monitor.State());
  }

  // ---------------------------------------------------------------------------
  // Properties of the loop
  // ---------------------------------------------------------------------------

  /** Frame `k` is the first of a run of frames in which a person is seen. */
  predicate RisingEdge(frames: seq<Frame>, k: int)
  {
    && 0 <= k < |frames|
    && frames[k].Captured? && frames[k].present
    && (k == 0 || (frames[k - 1].Captured? && !frames[k - 1].present))
  }

  /**
    What holds after any number of iterations: every processed frame was read
    successfully and only the last may carry the quit key; while the loop runs,
    the email flag and the alarm both follow the last frame; a read failure is
    the frame after the processed ones; after the quit key the alarm is
    stopped; and a running alarm never has its stop flag set.
   */
  lemma {:induction false} LoopInvariant(frames: seq<Frame>)
    ensures var p := Feed(frames);
      && Consistent(p.state)
      && p.exit != Some(CaptureClosed)
      && |p.alarmAfter| <= |frames|
      && (forall k :: 0 <= k < |p.alarmAfter| ==> frames[k].Captured?)
      && (forall k :: 0 <= k < |p.alarmAfter| && frames[k].quitKey ==>
            p.exit == Some(QuitKey) && k == |p.alarmAfter| - 1)
      && (p.exit.None? ==>
            && |p.alarmAfter| == |frames|
            && p.state.sentEmail == p.state.alarmRunning == (|frames| > 0 && frames[|frames| - 1].present))
      && (p.exit == Some(ReadFailure) ==> |p.alarmAfter| < |frames| && frames[|p.alarmAfter|].ReadFailed?)
      && (p.exit == Some(QuitKey) ==>
            && 0 < |p.alarmAfter|
            && frames[|p.alarmAfter| - 1].quitKey
            && !p.state.alarmRunning && p.state.stopBeep)
  {
    if frames != [] {
      LoopInvariant(frames[..|frames| - 1]);
    }
  }

  /**
    Emails start exactly on the first frame of each run of frames with a
    person in it: never twice in one run, and again after any absent frame.
   */
  lemma {:induction false} NotifiedAtRisingEdges(frames: seq<Frame>)
    ensures forall k :: k in Run(frames).notified <==>
      k < |Run(frames).alarmAfter| && RisingEdge(frames, k)
  {
    if frames != [] {
      var last := |frames| - 1;
      var init := frames[..last];
      NotifiedAtRisingEdges(init);
      LoopInvariant(init);
      var p := Feed(init);
      assert forall k :: 0 <= k < last ==> RisingEdge(init, k) == RisingEdge(frames, k);
      if p.exit.None? && frames[last].Captured? {
        var r := Step(p.state, frames[last].present);
        assert r.effects.notify == RisingEdge(frames, last);
        assert forall k :: k in Run(frames).notified <==> k in p.notified || (k == last && r.effects.notify);
      }
    }
  }

  /** Emails are recorded in frame order, each frame at most once. */
  lemma {:induction false} NotifiedIncreasing(frames: seq<Frame>)
    ensures forall a, b :: 0 <= a < b < |Run(frames).notified| ==>
      Run(frames).notified[a] < Run(frames).notified[b]
  {
    if frames != [] {
      var init := frames[..|frames| - 1];
      NotifiedIncreasing(init);
      NotifiedAtRisingEdges(init);
      var p := Feed(init);
      assert p.notified == Run(init).notified;
      assert forall k :: k in p.notified ==> k < |p.alarmAfter|;
      var n := Run(frames).notified;
      assert n == p.notified || n == p.notified + [|p.alarmAfter|];
      forall a, b | 0 <= a < b < |n| ensures n[a] < n[b] {
        if b == |p.notified| {
          assert n[a] == p.notified[a] && p.notified[a] in p.notified;
        }
      }
    }
  }

  /**
    At most one email per detection episode: between any two emails lies a
    frame in which nobody was seen.
   */
  lemma OneEmailPerEpisode(frames: seq<Frame>)
    ensures forall a, b :: 0 <= a < b < |Run(frames).notified| ==>
      var (i, j) := (Run(frames).notified[a], Run(frames).notified[b]);
      i + 1 < j && j < |frames| && frames[j - 1].Captured? && !frames[j - 1].present
  {
    var t := Run(frames);
    NotifiedIncreasing(frames);
    NotifiedAtRisingEdges(frames);
    forall a, b | 0 <= a < b < |t.notified|
      ensures var (i, j) := (t.notified[a], t.notified[b]);
        i + 1 < j && j < |frames| && frames[j - 1].Captured? && !frames[j - 1].present
    {
      var (i, j) := (t.notified[a], t.notified[b]);
      assert i in t.notified && j in t.notified;
      assert RisingEdge(frames, i) && RisingEdge(frames, j);
    }
  }

  /**
    After each processed frame the alarm is sounding exactly when a person was
    seen and the quit key was not pressed.
   */
  lemma {:induction false} AlarmFollowsPresence(frames: seq<Frame>)
    ensures forall k :: 0 <= k < |Run(frames).alarmAfter| ==>
      && k < |frames| && frames[k].Captured?
      && (Run(frames).alarmAfter[k] <==> frames[k].present && !frames[k].quitKey)
  {
    LoopInvariant(frames);
    if frames != [] {
      var init := frames[..|frames| - 1];
      AlarmFollowsPresence(init);
      LoopInvariant(init);
    } else {
      assert Run(frames).alarmAfter == [];
    }
  }

  /**
    A failed read ends the loop: nothing recorded or changed by the frames
    before it is altered, and no later frame is read.
   */
  lemma ReadFailureEndsLoop(before: seq<Frame>, after: seq<Frame>)
    requires Run(before).exit == CaptureClosed
    ensures Run(before + [ReadFailed] + after) == Run(before).(exit := ReadFailure)
  {
    LoopInvariant(before);
    var frames := before + [ReadFailed] + after;
    var n := |before| + 1;
    assert frames[..n] == before + [ReadFailed];
    assert frames[..n][..|before|] == before;
    ExitIsFinal(frames, n);
  }

  /**
    How the loop ends: with every frame processed when the capture closes, on
    the failed read, or on the frame where `q` was pressed, with the alarm
    then stopped and its stop flag set.
   */
  lemma ExitReasons(frames: seq<Frame>)
    ensures var t := Run(frames);
      && |t.alarmAfter| <= |frames|
      && (t.exit == CaptureClosed ==>
            && |t.alarmAfter| == |frames|
            && forall k :: 0 <= k < |frames| ==> frames[k].Captured? && !frames[k].quitKey)
      && (t.exit == ReadFailure ==> |t.alarmAfter| < |frames| && frames[|t.alarmAfter|] == ReadFailed)
      && (t.exit == QuitKey ==>
            && 0 < |t.alarmAfter|
            && frames[|t.alarmAfter| - 1].Captured? && frames[|t.alarmAfter| - 1].quitKey
            && !t.final.alarmRunning && t.final.stopBeep)
  {
    LoopInvariant(frames);
  }

  /** The frames of a capture in which `q` is never pressed. */
  function PresenceFrames(presence: seq<bool>): seq<Frame>
  {
    seq(|presence|, k requires 0 <= k < |presence| => Captured(presence[k], false))
  }

  /**
    Absent, present, present, absent, present: emails start on the second and
    the fifth frame, and the alarm sounds during frames two, three and five.
   */
  lemma TwoEpisodes()
    ensures var t := Run(PresenceFrames([false, true, true, false, true]));
      && t.notified == [1, 4]
      && t.alarmAfter == [false, true, true, false, true]
      && t.exit == CaptureClosed
  {
    var frames := PresenceFrames([false, true, true, false, true]);
    var absent, present := Captured(false, false), Captured(true, false);
    assert frames == [absent, present, present, absent, present];
    forall k | 0 <= k < 5 ensures frames[..k + 1][..k] == frames[..k] { }
    assert Feed(frames[..1]) == Progress(MonitorState(false, true, false), [], [false], None);
    assert Feed(frames[..2]) == Progress(MonitorState(true, false, true), [1], [false, true], None);
    assert Feed(frames[..3]) == Progress(MonitorState(true, false, true), [1], [false, true, true], None);
    assert Feed(frames[..4]) == Progress(MonitorState(false, true, false), [1], [false, true, true, false], None);
    assert frames[..5] == frames;
  }
}
