/**
 The state machine of an unlinked PCM stream. Every operation is a pre/do/undo/post quadruple; `Step` is
 what an operation amounts to, the class is how the callbacks get there, and the question throughout is
 whether the DMA is active exactly when the state says so.
 */
module PcmStream {
  import opened Words
  import opened PcmStates

  /** `snd_pcm_running` */
  predicate IsRunning(playback: bool, s: State) {
    s.Running? || (s.Draining? && playback)
  }

  /** What the hardware can do, and its direction. */
  datatype Device = Device(playback: bool, canPause: bool, canResume: bool)

  datatype Status = Status(state: State, suspended: State, dma: bool)

  /** The DMA is active exactly when the stream counts as running. */
  predicate Agrees(d: Device, s: Status) {
    s.dma <==> IsRunning(d.playback, s.state)
  }

  /** What an operation meets: whether there are frames to play or to read, whether the driver accepts a
      trigger that starts or pauses the DMA, and whether its prepare and reset callbacks work. */
  datatype Env = Env(hasData: bool, accepts: bool, callbackOk: bool)

  /** Requests by the application, and stops by the kernel. */
  datatype Op =
    | StartOp
    | StopOp(xrun: bool)
    | PauseOp(push: bool)
    | SuspendOp
    | ResumeOp
    | PrepareOp
    | ResetOp
    | XrunOp
    | DrainOp
    | DropOp

  // ---------------------------------------------------------------- what operations amount to

  function Stopped(d: Device, s: Status, target: State): Status {
    if s.state.Open? then s
    else Status(target, s.suspended, s.dma && !IsRunning(d.playback, s.state))
  }

  function Released(d: Device, s: Status, env: Env): Status {
    if d.canPause && s.state.Paused? && env.accepts then Status(Running, s.suspended, true) else s
  }

  function Drained(d: Device, s: Status, env: Env): Status {
    if d.playback then
      match s.state
      case Prepared => if env.hasData then Status(Draining, s.suspended, s.dma || env.accepts) else s
      case Running => s.(state := Draining)
      case _ => s
    else
      if s.state.Running? then Status(if env.hasData then Draining else Setup, s.suspended, false) else s
  }

  function Step(d: Device, s: Status, op: Op, env: Env): Status {
    match op
    case StartOp =>
      if s.state.Prepared? && (d.playback ==> env.hasData)
      then (if env.accepts then Status(Running, s.suspended, true) else s.(dma := false)) else s
    case StopOp(xrun) => Stopped(d, s, if xrun then Xrun else Setup)
    case PauseOp(push) =>
      if push then (if d.canPause && s.state.Running? && env.accepts then Status(Paused, s.suspended, false) else s)
      else Released(d, s, env)
    case SuspendOp =>
      if s.state.Suspended? then s
      else Status(Suspended, s.state, s.dma && !IsRunning(d.playback, s.state))
    case ResumeOp =>
      if !d.canResume then s
      else if !IsRunning(d.playback, s.suspended) then s.(state := s.suspended)
      else if env.accepts then Status(s.suspended, s.suspended, true)
      else s.(dma := s.dma && !IsRunning(d.playback, s.state))
    case PrepareOp =>
      if s.state.Open? || s.state.Disconnected? || IsRunning(d.playback, s.state) || !env.callbackOk then s
      else s.(state := Prepared)
    case ResetOp => s
    case XrunOp => if s.state.Running? then Stopped(d, s, Xrun) else s
    case DrainOp =>
      if s.state.Open? then s else Drained(d, Released(d, s, env), env)
    case DropOp =>
      if s.state.Open? || s.state.Disconnected? || s.state.Suspended? then s
      else Stopped(d, Released(d, s, env), Setup)
  }

  // ---------------------------------------------------------------- agreement

  /** The ways to make state and DMA disagree. Resuming a running stream either replaces its state by a
      stale one that is not running, or, when the driver refuses, stops its DMA as the undo; draining a
      prepared stream ignores that the driver refused to start. */
  predicate Breaks(d: Device, s: Status, op: Op, env: Env) {
    || (op.ResumeOp? && d.canResume && IsRunning(d.playback, s.state) &&
        (!IsRunning(d.playback, s.suspended) || !env.accepts))
    || (op.DrainOp? && d.playback && s.state.Prepared? && env.hasData && !env.accepts)
  }

  /** An operation keeps the agreement if and only if it is not one of those. */
  lemma StepAgreesIff(d: Device, s: Status, op: Op, env: Env)
    requires Agrees(d, s)
    ensures Agrees(d, Step(d, s, op, env)) <==> !Breaks(d, s, op, env)
  {
  }

  // What each operation makes of a stream whose state and DMA agree, by state, direction and environment.

  lemma StartMeans(d: Device, s: Status, env: Env)
    requires Agrees(d, s)
    ensures var t := Step(d, s, StartOp, env);
            var starts := s.state == Prepared && (!d.playback || env.hasData) && env.accepts;
            t == if starts then Status(Running, s.suspended, true) else s
  {
  }

  /** A stop, and a drop unless the stream is not there or suspended, end in their state with the DMA idle. */
  lemma StopMeans(d: Device, s: Status, env: Env)
    requires Agrees(d, s)
    ensures Step(d, s, StopOp(false), env) == if s.state == Open then s else Status(Setup, s.suspended, false)
    ensures Step(d, s, StopOp(true), env) == if s.state == Open then s else Status(Xrun, s.suspended, false)
    ensures Step(d, s, XrunOp, env) == if s.state == Running then Status(Xrun, s.suspended, false) else s
    ensures Step(d, s, DropOp, env) ==
            if s.state == Open || s.state == Disconnected || s.state == Suspended then s else Status(Setup, s.suspended, false)
  {
  }

  lemma PauseMeans(d: Device, s: Status, env: Env)
    requires Agrees(d, s)
    ensures Step(d, s, PauseOp(true), env) ==
            if s.state == Running && d.canPause && env.accepts then Status(Paused, s.suspended, false) else s
    ensures Step(d, s, PauseOp(false), env) ==
            if s.state == Paused && d.canPause && env.accepts then Status(Running, s.suspended, true) else s
  {
  }

  /** A suspended stream resumes in the state it was suspended in, and with its DMA as it was; the driver has a say only if
      that has to be started again. */
  lemma SuspendMeans(d: Device, s: Status, env: Env)
    requires Agrees(d, s)
    ensures Step(d, s, SuspendOp, env) == if s.state == Suspended then s else Status(Suspended, s.state, false)
    ensures s.state == Suspended ==>
              var ran := s.suspended == Running || (s.suspended == Draining && d.playback);
              Step(d, s, ResumeOp, env) ==
              if d.canResume && (env.accepts || !ran) then Status(s.suspended, s.suspended, ran) else s
    ensures !d.canResume ==> Step(d, s, ResumeOp, env) == s
  {
  }

  lemma PrepareMeans(d: Device, s: Status, env: Env)
    requires Agrees(d, s)
    ensures var runs := s.state == Running || (s.state == Draining && d.playback);
            Step(d, s, PrepareOp, env) ==
            if s.state == Open || s.state == Disconnected || runs || !env.callbackOk then s
            else Status(Prepared, s.suspended, false)
    ensures Step(d, s, ResetOp, env) == s
  {
  }

  /** A playback stream that runs, or can be released from a pause, goes on until it is drained, and a prepared one with
      data counts as draining whether its driver accepts the start or not. A capture stream stops at once, and is set up
      unless there is something left to read. No stream keeps running, and nothing else changes. */
  lemma DrainMeans(d: Device, s: Status, env: Env)
    requires Agrees(d, s)
    ensures var runs := s.state == Running || (s.state == Paused && d.canPause && env.accepts);
            Step(d, s, DrainOp, env) ==
            if runs && d.playback then Status(Draining, s.suspended, true)
            else if runs then Status(if env.hasData then Draining else Setup, s.suspended, false)
            else if s.state == Prepared && d.playback && env.hasData then Status(Draining, s.suspended, env.accepts)
            else s
    ensures Step(d, s, DrainOp, env).state != Running
  {
  }

  datatype Event = Event(op: Op, env: Env)

  /** The status after a sequence of operations. */
  function After(d: Device, s: Status, run: seq<Event>): Status
    decreases |run|
  {
    if run == [] then s else After(d, Step(d, s, run[0].op, run[0].env), run[1..])
  }

  lemma {:induction false} AfterMore(d: Device, s: Status, run: seq<Event>, e: Event)
    ensures After(d, s, run + [e]) == Step(d, After(d, s, run), e.op, e.env)
    decreases |run|
  {
    if run != [] {
      AfterMore(d, Step(d, s, run[0].op, run[0].env), run[1..], e);
      assert (run + [e])[1..] == run[1..] + [e];
    }
  }

  // A stream that has just been set up, on hardware that can do everything, in an environment without trouble.
  const ANY_DEVICE := Device(true, true, true)
  const FRESH := Status(Setup, Open, false)
  const FINE := Env(true, true, true)

  /** Prepared, suspended and resumed, a stream remembers that it was prepared. When it runs, one more resume makes
      it prepared again, with its DMA active. */
  lemma StaleResumeBreaks()
    ensures var run := [Event(PrepareOp, FINE), Event(SuspendOp, FINE), Event(ResumeOp, FINE), Event(StartOp, FINE)];
            && Agrees(ANY_DEVICE, FRESH)
            && After(ANY_DEVICE, FRESH, run) == Status(Running, Prepared, true)
            && After(ANY_DEVICE, FRESH, run + [Event(ResumeOp, FINE)]) == Status(Prepared, Prepared, true)
            && Breaks(ANY_DEVICE, After(ANY_DEVICE, FRESH, run), ResumeOp, FINE)
  {
    var prepare, suspend, resume, start := Event(PrepareOp, FINE), Event(SuspendOp, FINE), Event(ResumeOp, FINE), Event(StartOp, FINE);
    AfterMore(ANY_DEVICE, FRESH, [], prepare);
    AfterMore(ANY_DEVICE, FRESH, [prepare], suspend);
    AfterMore(ANY_DEVICE, FRESH, [prepare, suspend], resume);
    AfterMore(ANY_DEVICE, FRESH, [prepare, suspend, resume], start);
    AfterMore(ANY_DEVICE, FRESH, [prepare, suspend, resume, start], resume);
    assert [] + [prepare] == [prepare] && [prepare] + [suspend] == [prepare, suspend];
    assert [prepare, suspend] + [resume] == [prepare, suspend, resume];
    assert [prepare, suspend, resume] + [start] == [prepare, suspend, resume, start];
  }

  /** A prepared stream with data whose start the driver refuses counts as draining, with its DMA idle. */
  lemma RefusedDrainBreaks()
    ensures var run := [Event(PrepareOp, FINE)];
            var refusing := FINE.(accepts := false);
            && After(ANY_DEVICE, FRESH, run) == Status(Prepared, Open, false)
            && After(ANY_DEVICE, FRESH, run + [Event(DrainOp, refusing)]) == Status(Draining, Open, false)
            && Breaks(ANY_DEVICE, After(ANY_DEVICE, FRESH, run), DrainOp, refusing)
  {
    AfterMore(ANY_DEVICE, FRESH, [], Event(PrepareOp, FINE));
    AfterMore(ANY_DEVICE, FRESH, [Event(PrepareOp, FINE)], Event(DrainOp, FINE.(accepts := false)));
    assert [] + [Event(PrepareOp, FINE)] == [Event(PrepareOp, FINE)];
  }

  /** The discipline of a well-behaved system: triggers succeed where their result is ignored, and only
      suspended streams are resumed. */
  predicate Disciplined(d: Device, s: Status, run: seq<Event>)
    decreases |run|
  {
    run == [] ||
    (&& (run[0].op.ResumeOp? ==> s.state.Suspended?)
     && (run[0].op.DrainOp? ==> run[0].env.accepts)
     && Disciplined(d, Step(d, s, run[0].op, run[0].env), run[1..]))
  }

  /** A run breaks the agreement nowhere. */
  predicate Unbroken(d: Device, s: Status, run: seq<Event>)
    decreases |run|
  {
    run == [] || (!Breaks(d, s, run[0].op, run[0].env) && Unbroken(d, Step(d, s, run[0].op, run[0].env), run[1..]))
  }

  /** The agreement holds after every prefix of a run exactly when no step of the run breaks it. */
  lemma {:induction false} RunAgreesIff(d: Device, s: Status, run: seq<Event>)
    requires Agrees(d, s)
    ensures (forall n :: 0 <= n <= |run| ==> Agrees(d, After(d, s, run[..n]))) <==> Unbroken(d, s, run)
    decreases |run|
  {
    if run != [] {
      var t := Step(d, s, run[0].op, run[0].env);
      StepAgreesIff(d, s, run[0].op, run[0].env);
      forall n | 1 <= n <= |run| ensures After(d, s, run[..n]) == After(d, t, run[1..][..n - 1]) {
        assert run[..n][1..] == run[1..][..n - 1];
      }
      assert After(d, s, run[..1]) == t;
      if Agrees(d, t) {
        RunAgreesIff(d, t, run[1..]);
        if Unbroken(d, s, run) {
          forall n | 0 <= n <= |run| ensures Agrees(d, After(d, s, run[..n])) {
            if n > 0 { assert After(d, s, run[..n]) == After(d, t, run[1..][..n - 1]); }
          }
        } else {
          var n :| 0 <= n <= |run[1..]| && !Agrees(d, After(d, t, run[1..][..n]));
          assert run[1..][..n] == run[1..][..n + 1 - 1];
          assert !Agrees(d, After(d, s, run[..n + 1]));
        }
      }
    }
  }

  lemma {:induction false} DisciplinedIsUnbroken(d: Device, s: Status, run: seq<Event>)
    requires Disciplined(d, s, run)
    ensures Unbroken(d, s, run)
    decreases |run|
  {
    if run != [] {
      DisciplinedIsUnbroken(d, Step(d, s, run[0].op, run[0].env), run[1..]);
    }
  }

  /** All runs of a well-behaved system keep state and DMA together. */
  lemma DisciplinedRunsAgree(d: Device, s: Status, run: seq<Event>)
    requires Agrees(d, s) && Disciplined(d, s, run)
    ensures Agrees(d, After(d, s, run))
  {
    DisciplinedIsUnbroken(d, s, run);
    RunAgreesIff(d, s, run);
    assert run[..|run|] == run;
  }

  /** Suspending and resuming is the identity on state and DMA, whatever the stream was doing. */
  lemma SuspendResume(d: Device, s: Status, env: Env, env': Env)
    requires Agrees(d, s) && !s.state.Suspended? && d.canResume && env'.accepts
    ensures var t := Step(d, Step(d, s, SuspendOp, env), ResumeOp, env');
            t.state == s.state && t.dma == s.dma
    ensures !Step(d, s, SuspendOp, env).dma
  {
  }

  /** A resume that the driver refuses leaves the stream suspended, to be resumed or prepared later. */
  lemma RefusedResume(d: Device, s: Status, env: Env)
    requires s.state.Suspended? && !env.accepts && IsRunning(d.playback, s.suspended)
    ensures Step(d, s, ResumeOp, env) == s
  {
  }

  // ---------------------------------------------------------------- the callbacks

  datatype Trigger = Start | Stop | PausePush | PauseRelease | Suspend | Resume

  /** The tables of callbacks, `struct action_ops`. */
  datatype Action =
    | StartAction(target: State)
    | StopAction(target: State)
    | PauseAction(push: bool)
    | SuspendAction
    | ResumeAction
    | ResetAction
    | PrepareAction
    | DrainInitAction

  class Stream {
    const d: Device
    var state: State
    var suspendedState: State
    var triggerMaster: bool  // whether `trigger_master` is this stream
    var dma: bool            // what the device is doing

    constructor (d: Device)
      ensures this.d == d && Current() == Status(Open, Open, false) && Agrees(d, Current())
    {
      this.d := d;
      state, suspendedState, triggerMaster, dma := Open, Open, false, false;
    }

    function Current(): Status
      reads this
    {
      Status(state, suspendedState, dma)
    }

    /** The driver's trigger callback. Starting, resuming and both directions of pausing can be refused,
        without effect; stopping and suspending cannot. */
    method CallTrigger(t: Trigger, env: Env) returns (ret: int)
      modifies this`dma
      ensures ret == if env.accepts || t.Stop? || t.Suspend? then 0 else IO
      ensures dma == if ret == 0 then t.Start? || t.Resume? || t.PauseRelease? else old(dma)
    {
      if !env.accepts && !t.Stop? && !t.Suspend? {
        return IO;
      }
      dma := t.Start? || t.Resume? || t.PauseRelease?;
      return 0;
    }

    method Pre(a: Action, env: Env) returns (res: int)
      modifies this`triggerMaster
      ensures Allowed(a, env) <==> res == 0
      ensures res == match a
                     case StartAction(_) => (if state != Prepared then BADFD else if d.playback && !env.hasData then PIPE else 0)
                     case StopAction(_) => (if state == Open then BADFD else 0)
                     case PauseAction(push) =>
                       (if !d.canPause then NOSYS else if state != (if push then Running else Paused) then BADFD else 0)
                     case SuspendAction => (if state == Suspended then BUSY else 0)
                     case ResumeAction => (if !d.canResume then NOSYS else 0)
                     case ResetAction =>
                       (if state == Running || state == Prepared || state == Paused || state == Suspended then 0 else BADFD)
                     case PrepareAction =>
                       (if state == Open || state == Disconnected then BADFD
                        else if state == Running || (state == Draining && d.playback) then BUSY else 0)
                     case DrainInitAction => 0
      ensures res == 0 && !a.ResetAction? && !a.PrepareAction? ==> triggerMaster
    {
      match a {
      case StartAction(_) =>
        if state != Prepared { return BADFD; }
        if d.playback && !env.hasData { return PIPE; }
      case StopAction(_) =>
        if state == Open { return BADFD; }
      case PauseAction(push) =>
        if !d.canPause { return NOSYS; }
        if push {
          if state != Running { return BADFD; }
        } else if state != Paused {
          return BADFD;
        }
      case SuspendAction =>
        if state == Suspended { return BUSY; }
      case ResumeAction =>
        if !d.canResume { return NOSYS; }
      case ResetAction =>
        if state == Running || state == Prepared || state == Paused || state == Suspended { return 0; }
        return BADFD;
      case PrepareAction =>
        if state == Open || state == Disconnected { return BADFD; }
        if IsRunning(d.playback, state) { return BUSY; }
        return 0;
      case DrainInitAction =>
      }
      triggerMaster := true;
      return 0;
    }

    predicate Allowed(a: Action, env: Env)
      reads this
    {
      match a
      case StartAction(_) => state.Prepared? && (d.playback ==> env.hasData)
      case StopAction(_) => !state.Open?
      case PauseAction(push) => d.canPause && if push then state.Running? else state.Paused?
      case SuspendAction => !state.Suspended?
      case ResumeAction => d.canResume
      case ResetAction => state.Running? || state.Prepared? || state.Paused? || state.Suspended?
      case PrepareAction => !state.Open? && !state.Disconnected? && !IsRunning(d.playback, state)
      case DrainInitAction => true
    }

    method DoStart(env: Env) returns (res: int)
      modifies this`dma
      ensures res == if triggerMaster && !env.accepts then IO else 0
      ensures dma == (old(dma) || (triggerMaster && env.accepts))
    {
      if !triggerMaster { return 0; }
      res := CallTrigger(Start, env);
    }

    method DoStop(env: Env)
      modifies this`dma
      ensures dma == (old(dma) && !(triggerMaster && IsRunning(d.playback, state)))
    {
      if triggerMaster && IsRunning(d.playback, state) {
        var _ := CallTrigger(Stop, env);
      }
    }

    method PostStop(target: State)
      modifies this`state, this`triggerMaster
      ensures state == target
    {
      if state != target {
        triggerMaster := false;
        state := target;
      }
    }

    method Do(a: Action, env: Env) returns (res: int)
      requires !a.ResetAction? && !a.PrepareAction? ==> triggerMaster
      modifies this
      ensures suspendedState == old(suspendedState) && res <= 0
      ensures !a.DrainInitAction? ==> triggerMaster == old(triggerMaster) && state == old(state)
      ensures a.StartAction? ==> res == (if env.accepts then 0 else IO) && dma == (old(dma) || env.accepts)
      ensures a.StopAction? || a.SuspendAction? ==> res == 0 && dma == (old(dma) && !IsRunning(d.playback, state))
      ensures a.PauseAction? ==> res == (if env.accepts then 0 else IO) && dma == if env.accepts then !a.push else old(dma)
      ensures a.ResumeAction? ==>
                res == (if env.accepts || !IsRunning(d.playback, suspendedState) then 0 else IO) &&
                dma == (old(dma) || (env.accepts && IsRunning(d.playback, suspendedState)))
      ensures a.ResetAction? || a.PrepareAction? ==> res == (if env.callbackOk then 0 else IO) && dma == old(dma)
      ensures a.DrainInitAction? ==> res == 0 && Current() == Drained(d, old(Current()), env)
    {
      match a
      case StartAction(_) => res := DoStart(env);
      case StopAction(_) => DoStop(env); res := 0;
      case PauseAction(push) =>
        if !triggerMaster { return 0; }
        res := CallTrigger(if push then PausePush else PauseRelease, env);
      case SuspendAction =>
        if !triggerMaster { return 0; }
        if !IsRunning(d.playback, state) { return 0; }
        var _ := CallTrigger(Suspend, env);
        res := 0;
      case ResumeAction =>
        if !triggerMaster { return 0; }
        if suspendedState != Running && (suspendedState != Draining || !d.playback) { return 0; }
        res := CallTrigger(Resume, env);
      case ResetAction => res := if env.callbackOk then 0 else IO;
      case PrepareAction => res := if env.callbackOk then 0 else IO;
      case DrainInitAction =>
        if d.playback {
          if state == Prepared {
            if env.hasData {
              var _ := DoStart(env);
              triggerMaster := false;
              state := Draining;
            }
          } else if state == Running {
            state := Draining;
          }
        } else if state == Running {
          var target := if env.hasData then Draining else Setup;
          DoStop(env);
          PostStop(target);
        }
        res := 0;
    }

    method Undo(a: Action, env: Env)
      requires triggerMaster
      modifies this`dma
      ensures a.StartAction? ==> !dma
      ensures a.PauseAction? ==> dma == if env.accepts then a.push else old(dma)
      ensures a.ResumeAction? ==> dma == (old(dma) && !IsRunning(d.playback, state))
      ensures !a.StartAction? && !a.PauseAction? && !a.ResumeAction? ==> dma == old(dma)
    {
      match a
      case StartAction(_) =>
        if triggerMaster { var _ := CallTrigger(Stop, env); }
      case PauseAction(push) =>
        if triggerMaster { var _ := CallTrigger(if push then PauseRelease else PausePush, env); }
      case ResumeAction =>
        if triggerMaster && IsRunning(d.playback, state) { var _ := CallTrigger(Suspend, env); }
      case _ =>
    }

    method Post(a: Action)
      modifies this`state, this`suspendedState, this`triggerMaster
      ensures state == match a
                       case StartAction(t) => t
                       case StopAction(t) => t
                       case PauseAction(push) => (if push then Paused else Running)
                       case SuspendAction => Suspended
                       case ResumeAction => suspendedState
                       case PrepareAction => Prepared
                       case _ => old(state)
      ensures suspendedState == if a.SuspendAction? then old(state) else old(suspendedState)
    {
      match a
      case StartAction(t) => triggerMaster := false; state := t;
      case StopAction(t) => PostStop(t);
      case PauseAction(push) => triggerMaster := false; state := if push then Paused else Running;
      case SuspendAction => triggerMaster := false; suspendedState := state; state := Suspended;
      case ResumeAction => triggerMaster := false; state := suspendedState;
      case PrepareAction => state := Prepared;
      case ResetAction =>
      case DrainInitAction =>
    }

    /** Whether the driver goes along with an action that the state allows. */
    predicate Succeeds(a: Action, env: Env)
      reads this
    {
      match a
      case StartAction(_) => env.accepts
      case PauseAction(_) => env.accepts
      case ResumeAction => env.accepts || !IsRunning(d.playback, suspendedState)
      case ResetAction => env.callbackOk
      case PrepareAction => env.callbackOk
      case _ => true
    }

    /** `snd_pcm_action_single` */
    method ActionSingle(a: Action, env: Env) returns (res: int)
      modifies this
      ensures res <= 0
      ensures res == 0 <==> old(Allowed(a, env)) && old(Succeeds(a, env))
      ensures a == StartAction(Running) ==> Current() == Step(d, old(Current()), StartOp, env)
      ensures a.StopAction? ==> Current() == Stopped(d, old(Current()), a.target)
      ensures a.PauseAction? ==> Current() == Step(d, old(Current()), PauseOp(a.push), env)
      ensures a.SuspendAction? ==> Current() == Step(d, old(Current()), SuspendOp, env)
      ensures a.ResumeAction? ==> Current() == Step(d, old(Current()), ResumeOp, env)
      ensures a.PrepareAction? ==> Current() == Step(d, old(Current()), PrepareOp, env)
      ensures a.ResetAction? ==> Current() == old(Current())
      ensures a.DrainInitAction? ==> Current() == Drained(d, old(Current()), env)
    {
      res := Pre(a, env);
      if res < 0 {
        return;
      }
      res := Do(a, env);
      if res == 0 {
        Post(a);
      } else if !a.ResetAction? && !a.PrepareAction? {
        Undo(a, env);
      }
    }

    /** `snd_pcm_drain` up to the point where it starts to wait. */
    method Drain(env: Env) returns (res: int)
      modifies this
      ensures Current() == Step(d, old(Current()), DrainOp, env)
      ensures res == if old(state) == Open then BADFD else 0
      ensures old(Agrees(d, Current())) ==> state != Running
    {
      ghost var s := Current();
      if state == Open {
        return BADFD;
      }
      if state == Paused {
        var _ := ActionSingle(PauseAction(false), env);
      }
      res := ActionSingle(DrainInitAction, env);
      if Agrees(d, s) {
        DrainMeans(d, s, env);
      }
    }

    /** `snd_pcm_drop` */
    method Drop(env: Env) returns (res: int)
      modifies this
      ensures Current() == Step(d, old(Current()), DropOp, env)
      ensures res == if old(state) == Open || old(state) == Disconnected || old(state) == Suspended then BADFD else 0
      ensures res == 0 ==> state == Setup && (old(Agrees(d, Current())) ==> !dma)
    {
      if state == Open || state == Disconnected || state == Suspended {
        return BADFD;
      }
      if state == Paused {
        var _ := ActionSingle(PauseAction(false), env);
      }
      var _ := ActionSingle(StopAction(Setup), env);
      res := 0;
    }

    /** One operation through its callbacks amounts to one step. */
    method Perform(op: Op, env: Env)
      modifies this
      ensures Current() == Step(d, old(Current()), op, env)
    {
      match op
      case StartOp => var _ := ActionSingle(StartAction(Running), env);
      case StopOp(xrun) => var _ := ActionSingle(StopAction(if xrun then Xrun else Setup), env);
      case PauseOp(push) => var _ := ActionSingle(PauseAction(push), env);
      case SuspendOp => var _ := ActionSingle(SuspendAction, env);
      case ResumeOp => var _ := ActionSingle(ResumeAction, env);
      case PrepareOp => var _ := ActionSingle(PrepareAction, env);
      case ResetOp => var _ := ActionSingle(ResetAction, env);
      case XrunOp =>
        if state == Running {
          var _ := ActionSingle(StopAction(Xrun), env);
        }
      case DrainOp => var _ := Drain(env);
      case DropOp => var _ := Drop(env);
    }

    /** A whole run through the callbacks; if it is disciplined, state and DMA agree at its end. */
    method PerformAll(run: seq<Event>)
      modifies this
      ensures Current() == After(d, old(Current()), run)
      ensures old(Agrees(d, Current())) && Disciplined(d, old(Current()), run) ==> Agrees(d, Current())
    {
      ghost var s := Current();
      for i := 0 to |run|
        invariant After(d, Current(), run[i..]) == After(d, s, run)
      {
        assert run[i..][1..] == run[i + 1..];
        Perform(run[i].op, run[i].env);
      }
      if Agrees(d, s) && Disciplined(d, s, run) {
        DisciplinedRunsAgree(d, s, run);
      }
    }
  }
}
