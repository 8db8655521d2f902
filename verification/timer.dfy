/**
 The life of a CTimer (impl_timer.cpp): calls from any thread post tasks to the IO thread, which
 runs the tasks in order and calls the timer back when its event fires.  A step of the system is
 one call, one task, one firing of the event, or one Retain or Release by the user.
 */
module Timer {
  import opened Wrappers

  datatype Status = StatusNull | StatusInit | StatusBegin | StatusCommon | StatusEnd

  datatype Task = RealFini | RealWait(ms: nat)

  datatype Notice = TimerBegin | TimerOk | TimerEnd

  /** `struct timeval` */
  datatype TimeVal = TimeVal(sec: nat, usec: nat)

  // impl_timer.cpp:123-125
  function Delay(ms: nat): (t: TimeVal)
    ensures t.usec < 1_000_000 && t.sec * 1_000_000 + t.usec == ms * 1000
  {
    TimeVal(ms / 1000, ms % 1000 * 1000)
  }

  /** The fields of the timer, and what it owns elsewhere:
      `pending` is the delay of its event while that is armed, `listed` whether the IO server has
      the timer in its list, `queue` the posted tasks, `refs` the reference count of the timer,
      `held` the references of the user, `cbRefs` those of the timer on the callback, and `trace`
      the calls of On_Timer so far. */
  datatype State = State(
    status: Status,
    hasIo: bool,
    hasCb: bool,
    ms: nat,
    pending: Option<TimeVal>,
    listed: bool,
    queue: seq<Task>,
    refs: int,
    held: nat,
    cbRefs: int,
    trace: seq<Notice>
  )

  const START := State(StatusNull, false, false, 0, None, false, [], 1, 1, 0, [])

  datatype Op =
    | CallInit(ioGiven: bool, cbGiven: bool, isIoServer: bool)
    | CallFini
    | CallWait(ms: nat)
    | RunTask
    | Tick(finis: nat)
    | UserRetain
    | UserRelease

  // ----- The steps -----

  // CTimer::Init (impl_timer.cpp:54-68)
  function AfterInit(s: State, ioGiven: bool, cbGiven: bool, isIoServer: bool): State {
    if !ioGiven || !cbGiven || s.hasIo || s.hasCb || s.status != StatusNull then s
    else if !isIoServer then s.(hasIo := false)
    else s.(hasIo := true, hasCb := true, cbRefs := s.cbRefs + 1, status := StatusInit)
  }

  function Post(s: State, t: Task): State {
    s.(queue := s.queue + [t], refs := s.refs + 1)
  }

  // CTimer::Fini (impl_timer.cpp:70-79)
  function AfterFini(s: State): State {
    if s.status == StatusNull || !s.hasIo then s else Post(s, RealFini)
  }

  // CTimer::Async_Wait (impl_timer.cpp:81-92)
  function AfterWait(s: State, ms: nat): State {
    if s.status != StatusInit || !s.hasIo then s else Post(s, RealWait(ms))
  }

  // CTimer::real_fini and CTimer::real_wait (impl_timer.cpp:99-127)
  function AfterTask(s: State): State {
    if s.queue == [] then s
    else
      var s1 := s.(queue := s.queue[1..], refs := s.refs - 1);
      match s.queue[0]
      case RealFini => if s.status == StatusNull then s1 else s1.(status := StatusEnd)
      case RealWait(ms) =>
        if s.status != StatusInit then s1
        else s1.(status := StatusBegin, ms := ms, listed := true, pending := Some(Delay(ms)))
  }

  /** `finis` calls of Fini made by On_Timer itself. */
  function AfterFinis(s: State, finis: nat): State {
    if finis == 0 then s else AfterFini(AfterFinis(s, finis - 1))
  }

  function Notify(s: State, n: Notice, finis: nat): State {
    AfterFinis(s.(trace := s.trace + [n]), finis)
  }

  // on_timer_callback and CTimer::timer_clock (impl_timer.cpp:31-38, 129-183); the event is not persistent
  function AfterTick(s: State, finis: nat): State {
    if s.pending == None then s
    else
      var s0 := s.(pending := None);
      match s.status
      case StatusBegin => Notify(s0, TimerBegin, finis).(status := StatusCommon, pending := Some(Delay(s.ms)))
      case StatusEnd =>
        var s1 := Notify(s0, TimerEnd, finis);
        s1.(status := StatusNull, hasCb := false, cbRefs := if s1.hasCb then s1.cbRefs - 1 else s1.cbRefs,
            pending := None, listed := if s1.hasIo then false else s1.listed)
      case _ => Notify(s0, TimerOk, finis).(pending := Some(Delay(s.ms)))
  }

  function Step(s: State, op: Op): State {
    match op
    case CallInit(io, cb, isIo) => AfterInit(s, io, cb, isIo)
    case CallFini => AfterFini(s)
    case CallWait(ms) => AfterWait(s, ms)
    case RunTask => AfterTask(s)
    case Tick(finis) => AfterTick(s, finis)
    case UserRetain => s.(refs := s.refs + 1, held := s.held + 1)
    case UserRelease => if s.held == 0 then s else s.(refs := s.refs - 1, held := s.held - 1)
  }

  function Run(ops: seq<Op>): State {
    if ops == [] then START else Step(Run(ops[..|ops| - 1]), ops[|ops| - 1])
  }

  // ----- What every run keeps -----

  /** begin ok* */
  predicate Running(t: seq<Notice>) {
    && t != [] && t[0] == TimerBegin
    && forall i | 1 <= i < |t| :: t[i] == TimerOk
  }

  /** "begin ok* end" or just "end" */
  predicate Ended(t: seq<Notice>) {
    t != [] && t[|t| - 1] == TimerEnd && (|t| == 1 || Running(t[..|t| - 1]))
  }

  predicate Armed(s: State) {
    s.pending == Some(Delay(s.ms)) && s.listed
  }

  predicate Idle(s: State) {
    s.pending == None && !s.listed
  }

  predicate Inv(s: State) {
    && s.refs == s.held + |s.queue|
    && s.cbRefs == (if s.hasCb then 1 else 0)
    && (s.hasCb <==> s.status != StatusNull)
    && (s.status != StatusNull ==> s.hasIo)
    && match s.status
       case StatusNull => Idle(s) && (if s.hasIo then Ended(s.trace) else s.trace == [] && s.queue == [])
       case StatusInit => Idle(s) && s.trace == []
       case StatusBegin => Armed(s) && s.trace == []
       case StatusCommon => Armed(s) && Running(s.trace)
       case StatusEnd => (Idle(s) && s.trace == []) || (Armed(s) && (s.trace == [] || Running(s.trace)))
  }

  lemma {:induction false} FinisPost(s: State, finis: nat)
    requires s.status != StatusNull && s.hasIo
    ensures AfterFinis(s, finis) == s.(queue := s.queue + seq(finis, _ => RealFini), refs := s.refs + finis)
  {
    if finis > 0 {
      FinisPost(s, finis - 1);
      assert seq(finis, _ => RealFini) == seq(finis - 1, _ => RealFini) + [RealFini];
      assert (s.queue + seq(finis - 1, _ => RealFini)) + [RealFini] == s.queue + seq(finis, _ => RealFini);
    } else {
      assert s.queue + seq(0, _ => RealFini) == s.queue;
    }
  }

  lemma TickKeepsInv(s: State, finis: nat)
    requires Inv(s)
    ensures Inv(AfterTick(s, finis))
  {
    if s.pending != None {
      var n := if s.status == StatusBegin then TimerBegin else if s.status == StatusEnd then TimerEnd else TimerOk;
      FinisPost(s.(pending := None, trace := s.trace + [n]), finis);
      assert (s.trace + [n])[..|s.trace|] == s.trace;
    }
  }

  lemma TaskKeepsInv(s: State)
    requires Inv(s)
    ensures Inv(AfterTask(s))
  {
    hide Ended, Running;
  }

  lemma PostKeepsInv(s: State, t: Task)
    requires Inv(s) && s.status != StatusNull
    ensures Inv(Post(s, t))
  {
    hide Ended, Running;
  }

  lemma StepKeepsInv(s: State, op: Op)
    requires Inv(s)
    ensures Inv(Step(s, op))
  {
    match op
    case CallInit(_, _, _) =>
    case CallFini =>
      if s.status != StatusNull {
        PostKeepsInv(s, RealFini);
      }
    case CallWait(ms) =>
      if s.status == StatusInit {
        PostKeepsInv(s, RealWait(ms));
      }
    case RunTask => TaskKeepsInv(s);
    case Tick(finis) => TickKeepsInv(s, finis);
    case UserRetain =>
    case UserRelease =>
  }

  lemma {:induction false} RunKeepsInv(ops: seq<Op>)
    ensures Inv(Run(ops))
  {
    if ops != [] {
      RunKeepsInv(ops[..|ops| - 1]);
      StepKeepsInv(Run(ops[..|ops| - 1]), ops[|ops| - 1]);
    }
  }

  // ----- What follows for every run -----

  /** The calls of On_Timer are a beginning of "begin ok* end" or just "end". */
  lemma TraceShape(ops: seq<Op>)
    ensures var t := Run(ops).trace; t == [] || Running(t) || Ended(t)
  {
    RunKeepsInv(ops);
  }

  /** Every step adds at most one call, and none after "end". */
  lemma NothingAfterEnd(ops: seq<Op>, op: Op)
    ensures var t, t' := Run(ops).trace, Run(ops + [op]).trace;
            t' == t || (!Ended(t) && |t'| == |t| + 1 && t'[..|t|] == t)
  {
    RunKeepsInv(ops);
    var s := Run(ops);
    assert (ops + [op])[..|ops|] == ops;
    if op.Tick? && s.pending != None {
      var n := if s.status == StatusBegin then TimerBegin else if s.status == StatusEnd then TimerEnd else TimerOk;
      FinisPost(s.(pending := None, trace := s.trace + [n]), op.finis);
    }
  }

  /** What a firing of the event reports: "end" once the timer has been ended, else "begin" the first time and "ok"
      from then on. */
  function NextNotice(s: State): Notice {
    if s.status == StatusEnd then TimerEnd else if s.trace == [] then TimerBegin else TimerOk
  }

  lemma TickEffect(s: State, finis: nat)
    requires Inv(s) && s.pending != None
    ensures var s' := AfterTick(s, finis);
            && s'.trace == s.trace + [NextNotice(s)]
            && s'.queue == s.queue + seq(finis, _ => RealFini)
            && s'.status == (if NextNotice(s) == TimerEnd then StatusNull else StatusCommon)
            && s'.ms == s.ms && s'.pending == (if NextNotice(s) == TimerEnd then None else s.pending)
  {
    FinisPost(s.(pending := None, trace := s.trace + [NextNotice(s)]), finis);
  }

  /** In every run a firing of the armed event adds exactly one call, and what that call asks of Fini; the event is
      armed again with the same delay, unless the call was "end". */
  lemma EveryTickReports(ops: seq<Op>, finis: nat)
    ensures var s, s' := Run(ops), Run(ops + [Tick(finis)]);
            if s.pending == None then s' == s
            else
              && s'.trace == s.trace + [NextNotice(s)]
              && s'.queue == s.queue + seq(finis, _ => RealFini)
              && s'.pending == (if NextNotice(s) == TimerEnd then None else s.pending)
  {
    assert (ops + [Tick(finis)])[..|ops|] == ops;
    RunKeepsInv(ops);
    if Run(ops).pending != None {
      TickEffect(Run(ops), finis);
    }
  }

  /** In every run Fini posts one task exactly from Init until "end" is delivered, and Async_Wait one with the delay
      that was asked for exactly while the timer is in the init state; neither does anything else. */
  lemma CallsPost(ops: seq<Op>, ms: nat)
    ensures var s, s' := Run(ops), Run(ops + [CallFini]);
            s' == if s.hasIo && !Ended(s.trace) then s.(queue := s.queue + [RealFini], refs := s.refs + 1) else s
    ensures var s, s' := Run(ops), Run(ops + [CallWait(ms)]);
            s' == if s.status == StatusInit then s.(queue := s.queue + [RealWait(ms)], refs := s.refs + 1) else s
  {
    assert (ops + [CallFini])[..|ops|] == (ops + [CallWait(ms)])[..|ops|] == ops;
    RunKeepsInv(ops);
  }

  /** The timer holds one reference on its callback from Init on, until exactly "end" is delivered. */
  lemma ReleasedWithEnd(ops: seq<Op>)
    ensures var s := Run(ops);
            && (s.cbRefs == 1 <==> s.hasIo && !Ended(s.trace))
            && (s.cbRefs == 0 <==> !s.hasIo || Ended(s.trace))
  {
    RunKeepsInv(ops);
  }

  /** Every queued task owns one reference on the timer. */
  lemma TasksOwnReferences(ops: seq<Op>)
    ensures Run(ops).refs == Run(ops).held + |Run(ops).queue|
  {
    RunKeepsInv(ops);
  }

  /** The event is armed only while the timer is begun or to be ended, with the delay that was asked
      for; a new timer is set up only on an event that is not armed. */
  lemma PendingStatus(ops: seq<Op>)
    ensures var s := Run(ops);
            && (s.pending != None ==>
                  s.status in {StatusBegin, StatusCommon, StatusEnd} && s.pending == Some(Delay(s.ms)))
            && (s.status in {StatusBegin, StatusCommon} ==> s.pending != None)
            && (s.status == StatusInit ==> s.pending == None)
  {
    RunKeepsInv(ops);
  }

  function AfterTasks(s: State): State
    decreases |s.queue|
  {
    if s.queue == [] then s else AfterTasks(AfterTask(s))
  }

  lemma {:induction false} TasksEnd(s: State)
    requires Inv(s) && s.pending != None
    requires s.status == StatusEnd || (exists i :: 0 <= i < |s.queue| && s.queue[i] == RealFini)
    ensures Inv(AfterTasks(s)) && AfterTasks(s).status == StatusEnd && AfterTasks(s).pending != None
    ensures AfterTasks(s).trace == s.trace
    decreases |s.queue|
  {
    if s.queue != [] {
      StepKeepsInv(s, RunTask);
      var s' := AfterTask(s);
      if s'.status != StatusEnd {
        var i :| 0 <= i < |s.queue| && s.queue[i] == RealFini;
        assert i > 0 && s'.queue[i - 1] == RealFini;
      }
      TasksEnd(s');
    }
  }

  /** Once a timer has begun, Fini brings "end" with the first tick after the posted tasks. */
  lemma FiniDelivers(ops: seq<Op>, finis: nat)
    requires Run(ops).status in {StatusBegin, StatusCommon}
    ensures var s := AfterTick(AfterTasks(AfterFini(Run(ops))), finis);
            s.trace == Run(ops).trace + [TimerEnd] && s.cbRefs == 0 && s.status == StatusNull
  {
    RunKeepsInv(ops);
    var s := Run(ops);
    StepKeepsInv(s, CallFini);
    var s1 := AfterFini(s);
    assert s1.queue[|s.queue|] == RealFini;
    TasksEnd(s1);
    var s2 := AfterTasks(s1);
    FinisPost(s2.(pending := None, trace := s2.trace + [TimerEnd]), finis);
  }

  // ----- Which timers report "end" -----

  function RunFrom(s: State, ops: seq<Op>): State
    decreases |ops|
  {
    if ops == [] then s else RunFrom(Step(s, ops[0]), ops[1..])
  }

  ghost predicate CanEnd(s: State) {
    exists ops :: Ended(RunFrom(s, ops).trace)
  }

  lemma CanEndBefore(s: State, op: Op)
    requires CanEnd(Step(s, op))
    ensures CanEnd(s)
  {
    var ops :| Ended(RunFrom(Step(s, op), ops).trace);
    assert ([op] + ops)[1..] == ops;
    assert Ended(RunFrom(s, [op] + ops).trace);
  }

  /** The event is not armed, and the timer is ended or `real_fini` will end it before anything arms it. */
  predicate Doomed(s: State) {
    && s.pending == None
    && (s.status == StatusEnd || (s.status == StatusInit && s.queue != [] && s.queue[0] == RealFini))
  }

  lemma DoomedStays(s: State, op: Op)
    requires Inv(s) && Doomed(s)
    ensures Doomed(Step(s, op)) && Step(s, op).trace == s.trace == []
  {
  }

  lemma {:induction false} DoomedNeverEnds(s: State, ops: seq<Op>)
    requires Inv(s) && Doomed(s)
    ensures RunFrom(s, ops).trace == []
    decreases |ops|
  {
    if ops != [] {
      DoomedStays(s, ops[0]);
      StepKeepsInv(s, ops[0]);
      DoomedNeverEnds(Step(s, ops[0]), ops[1..]);
    }
  }

  lemma {:induction false} FiniQueuedEnds(s: State)
    requires Inv(s) && s.pending != None
    requires s.status == StatusEnd || (exists i :: 0 <= i < |s.queue| && s.queue[i] == RealFini)
    ensures CanEnd(s)
    decreases |s.queue|
  {
    if s.status == StatusEnd {
      assert (s.trace + [TimerEnd])[..|s.trace|] == s.trace;
      assert RunFrom(AfterTick(s, 0), []) == AfterTick(s, 0);
      assert Ended(RunFrom(AfterTick(s, 0), []).trace);
      CanEndBefore(s, Tick(0));
    } else {
      StepKeepsInv(s, RunTask);
      var s' := AfterTask(s);
      if s'.status != StatusEnd {
        var i :| 0 <= i < |s.queue| && s.queue[i] == RealFini;
        assert i > 0 && s'.queue[i - 1] == RealFini;
      }
      FiniQueuedEnds(s');
      CanEndBefore(s, RunTask);
    }
  }

  lemma ArmedEnds(s: State)
    requires Inv(s) && s.pending != None
    ensures CanEnd(s)
  {
    var s' := AfterFini(s);
    StepKeepsInv(s, CallFini);
    assert s'.queue[|s.queue|] == RealFini;
    FiniQueuedEnds(s');
    CanEndBefore(s, CallFini);
  }

  lemma WaitQueuedEnds(s: State)
    requires Inv(s) && s.status == StatusInit && s.queue != [] && s.queue[0] != RealFini
    ensures CanEnd(s)
  {
    StepKeepsInv(s, RunTask);
    ArmedEnds(AfterTask(s));
    CanEndBefore(s, RunTask);
  }

  /** A live timer can still report "end", whatever its state, exactly if it is not doomed. */
  lemma EndsIffNotDoomed(ops: seq<Op>)
    requires Run(ops).hasCb
    ensures CanEnd(Run(ops)) <==> !Doomed(Run(ops))
  {
    RunKeepsInv(ops);
    var s := Run(ops);
    if Doomed(s) {
      if CanEnd(s) {
        var later :| Ended(RunFrom(s, later).trace);
        DoomedNeverEnds(s, later);
        assert false;
      }
    } else if s.pending != None {
      ArmedEnds(s);
    } else if s.queue != [] {
      WaitQueuedEnds(s);
    } else {
      StepKeepsInv(s, CallWait(0));
      WaitQueuedEnds(AfterWait(s, 0));
      CanEndBefore(s, CallWait(0));
    }
  }

  /** The timer has been given a server and a callback. */
  predicate Started(ops: seq<Op>) {
    CallInit(true, true, true) in ops
  }

  /** The first call of Fini or Async_Wait after that, as the caller sees it. */
  function FirstCall(ops: seq<Op>): Option<Op> {
    if ops == [] then None
    else
      var front, op := ops[..|ops| - 1], ops[|ops| - 1];
      if FirstCall(front) != None then FirstCall(front)
      else if Started(front) && (op.CallFini? || op.CallWait?) then Some(op)
      else None
  }

  /** How the first call shows in the state; without one, nothing is queued yet. */
  ghost predicate Decided(started: bool, first: Option<Op>, s: State) {
    && (match first
        case None => s.pending == None && s.queue == [] && s.status == if started then StatusInit else StatusNull
        case Some(op) => s.hasIo && (op == CallFini <==> Doomed(s)))
    && (!started ==> !s.hasIo && first == None)
    && (started && first == None ==> s.hasIo)
    && (first.Some? && first.value != CallFini && s.status == StatusInit ==> s.queue != [])
  }

  lemma TickDecides(started: bool, first: Option<Op>, s: State, finis: nat)
    requires Inv(s) && Decided(started, first, s)
    ensures Decided(started, first, AfterTick(s, finis))
  {
    if s.pending != None {
      var n := if s.status == StatusBegin then TimerBegin else if s.status == StatusEnd then TimerEnd else TimerOk;
      FinisPost(s.(pending := None, trace := s.trace + [n]), finis);
    }
  }

  lemma TaskDecides(started: bool, first: Option<Op>, s: State)
    requires Inv(s) && Decided(started, first, s)
    ensures Decided(started, first, AfterTask(s))
  {
    hide Ended, Running;
  }

  lemma CallDecides(started: bool, s: State, op: Op)
    requires Inv(s) && Decided(started, None, s) && (op.CallFini? || op.CallWait?)
    ensures Decided(started, if started then Some(op) else None, Step(s, op))
  {
    hide Ended, Running;
  }

  lemma LaterCallDecides(first: Op, s: State, op: Op)
    requires Inv(s) && Decided(true, Some(first), s) && (op.CallFini? || op.CallWait?)
    ensures Decided(true, Some(first), Step(s, op))
  {
    hide Ended, Running;
  }

  /** The tasks run in the order of the calls, so the first call decides. */
  lemma {:induction false} FirstCallDecides(ops: seq<Op>)
    ensures Decided(Started(ops), FirstCall(ops), Run(ops))
  {
    if ops != [] {
      var front, op := ops[..|ops| - 1], ops[|ops| - 1];
      var s := Run(front);
      FirstCallDecides(front);
      RunKeepsInv(front);
      assert ops == front + [op];
      match op
      case CallInit(_, _, _) =>
      case CallFini | CallWait(_) =>
        if FirstCall(front) == None {
          CallDecides(Started(front), s, op);
        } else {
          LaterCallDecides(FirstCall(front).value, s, op);
        }
      case RunTask => TaskDecides(Started(front), FirstCall(front), s);
      case Tick(finis) => TickDecides(Started(front), FirstCall(front), s, finis);
      case UserRetain =>
      case UserRelease =>
    }
  }

  /** The delay of the first Async_Wait waits in front of the queue, and is the one of the event from then on. */
  predicate Asked(first: Option<Op>, s: State) {
    first.Some? && first.value.CallWait? ==>
      if s.status == StatusInit then s.queue != [] && s.queue[0] == RealWait(first.value.ms)
      else s.pending != None ==> s.ms == first.value.ms
  }

  lemma StepAsked(started: bool, first: Option<Op>, s: State, op: Op)
    requires Inv(s) && Decided(started, first, s) && Asked(first, s)
    requires op.CallFini? || op.CallWait? ==> first.Some?
    ensures Asked(first, Step(s, op))
  {
    hide Ended, Running;
    match op
    case CallInit(_, _, _) =>
    case CallFini =>
    case CallWait(_) =>
    case RunTask =>
    case Tick(finis) =>
      if s.pending != None {
        TickEffect(s, finis);
      }
    case UserRetain =>
    case UserRelease =>
  }

  lemma {:induction false} RunAsked(ops: seq<Op>)
    ensures Asked(FirstCall(ops), Run(ops))
  {
    if ops != [] {
      var front, op := ops[..|ops| - 1], ops[|ops| - 1];
      RunAsked(front);
      FirstCallDecides(front);
      RunKeepsInv(front);
      if FirstCall(front) != None || !(op.CallFini? || op.CallWait?) {
        StepAsked(Started(front), FirstCall(front), Run(front), op);
      }
    }
  }

  /** In every run, once armed the event has the delay that the first Async_Wait asked for. */
  lemma DelayIsAsked(ops: seq<Op>, ms: nat)
    requires FirstCall(ops) == Some(CallWait(ms)) && Run(ops).pending != None
    ensures Run(ops).pending == Some(Delay(ms))
  {
    RunAsked(ops);
    RunKeepsInv(ops);
  }

  /** In the caller's terms: as long as "end" has not been reported, it still can be, exactly if the first call after
      Init was not Fini. Async_Wait returns true after such a Fini all the same. */
  lemma EndsIffWaitFirst(ops: seq<Op>)
    requires Run(ops).hasCb
    ensures CanEnd(Run(ops)) <==> FirstCall(ops) != Some(CallFini)
  {
    RunKeepsInv(ops);
    FirstCallDecides(ops);
    EndsIffNotDoomed(ops);
  }

  lemma Then(ops: seq<Op>, op: Op)
    ensures Run(ops + [op]) == Step(Run(ops), op)
  {
    assert (ops + [op])[..|ops|] == ops;
  }

  lemma FiniBeforeWait() returns (ops: seq<Op>)
    ensures Run(ops).status == StatusEnd && Run(ops).pending == None && Run(ops).queue == [] && Run(ops).cbRefs == 1
  {
    Then([], CallInit(true, true, true));
    var o1 := [] + [CallInit(true, true, true)];
    Then(o1, CallFini);
    var o2 := o1 + [CallFini];
    Then(o2, CallWait(5));
    var o3 := o2 + [CallWait(5)];
    assert Run(o3).queue == [RealFini, RealWait(5)];
    Then(o3, RunTask);
    var o4 := o3 + [RunTask];
    Then(o4, RunTask);
    ops := o4 + [RunTask];
  }

  // ----- The class -----

  /** A closure in the queue of the IO thread, bound to a timer. */
  datatype Posted = Posted(timer: CTimer, task: Task)

  /** The tasks of one timer among those of all timers of a server. */
  function TasksOf(queue: seq<Posted>, timer: CTimer): seq<Task> {
    if queue == [] then []
    else if queue[0].timer == timer then [queue[0].task] + TasksOf(queue[1..], timer)
    else TasksOf(queue[1..], timer)
  }

  lemma {:induction false} TasksOfPosted(queue: seq<Posted>, p: Posted, timer: CTimer)
    ensures TasksOf(queue + [p], timer) == TasksOf(queue, timer) + if p.timer == timer then [p.task] else []
  {
    if queue == [] {
      assert ([] + [p])[1..] == [];
    } else {
      TasksOfPosted(queue[1..], p, timer);
      assert (queue + [p])[1..] == queue[1..] + [p];
    }
  }

  class IoServer {
    var queue: seq<Posted>
    var timers: set<CTimer>

    constructor ()
      ensures queue == [] && timers == {}
    {
      queue := [];
      timers := {};
    }

    /** CIOServer::Post, which only enqueues; the queues of the other timers stay as they are. */
    method Post(timer: CTimer, task: Task)
      modifies this`queue
      ensures queue == old(queue) + [Posted(timer, task)]
      ensures TasksOf(queue, timer) == TasksOf(old(queue), timer) + [task]
      ensures forall t | t != timer :: TasksOf(queue, t) == TasksOf(old(queue), t)
    {
      TasksOfPosted(queue, Posted(timer, task), timer);
      forall t | t != timer
        ensures TasksOf(queue + [Posted(timer, task)], t) == TasksOf(queue, t)
      {
        TasksOfPosted(queue, Posted(timer, task), t);
      }
      queue := queue + [Posted(timer, task)];
    }
  }

  class Callback {
    var refs: int

    constructor ()
      ensures refs == 1
    {
      refs := 1;
    }
  }

  class CTimer {
    var status: Status
    var io: IoServer?
    var cb: Callback?
    var ms: nat
    var evTimer: Option<TimeVal>
    var refs: int
    ghost var held: nat
    ghost var cbRefs: int
    ghost var trace: seq<Notice>

    ghost function View(): State
      reads this, io
    {
      State(status, io != null, cb != null, ms, evTimer, io != null && this in io.timers,
            if io == null then [] else TasksOf(io.queue, this), refs, held, cbRefs, trace)
    }

    constructor ()
      ensures View() == START && io == null && cb == null
    {
      status := StatusNull;
      io := null;
      cb := null;
      ms := 0;
      evTimer := None;
      refs := 1;
      held := 1;
      cbRefs := 0;
      trace := [];
    }

    /** The server has not met this timer yet; it may serve any number of others. */
    ghost predicate Unknown(server: IoServer)
      reads server
    {
      TasksOf(server.queue, this) == [] && this !in server.timers
    }

    // CTimer::Init (impl_timer.cpp:54-68)
    method Init(ioGiven: IoServer?, isIoServer: bool, cbGiven: Callback?) returns (ok: bool)
      requires Inv(View()) && (ioGiven != null && io == null ==> Unknown(ioGiven))
      modifies this`io, this`cb, this`status, this`cbRefs, cbGiven
      ensures View() == Step(old(View()), CallInit(ioGiven != null, cbGiven != null, isIoServer)) && Inv(View())
      ensures ok <==> old(status) == StatusNull && status == StatusInit
      ensures ok ==> io == ioGiven && cb == cbGiven && cb.refs == old(cbGiven.refs) + 1
      ensures !ok ==> io == old(io) && cb == old(cb) && (cbGiven != null ==> cbGiven.refs == old(cbGiven.refs))
    {
      if ioGiven == null || cbGiven == null {
        return false;
      }
      if io != null || cb != null {
        return false;
      }
      if status != StatusNull {
        return false;
      }
      io := if isIoServer then ioGiven else null;
      if io == null {
        return false;
      }
      cbGiven.refs := cbGiven.refs + 1;
      cbRefs := cbRefs + 1;
      cb := cbGiven;
      status := StatusInit;
      return true;
    }

    // CTimer::Fini (impl_timer.cpp:70-79)
    method Fini()
      modifies this`refs, (if io == null then {} else {io})`queue
      ensures View() == Step(old(View()), CallFini)
      ensures io == old(io)
      ensures io != null ==>
                io.queue == old(io.queue) + if status == StatusNull then [] else [Posted(this, RealFini)]
      ensures old(Inv(View())) ==> Inv(View())
    {
      if status == StatusNull {
        return;
      }
      if io != null {
        refs := refs + 1;
        io.Post(this, RealFini);
      }
    }

    // CTimer::Async_Wait (impl_timer.cpp:81-92)
    method AsyncWait(ms: nat) returns (ok: bool)
      requires Inv(View())
      modifies this`refs, (if io == null then {} else {io})`queue
      ensures View() == Step(old(View()), CallWait(ms)) && Inv(View())
      ensures ok <==> status == StatusInit
      ensures io == old(io) && (ok ==> io != null && io.queue == old(io.queue) + [Posted(this, RealWait(ms))])
      ensures !ok && io != null ==> io.queue == old(io.queue)
    {
      if status != StatusInit {
        return false;
      }
      if io != null {
        refs := refs + 1;
        io.Post(this, RealWait(ms));
      }
      return true;
    }

    /** The IO thread takes the first task, if it is one of this timer; the task ends with the Release of its guard. */
    method DoTask()
      requires Inv(View()) && io != null && io.queue != [] && io.queue[0].timer == this
      modifies this`status, this`ms, this`evTimer, this`refs, io
      ensures io == old(io) && View() == Step(old(View()), RunTask) && Inv(View())
      ensures io.queue == old(io.queue)[1..] && io.timers - {this} == old(io.timers) - {this}
    {
      StepKeepsInv(View(), RunTask);
      var task := io.queue[0].task;
      io.queue := io.queue[1..];
      match task {
        case RealFini =>
          RealFiniBody();
        case RealWait(ms) =>
          RealWaitBody(ms);
      }
      refs := refs - 1;
    }

    // CTimer::real_fini (impl_timer.cpp:99-105)
    method RealFiniBody()
      modifies this`status
      ensures status == if old(status) == StatusNull then StatusNull else StatusEnd
    {
      if status == StatusNull {
        return;
      }
      status := StatusEnd;
    }

    /** event_assign, which must not be applied to a pending event. */
    method ResetEvent()
      requires evTimer == None
      modifies this`evTimer
      ensures evTimer == None
    {
      evTimer := None;
    }

    // CTimer::real_wait (impl_timer.cpp:107-127)
    method RealWaitBody(ms: nat)
      requires io != null && (status == StatusInit ==> evTimer == None)
      modifies this`status, this`ms, this`evTimer, io`timers
      ensures old(status) != StatusInit ==>
                status == old(status) && this.ms == old(this.ms) && evTimer == old(evTimer)
                    && io.timers == old(io.timers)
      ensures old(status) == StatusInit ==>
                && status == StatusBegin && this.ms == ms && evTimer == Some(Delay(ms))
                && io.timers == old(io.timers) + {this}
    {
      if status != StatusInit {
        return;
      }
      status := StatusBegin;
      this.ms := ms;
      ResetEvent();
      io.timers := io.timers + {this};
      evTimer := Some(Delay(ms));
    }

    ghost function Finis(n: nat): seq<Posted> {
      seq(n, _ => Posted(this, RealFini))
    }

    /** A call of On_Timer, which calls Fini `finis` times. */
    method OnTimer(n: Notice, finis: nat)
      requires status != StatusNull && io != null && cb != null
      modifies this`trace, this`refs, io`queue
      ensures View() == Notify(old(View()), n, finis) && io == old(io)
      ensures io.queue == old(io.queue) + Finis(finis)
    {
      trace := trace + [n];
      ghost var s := View();
      for i := 0 to finis
        invariant View() == AfterFinis(s, i) && status != StatusNull && io == old(io)
        invariant io.queue == old(io.queue) + Finis(i)
      {
        Fini();
        assert Finis(i + 1) == Finis(i) + [Posted(this, RealFini)];
      }
    }

    /** CTimer::on_timer_callback and CTimer::timer_clock (impl_timer.cpp:31-38, 129-183): the event
        fires and is then no longer pending. */
    method TimerClock(finis: nat)
      requires Inv(View()) && evTimer != None && io != null
      modifies this, io, cb
      ensures View() == Step(old(View()), Tick(finis)) && Inv(View())
      ensures io == old(io) && trace == old(trace) + [NextNotice(old(View()))]
      ensures io.queue == old(io.queue) + Finis(finis) && io.timers - {this} == old(io.timers) - {this}
      ensures old(status) == StatusEnd ==> cb == null && old(cb) != null && old(cb).refs == old(cb.refs) - 1
      ensures old(status) != StatusEnd ==> cb == old(cb) && cb != null && cb.refs == old(cb.refs)
    {
      hide Ended, Running, Notify;
      StepKeepsInv(View(), Tick(finis));
      TickEffect(View(), finis);
      evTimer := None;
      if status == StatusBegin {
        OnTimer(TimerBegin, finis);
        status := StatusCommon;
        evTimer := Some(Delay(ms));
      } else if status == StatusEnd {
        OnTimer(TimerEnd, finis);
        status := StatusNull;
        if cb != null {
          cb.refs := cb.refs - 1;
          cbRefs := cbRefs - 1;
          cb := null;
        }
        if io != null {
          evTimer := None;
          io.timers := io.timers - {this};
        }
      } else {
        OnTimer(TimerOk, finis);
        evTimer := Some(Delay(ms));
      }
    }
  }
}
