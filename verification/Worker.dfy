/**
  libdevcore/Worker.cpp: one worker thread, any number of callers of startWorking, stopWorking and
  terminate, a lock that the callers share and an atomic state that nobody locks. Every atomic
  access is one step. A schedule says who moves next, so that all schedules are all interleavings.
 */
module Worker {
  import opened Bytes

  datatype WorkerState = Starting | Started | Stopping | Stopped | Killing

  /** Where the thread stands; between `LoopTest` and `Leave` it is inside the work section. */
  datatype ThreadPc =
    | Absent                    // m_work is null
    | Test                      // while (m_state != Killing)
    | Claim                     // Starting becomes Started
    | LoopTest                  // work loop, about to read the state
    | Body                      // work loop, doing work
    | Leave                     // work loop left, about to exchange the state for Stopped
    | Restore(ex: WorkerState)  // about to put back what the exchange took out
    | Wait                      // while (m_state == Stopped)
    | Finished                  // ready to be joined

  datatype Op = Start | Stop | Terminate

  /** Where a caller stands. */
  datatype CallPc =
    | Idle
    | Enter(op: Op)             // waiting for the lock
    | StartTest | StartSwap | StartSet | StartSpawn | StartWait
    | StopTest | StopSwap | StopWait
    | TermTest | TermKill | TermJoin
    | Done(op: Op)              // about to release the lock and return

  /** `loops` counts how often the thread has entered the work section. */
  datatype State = State(atomic: WorkerState, thread: ThreadPc, calls: seq<CallPc>, lock: Option<nat>, loops: nat)

  /** `leaves`: the work loop ends by itself, or with an exception. */
  datatype Act = Thread(leaves: bool) | Caller(who: nat, op: Op)

  function ThreadAct(s: State, leaves: bool): State {
    match s.thread
    case Absent | Finished => s
    case Test => s.(thread := if s.atomic == Killing then Finished else Claim)
    case Claim => s.(atomic := if s.atomic == Starting then Started else s.atomic, thread := LoopTest, loops := s.loops + 1)
    case LoopTest => s.(thread := if s.atomic == Started && !leaves then Body else Leave)
    case Body => s.(thread := if leaves then Leave else LoopTest)
    case Leave => s.(atomic := Stopped, thread := Restore(s.atomic))
    case Restore(ex) => s.(atomic := if ex == Killing || ex == Starting then ex else s.atomic, thread := Wait)
    case Wait => if s.atomic == Stopped then s else s.(thread := Test)
  }

  function Move(s: State, who: nat, pc: CallPc): State
    requires who < |s.calls|
  {
    s.(calls := s.calls[who := pc])
  }

  function First(op: Op): CallPc {
    match op case Start => StartTest case Stop => StopTest case Terminate => TermTest
  }

  /** A step of one caller; an idle one begins with `op`, one that has to wait stays as it is. */
  function CallerAct(s: State, who: nat, op: Op): State
    requires who < |s.calls|
  {
    match s.calls[who]
    case Idle => Move(s, who, Enter(op))
    case Enter(want) => if s.lock.None? then Move(s, who, First(want)).(lock := Some(who)) else s
    case StartTest => Move(s, who, if s.thread == Absent then StartSet else StartSwap)
    case StartSwap => Move(s, who, StartWait).(atomic := if s.atomic == Stopped then Starting else s.atomic)
    case StartSet => Move(s, who, StartSpawn).(atomic := Starting)
    case StartSpawn => Move(s, who, StartWait).(thread := Test)
    case StartWait => if s.atomic == Starting then s else Move(s, who, Done(Start))
    case StopTest => Move(s, who, if s.thread == Absent then Done(Stop) else StopSwap)
    case StopSwap => Move(s, who, StopWait).(atomic := if s.atomic == Started then Stopping else s.atomic)
    case StopWait => if s.atomic == Stopped then Move(s, who, Done(Stop)) else s
    case TermTest => Move(s, who, if s.thread == Absent then Done(Terminate) else TermKill)
    case TermKill => Move(s, who, TermJoin).(atomic := Killing)
    case TermJoin => if s.thread == Finished then Move(s, who, Done(Terminate)).(thread := Absent) else s
    case Done(_) => Move(s, who, Idle).(lock := None)
  }

  function Apply(s: State, act: Act): State {
    match act
    case Thread(leaves) => ThreadAct(s, leaves)
    case Caller(who, op) => if who < |s.calls| then CallerAct(s, who, op) else s
  }

  /** The state after a schedule. */
  function Run(s: State, acts: seq<Act>): State {
    if acts == [] then s else Apply(Run(s, acts[..|acts| - 1]), acts[|acts| - 1])
  }

  function Init(callers: nat): State {
    State(Starting, Absent, seq(callers, _ => Idle), None, 0)
  }

  // ---------------------------------------------------------------- the invariant

  /** What the lock holder is doing; `Idle` when the lock is free. */
  function Holder(s: State): CallPc {
    if s.lock.Some? && s.lock.value < |s.calls| then s.calls[s.lock.value] else Idle
  }

  predicate Outside(pc: CallPc) { pc.Idle? || pc.Enter? }

  /** Exactly the holder of the lock is past it. */
  predicate Exclusive(s: State) {
    && (s.lock.Some? ==> s.lock.value < |s.calls|)
    && forall i | 0 <= i < |s.calls| :: Outside(s.calls[i]) <==> s.lock != Some(i)
  }

  predicate InLoop(s: State) { s.thread.LoopTest? || s.thread.Body? || s.thread.Leave? }

  /** What the thread's place says about the atomic state and the lock holder. */
  predicate ThreadFits(s: State, holder: CallPc) {
    match s.thread
    case Absent => s.atomic == Starting || s.atomic == Killing
    case Test => (s.atomic == Starting && holder == StartWait) || (s.atomic == Killing && holder == TermJoin)
    case Claim => s.atomic == Starting && holder == StartWait
    case LoopTest | Body | Leave => s.atomic in {Started, Stopping, Killing}
    case Restore(ex) =>
      if ex == Killing then s.atomic == Stopped && holder == TermJoin
      else ex in {Started, Stopping} && s.atomic in {Stopped, Starting, Killing}
    case Wait => s.atomic in {Stopped, Starting, Killing}
    case Finished => s.atomic == Killing && holder == TermJoin
  }

  /** What the lock holder's place says about the atomic state and the thread. */
  predicate HolderFits(s: State, holder: CallPc) {
    match holder
    case StartSet => s.thread == Absent
    case StartSpawn => s.thread == Absent && s.atomic == Starting
    case StopWait => s.thread != Absent && s.atomic in {Stopping, Stopped}
    case Done(Stop) => s.thread == Absent || (s.atomic == Stopped && Parked(s.thread))
    case Done(Terminate) => s.thread == Absent
    case TermJoin => s.thread != Absent && (s.atomic == Killing || s.thread == Restore(Killing))
    case StartSwap | StopSwap | TermKill | StartWait => s.thread != Absent
    case _ => true
  }

  predicate Parked(t: ThreadPc) { t.Wait? || (t.Restore? && t.ex != Killing && t.ex != Starting) }

  /** A state that somebody waits to see changed is there only while somebody waits. */
  predicate Inv(s: State) {
    var holder := Holder(s);
    && Exclusive(s) && ThreadFits(s, holder) && HolderFits(s, holder)
    && (s.thread != Absent && s.atomic == Starting ==> holder == StartWait)
    && (s.thread != Absent && s.atomic == Killing ==> holder == TermJoin)
    && (s.atomic == Stopping ==> holder == StopWait)
  }

  lemma ThreadKeeps(s: State, leaves: bool)
    requires Inv(s)
    ensures Inv(ThreadAct(s, leaves)) && Holder(ThreadAct(s, leaves)) == Holder(s)
  {
  }

  /** A caller that is past the lock is its holder, and stays so until it returns. */
  lemma CallerHolds(s: State, who: nat, op: Op)
    requires Exclusive(s) && who < |s.calls|
    ensures var s' := CallerAct(s, who, op);
      && Exclusive(s')
      && (!Outside(s.calls[who]) ==> Holder(s) == s.calls[who] && (Holder(s') == if s.calls[who].Done? then Idle else s'.calls[who]))
      && (Outside(s.calls[who]) ==>
            (s'.atomic == s.atomic && s'.thread == s.thread && s'.loops == s.loops)
            && (Holder(s') == Holder(s) || (Holder(s') in {StartTest, StopTest, TermTest} && Holder(s) == Idle)))
  {
    var s' := CallerAct(s, who, op);
    assert forall i | 0 <= i < |s.calls| && i != who :: s'.calls[i] == s.calls[i];
  }

  lemma CallerKeeps(s: State, who: nat, op: Op)
    requires Inv(s) && who < |s.calls|
    ensures Inv(CallerAct(s, who, op))
  {
    CallerHolds(s, who, op);
  }

  /** The invariant holds after every schedule. */
  lemma {:induction false} InvariantHolds(callers: nat, acts: seq<Act>)
    ensures Inv(Run(Init(callers), acts))
  {
    if acts != [] {
      var before := Run(Init(callers), acts[..|acts| - 1]);
      InvariantHolds(callers, acts[..|acts| - 1]);
      match acts[|acts| - 1]
      case Thread(leaves) => ThreadKeeps(before, leaves);
      case Caller(who, op) => if who < |before.calls| { CallerKeeps(before, who, op); }
    }
  }

  lemma {:induction false} RunKeeps(s: State, acts: seq<Act>)
    requires Inv(s)
    ensures Inv(Run(s, acts))
  {
    if acts != [] {
      RunKeeps(s, acts[..|acts| - 1]);
      ApplyKeeps(Run(s, acts[..|acts| - 1]), acts[|acts| - 1]);
    }
  }

  lemma ApplyKeeps(s: State, act: Act)
    requires Inv(s)
    ensures Inv(Apply(s, act))
  {
    match act
    case Thread(leaves) => ThreadKeeps(s, leaves);
    case Caller(who, op) => if who < |s.calls| { CallerKeeps(s, who, op); }
  }

  /**
    The window in which Stopped stands in for what the exchange took out: Starting is never taken
    out, and while Killing is out nobody changes the state.
   */
  lemma ExchangeWindow(callers: nat, acts: seq<Act>)
    ensures var s := Run(Init(callers), acts);
      s.thread.Restore? ==> s.thread.ex in {Started, Stopping, Killing} && (s.thread.ex == Killing ==> s.atomic == Stopped)
  {
    InvariantHolds(callers, acts);
  }

  // ---------------------------------------------------------------- stopWorking

  /** stopWorking returns only when the thread is outside the work section. */
  lemma StopReturnsOutside(callers: nat, acts: seq<Act>, who: nat)
    requires who < |Run(Init(callers), acts).calls| && Run(Init(callers), acts).calls[who] == Done(Stop)
    ensures var s := Run(Init(callers), acts); !InLoop(s) && Quiet(s)
  {
    InvariantHolds(callers, acts);
    DoneHolds(Run(Init(callers), acts), who);
  }

  lemma DoneHolds(s: State, who: nat)
    requires Inv(s) && who < |s.calls| && s.calls[who].Done?
    ensures Holder(s) == s.calls[who]
  {
    assert !Outside(s.calls[who]);
  }

  predicate Starter(pc: CallPc) {
    pc in {StartTest, StartSwap, StartSet, StartSpawn, StartWait, Done(Start)}
  }

  /** The thread is outside the work section and has no way into it, and no start holds the lock. */
  predicate Quiet(s: State) {
    && !InLoop(s) && s.thread != Claim && !Starter(Holder(s))
    && (s.thread == Test ==> s.atomic == Killing)
    && (s.thread.Restore? || s.thread.Wait? ==> s.atomic != Starting)
  }

  lemma QuietStep(s: State, act: Act)
    requires Inv(s) && Quiet(s) && Holder(Apply(s, act)) != StartTest
    ensures Quiet(Apply(s, act))
  {
    match act
    case Thread(leaves) => ThreadKeeps(s, leaves);
    case Caller(who, op) => if who < |s.calls| { CallerHolds(s, who, op); }
  }

  /** No start gets the lock during a schedule. */
  predicate NoStart(s: State, acts: seq<Act>) {
    forall k | 0 <= k <= |acts| :: Holder(Run(s, acts[..k])) != StartTest
  }

  /** Once stopWorking returns, the thread stays outside until a start gets the lock. */
  lemma {:induction false} StaysOutside(s: State, acts: seq<Act>)
    requires Inv(s) && Holder(s) == Done(Stop) && NoStart(s, acts)
    ensures !InLoop(Run(s, acts)) && Quiet(Run(s, acts))
  {
    if acts != [] {
      var before := acts[..|acts| - 1];
      assert forall k | 0 <= k <= |before| :: before[..k] == acts[..k];
      assert acts[..|acts|] == acts;
      StaysOutside(s, before);
      RunKeeps(s, before);
      QuietStep(Run(s, before), acts[|acts| - 1]);
    }
  }

  // ---------------------------------------------------------------- stop, then start

  /** While no loop has been entered since a stop: only a start that still waits is under way. */
  predicate Pending(s: State) {
    var holder := Holder(s);
    && !InLoop(s) && holder != Done(Start)
    && (holder == StartWait ==> s.atomic == Starting)
    && (holder != StartWait ==> s.thread != Claim && (s.thread == Test ==> s.atomic == Killing))
    && (s.thread.Restore? || s.thread.Wait? ==> s.atomic != Starting || holder == StartWait)
  }

  lemma PendingStep(s: State, act: Act)
    requires Inv(s) && Pending(s)
    ensures Pending(Apply(s, act)) || Apply(s, act).loops > s.loops
    ensures Apply(s, act).loops >= s.loops
  {
    match act
    case Thread(leaves) => ThreadKeeps(s, leaves);
    case Caller(who, op) =>
      if who < |s.calls| {
        CallerHolds(s, who, op);
        SwapSucceeds(s);
      }
  }

  /** The start that follows a stop finds the state Stopped. */
  lemma SwapSucceeds(s: State)
    requires Inv(s) && Pending(s)
    ensures Holder(s) == StartSwap ==> s.atomic == Stopped
  {
  }

  /** Entries of the work section are counted one by one, and nothing else is. */
  lemma LoopsStay(s: State, act: Act)
    ensures Apply(s, act).loops == s.loops + if act.Thread? && s.thread == Claim then 1 else 0
  {
  }

  lemma {:induction false} LoopsGrow(s: State, acts: seq<Act>)
    requires Inv(s) && Pending(s)
    ensures var s' := Run(s, acts); s'.loops > s.loops || (s'.loops == s.loops && Pending(s'))
  {
    hide Inv, Pending, Apply;
    if acts != [] {
      var before := acts[..|acts| - 1];
      LoopsGrow(s, before);
      RunKeeps(s, before);
      var mid := Run(s, before);
      LoopsStay(mid, acts[|acts| - 1]);
      if Pending(mid) { PendingStep(mid, acts[|acts| - 1]); }
    }
  }

  /** After a stop has returned, a start returns only when the thread has entered the loop afresh. */
  lemma StopThenStart(s: State, acts: seq<Act>, who: nat)
    requires Inv(s) && Holder(s) == Done(Stop)
    requires who < |Run(s, acts).calls| && Run(s, acts).calls[who] == Done(Start)
    ensures Run(s, acts).loops > s.loops
  {
    LoopsGrow(s, acts);
    RunKeeps(s, acts);
    DoneHolds(Run(s, acts), who);
  }

  // ---------------------------------------------------------------- waiting ends

  predicate Waits(pc: CallPc) { pc in {StartWait, StopWait, TermJoin} }

  /** What the lock holder waits for has come about. */
  predicate Served(s: State) {
    match Holder(s)
    case StartWait => s.atomic != Starting
    case StopWait => s.atomic == Stopped
    case TermJoin => s.thread == Finished
    case _ => true
  }

  /** The thread steps still to go; a step within the work section counts as one. */
  function Rank(s: State): nat {
    if Served(s) then 0
    else match s.thread
      case Body => 7
      case LoopTest => 6
      case Leave => 5
      case Restore(_) => 4
      case Wait => 3
      case Test => 2
      case Claim => 1
      case _ => 0
  }

  /** A thread step brings whoever waits closer, and none leads back into the loop of a dying thread. */
  lemma ThreadProgress(s: State, leaves: bool)
    requires Inv(s) && Waits(Holder(s)) && !Served(s)
    ensures Holder(ThreadAct(s, leaves)) == Holder(s) && Rank(ThreadAct(s, leaves)) < Rank(s)
    ensures Holder(s) == TermJoin ==> ThreadAct(s, leaves).loops == s.loops
  {
  }

  /** Nothing a caller does changes this. */
  lemma CallersStandBy(s: State, who: nat, op: Op)
    requires Inv(s) && Waits(Holder(s)) && !Served(s) && who < |s.calls|
    ensures var s' := CallerAct(s, who, op);
      Holder(s') == Holder(s) && s'.atomic == s.atomic && s'.thread == s.thread && s'.loops == s.loops
  {
    CallerHolds(s, who, op);
  }

  function ThreadSteps(acts: seq<Act>): nat {
    if acts == [] then 0 else ThreadSteps(acts[..|acts| - 1]) + if acts[|acts| - 1].Thread? then 1 else 0
  }

  predicate ServedDuring(s: State, acts: seq<Act>) {
    exists k :: 0 <= k <= |acts| && Served(Run(s, acts[..k]))
  }

  /** `s'` waits like `s`, after `steps` steps of the thread. */
  predicate StillWaits(s: State, s': State, steps: nat) {
    && Holder(s') == Holder(s) && !Served(s') && Rank(s') + steps <= Rank(s)
    && (Holder(s) == TermJoin ==> s'.loops == s.loops)
  }

  lemma WaitStep(s: State, act: Act)
    requires Inv(s) && Waits(Holder(s)) && !Served(s)
    ensures Served(Apply(s, act)) || StillWaits(s, Apply(s, act), if act.Thread? then 1 else 0)
  {
    match act
    case Thread(leaves) => ThreadProgress(s, leaves);
    case Caller(who, op) => if who < |s.calls| { CallersStandBy(s, who, op); }
  }

  lemma {:induction false} WaitShrinks(s: State, acts: seq<Act>)
    requires Inv(s) && Waits(Holder(s))
    ensures ServedDuring(s, acts) || StillWaits(s, Run(s, acts), ThreadSteps(acts))
  {
    assert acts[..|acts|] == acts;
    if acts != [] {
      var before := acts[..|acts| - 1];
      WaitShrinks(s, before);
      if ServedDuring(s, before) {
        var k :| 0 <= k <= |before| && Served(Run(s, before[..k]));
        assert before[..k] == acts[..k];
      } else {
        RunKeeps(s, before);
        WaitStep(Run(s, before), acts[|acts| - 1]);
      }
    }
  }

  /**
    startWorking, stopWorking and terminate all get what they wait for within seven thread steps,
    whoever else moves in between: Killing is never lost, and the thread never starts over.
   */
  lemma WaitsEnd(s: State, acts: seq<Act>)
    requires Inv(s) && Waits(Holder(s)) && ThreadSteps(acts) >= 7
    ensures ServedDuring(s, acts)
  {
    WaitShrinks(s, acts);
    RunKeeps(s, acts);
    assert StillWaits(s, Run(s, acts), ThreadSteps(acts)) ==> Rank(Run(s, acts)) > 0;
  }

  /** A thread that is being terminated does not enter the work section again. */
  lemma KillingIsFinal(s: State, acts: seq<Act>)
    requires Inv(s) && Holder(s) == TermJoin && !ServedDuring(s, acts)
    ensures Run(s, acts).loops == s.loops && Holder(Run(s, acts)) == TermJoin
  {
    WaitShrinks(s, acts);
  }

  /** What has come about stays until the one who waits for it moves, which then succeeds. */
  lemma ServedStays(s: State, act: Act)
    requires Inv(s) && Waits(Holder(s)) && Served(s)
    ensures var s' := Apply(s, act);
      if act.Caller? && s.lock == Some(act.who) then Holder(s').Done? else Holder(s') == Holder(s) && Served(s')
  {
    match act
    case Thread(leaves) => ThreadKeeps(s, leaves);
    case Caller(who, op) => if who < |s.calls| { CallerHolds(s, who, op); }
  }

  // ---------------------------------------------------------------- work goes on

  /** In the work section, with the state that keeps the loop going. */
  predicate Working(s: State) { (s.thread.LoopTest? || s.thread.Body?) && s.atomic == Started }

  /** Work is going on, or a start that still waits has made sure that it will. */
  predicate Going(s: State) {
    Working(s) ||
    (s.atomic == Starting && Holder(s) == StartWait &&
     (s.thread.Test? || s.thread.Claim? || s.thread.Restore? || s.thread.Wait?))
  }

  /** No stop or terminate has the lock. */
  predicate Calm(s: State) { Holder(s) !in {StopTest, StopSwap, TermTest, TermKill} }

  /** None gets it during a schedule, and the work loop never leaves by itself. */
  predicate Undisturbed(s: State, acts: seq<Act>) {
    && (forall i | 0 <= i < |acts| :: acts[i] != Thread(true))
    && forall k | 0 <= k <= |acts| :: Holder(Run(s, acts[..k])) !in {StopTest, TermTest}
  }

  /** The thread steps up to the next doing of work. */
  function NextWork(t: ThreadPc): nat {
    match t
    case Restore(_) => 5
    case Wait => 4
    case Test => 3
    case Claim | Body => 2
    case LoopTest => 1
    case _ => 0
  }

  /** How often work has been done. */
  function Works(s: State, acts: seq<Act>): nat {
    if acts == [] then 0
    else Works(s, acts[..|acts| - 1]) + if acts[|acts| - 1].Thread? && Run(s, acts).thread == Body then 1 else 0
  }

  lemma GoingStep(s: State, act: Act)
    requires Inv(s) && Going(s) && Calm(s) && act != Thread(true)
    requires Holder(Apply(s, act)) !in {StopTest, TermTest}
    ensures var s' := Apply(s, act);
      && Going(s') && Calm(s')
      && (act.Caller? ==> s'.thread == s.thread)
      && (act.Thread? ==> NextWork(s.thread) == if s'.thread == Body then 1 else 1 + NextWork(s'.thread))
  {
    match act
    case Thread(leaves) => ThreadKeeps(s, leaves);
    case Caller(who, op) => if who < |s.calls| { CallerHolds(s, who, op); }
  }

  /**
    Until a stop or a terminate gets the lock, or the work loop leaves by itself, the thread goes on
    working: every second of its steps does work, once it is there. When a start returns it is.
   */
  lemma {:induction false} WorkGoesOn(s: State, acts: seq<Act>)
    requires Inv(s) && Going(s) && Calm(s) && Undisturbed(s, acts)
    ensures var s' := Run(s, acts);
      && Going(s') && (Holder(s') != StartWait ==> Working(s'))
      && ThreadSteps(acts) + NextWork(s'.thread) == NextWork(s.thread) + 2 * Works(s, acts)
  {
    hide Inv, Apply, Working;
    GoingCalm(s, acts);
    if acts != [] {
      var before := acts[..|acts| - 1];
      UndisturbedBefore(s, acts);
      WorkGoesOn(s, before);
      GoingCalm(s, before);
      RunKeeps(s, before);
      assert acts[..|acts|] == acts;
      GoingStep(Run(s, before), acts[|acts| - 1]);
    }
    WorkingUnlessWaiting(Run(s, acts));
  }

  lemma WorkingUnlessWaiting(s: State)
    ensures Going(s) && Holder(s) != StartWait ==> Working(s)
  {
  }

  lemma UndisturbedBefore(s: State, acts: seq<Act>)
    requires acts != [] && Undisturbed(s, acts)
    ensures Undisturbed(s, acts[..|acts| - 1])
  {
    var before := acts[..|acts| - 1];
    assert forall k | 0 <= k <= |before| :: before[..k] == acts[..k];
  }

  lemma {:induction false} GoingCalm(s: State, acts: seq<Act>)
    requires Inv(s) && Going(s) && Calm(s) && Undisturbed(s, acts)
    ensures Going(Run(s, acts)) && Calm(Run(s, acts))
  {
    if acts != [] {
      var before := acts[..|acts| - 1];
      UndisturbedBefore(s, acts);
      GoingCalm(s, before);
      RunKeeps(s, before);
      assert acts[..|acts|] == acts;
      GoingStep(Run(s, before), acts[|acts| - 1]);
    }
  }

  /** A start that waits while the state is Starting has made sure of the work. */
  lemma StartGoes(s: State)
    requires Inv(s) && Holder(s) == StartWait && s.atomic == Starting
    ensures Going(s) && Calm(s)
  {
  }

  /** A start that finds no thread, or one that has stopped, becomes such a start. */
  lemma StartIsMade(s: State, who: nat, op: Op)
    requires Inv(s) && who < |s.calls|
    requires s.calls[who] == StartSpawn || (s.calls[who] == StartSwap && s.atomic == Stopped)
    ensures var s' := CallerAct(s, who, op); Holder(s') == StartWait && s'.atomic == Starting && Going(s') && Calm(s')
    ensures s.calls[who] == StartSpawn ==> CallerAct(s, who, op).thread == Test
  {
    CallerHolds(s, who, op);
    CallerKeeps(s, who, op);
  }

  /** From such a start on, five thread steps do work, and two more for each further time. */
  lemma StartedWorks(s: State, acts: seq<Act>)
    requires Inv(s) && Holder(s) == StartWait && s.atomic == Starting && Undisturbed(s, acts)
    ensures 2 * Works(s, acts) + 4 >= ThreadSteps(acts)
    ensures Holder(Run(s, acts)) == Done(Start) ==> Working(Run(s, acts))
  {
    hide Inv, Works, Run, ThreadSteps, Undisturbed;
    StartGoes(s);
    WorkGoesOn(s, acts);
  }

  // ---------------------------------------------------------------- calls return

  /** What a caller is in the middle of. */
  function OpOf(pc: CallPc): Op {
    match pc
    case Enter(op) => op
    case Done(op) => op
    case StartTest | StartSwap | StartSet | StartSpawn | StartWait => Start
    case StopTest | StopSwap | StopWait => Stop
    case _ => Terminate
  }

  /** The steps of its own that a caller past the lock has to go at most. */
  function StepsLeft(pc: CallPc): nat {
    match pc
    case StartTest | StopTest | TermTest => 5
    case StartSet => 4
    case StartSpawn | StartSwap | StopSwap | TermKill => 3
    case StartWait | StopWait | TermJoin => 2
    case Done(_) => 1
    case _ => 0
  }

  /** What a caller's step does to the caller and to the lock. */
  lemma CallerMoves(s: State, who: nat, op: Op)
    requires Inv(s) && who < |s.calls|
    ensures var s' := CallerAct(s, who, op); var pc, pc' := s.calls[who], s'.calls[who];
      && |s'.calls| == |s.calls| && (forall i | 0 <= i < |s.calls| && i != who :: s'.calls[i] == s.calls[i])
      && (pc == Idle ==> pc' == Enter(op) && s'.lock == s.lock)
      && (pc.Enter? && s.lock.Some? ==> s' == s)
      && (pc.Enter? && s.lock.None? ==> s'.lock == Some(who) && StepsLeft(pc') == 5 && OpOf(pc') == OpOf(pc))
      && (pc.Done? ==> pc' == Idle && s'.lock == None)
      && (!Outside(pc) && !pc.Done? ==>
            && s.lock == s'.lock == Some(who) && OpOf(pc') == OpOf(pc) && !Outside(pc')
            && if Waits(pc) && !Served(s) then s' == s else StepsLeft(pc') < StepsLeft(pc))
  {
    CallerHolds(s, who, op);
  }

  /** The call has given the lock back. */
  predicate ReturnedDuring(s: State, acts: seq<Act>, who: nat) {
    exists k :: 0 <= k <= |acts| && Run(s, acts[..k]).lock != Some(who)
  }

  /** `who` is still at it, and no further from its end; at the same place only if it has not moved. */
  predicate GetsOn(s: State, s': State, who: nat)
    requires who < |s.calls|
  {
    && s'.lock == Some(who) && who < |s'.calls| && OpOf(s'.calls[who]) == OpOf(s.calls[who])
    && StepsLeft(s'.calls[who]) <= StepsLeft(s.calls[who])
    && (StepsLeft(s'.calls[who]) == StepsLeft(s.calls[who]) ==> s'.calls[who] == s.calls[who] && (Waits(s.calls[who]) && Served(s) ==> Served(s')))
  }

  lemma GetsOnStep(s: State, act: Act, who: nat)
    requires Inv(s) && s.lock == Some(who)
    ensures who < |s.calls| && (Apply(s, act).lock != Some(who) || GetsOn(s, Apply(s, act), who))
  {
    assert !Outside(s.calls[who]) && Holder(s) == s.calls[who];
    match act
    case Thread(leaves) =>
      ThreadKeeps(s, leaves);
      if Waits(Holder(s)) && Served(s) { ServedStays(s, act); }
    case Caller(other, op) =>
      if other < |s.calls| {
        CallerMoves(s, other, op);
        if Waits(Holder(s)) && Served(s) { ServedStays(s, act); }
      }
  }

  lemma GetsOnTwice(s: State, mid: State, s': State, who: nat)
    requires who < |s.calls| && GetsOn(s, mid, who) && who < |mid.calls| && GetsOn(mid, s', who)
    ensures GetsOn(s, s', who)
  {
  }

  lemma {:induction false} GetsOnAlong(s: State, acts: seq<Act>, who: nat)
    requires Inv(s) && s.lock == Some(who)
    ensures who < |s.calls| && (ReturnedDuring(s, acts, who) || GetsOn(s, Run(s, acts), who))
  {
    hide Inv, Apply, GetsOn;
    LockIsHeld(s, who);
    assert acts[..|acts|] == acts;
    if acts == [] {
      NotMoved(s, who);
    } else {
      var before := acts[..|acts| - 1];
      GetsOnAlong(s, before, who);
      if k :| 0 <= k <= |before| && Run(s, before[..k]).lock != Some(who) {
        assert before[..k] == acts[..k];
      } else {
        assert before[..|before|] == before;
        RunKeeps(s, before);
        var mid := Run(s, before);
        GetsOnStep(mid, acts[|acts| - 1], who);
        if Run(s, acts).lock == Some(who) { GetsOnTwice(s, mid, Run(s, acts), who); }
      }
    }
  }

  lemma LockIsHeld(s: State, who: nat)
    requires Inv(s) && s.lock == Some(who)
    ensures who < |s.calls| && Holder(s) == s.calls[who] && !Outside(s.calls[who])
  {
  }

  lemma NotMoved(s: State, who: nat)
    requires who < |s.calls| && s.lock == Some(who)
    ensures GetsOn(s, s, who)
  {
  }

  /** Whoever is at the lock in a wait, and has not moved during seven thread steps, is served. */
  lemma ServedAtLast(s: State, acts: seq<Act>, who: nat)
    requires Inv(s) && s.lock == Some(who) && ThreadSteps(acts) >= 7 && Waits(Holder(s))
    requires !ReturnedDuring(s, acts, who)
    ensures who < |s.calls| && who < |Run(s, acts).calls|
    ensures StepsLeft(Run(s, acts).calls[who]) == StepsLeft(s.calls[who]) ==> Served(Run(s, acts))
  {
    hide Inv, Apply, Run, ThreadSteps, Served;
    GetsOnAlong(s, acts, who);
    LockIsHeld(s, who);
    WaitsEnd(s, acts);
    var k :| 0 <= k <= |acts| && Served(Run(s, acts[..k]));
    var front, rest := acts[..k], acts[k..];
    assert acts == front + rest;
    RunSplits(s, front, rest);
    assert forall j | 0 <= j <= |front| :: front[..j] == acts[..j];
    GetsOnAlong(s, front, who);
    RunKeeps(s, front);
    var mid := Run(s, front);
    forall j | 0 <= j <= |rest| ensures Run(mid, rest[..j]) == Run(s, acts[..k + j]) {
      RunSplits(s, front, rest[..j]);
      assert front + rest[..j] == acts[..k + j];
    }
    assert !ReturnedDuring(mid, rest, who);
    GetsOnAlong(mid, rest, who);
  }

  lemma {:induction false} RunSplits(s: State, a: seq<Act>, b: seq<Act>)
    ensures Run(s, a + b) == Run(Run(s, a), b)
  {
    if b == [] {
      assert a + b == a;
    } else {
      var front := b[..|b| - 1];
      assert (a + b)[..|a + b| - 1] == a + front;
      RunSplits(s, a, front);
    }
  }

  /** Seven thread steps, among whatever else, and a step of its own bring a call further. */
  lemma RoundAdvances(s: State, acts: seq<Act>, who: nat, op: Op)
    requires Inv(s) && s.lock == Some(who) && ThreadSteps(acts) >= 7
    ensures var round := acts + [Caller(who, op)];
      && who < |s.calls|
      && (ReturnedDuring(s, round, who) ||
          (GetsOn(s, Run(s, round), who) && StepsLeft(Run(s, round).calls[who]) < StepsLeft(s.calls[who])))
  {
    var round := acts + [Caller(who, op)];
    LockIsHeld(s, who);
    assert round[..|round| - 1] == acts && round[..|round|] == round;
    GetsOnAlong(s, round, who);
    if !ReturnedDuring(s, round, who) {
      assert forall k | 0 <= k <= |acts| :: acts[..k] == round[..k];
      GetsOnAlong(s, acts, who);
      RunKeeps(s, acts);
      var mid := Run(s, acts);
      LockIsHeld(mid, who);
      if Waits(s.calls[who]) { ServedAtLast(s, acts, who); }
      CallerMoves(mid, who, op);
    }
  }

  /** Rounds of a schedule, each closed by a step of the caller. */
  function Rounds(rounds: seq<seq<Act>>, who: nat, op: Op): seq<Act> {
    if rounds == [] then [] else rounds[0] + [Caller(who, op)] + Rounds(rounds[1..], who, op)
  }

  /** Every call that has got the lock returns, within five such rounds. */
  lemma {:induction false} EveryCallReturns(s: State, rounds: seq<seq<Act>>, who: nat, op: Op)
    requires Inv(s) && s.lock == Some(who) && who < |s.calls| && |rounds| >= StepsLeft(s.calls[who])
    requires forall r | r in rounds :: ThreadSteps(r) >= 7
    ensures StepsLeft(s.calls[who]) <= 5 && ReturnedDuring(s, Rounds(rounds, who, op), who)
    decreases |rounds|
  {
    LockIsHeld(s, who);
    assert StepsLeft(s.calls[who]) > 0;
    var first := rounds[0] + [Caller(who, op)];
    var rest := Rounds(rounds[1..], who, op);
    RoundAdvances(s, rounds[0], who, op);
    if k :| 0 <= k <= |first| && Run(s, first[..k]).lock != Some(who) {
      assert Rounds(rounds, who, op)[..k] == first[..k];
    } else {
      assert first[..|first|] == first;
      RunKeeps(s, first);
      var mid := Run(s, first);
      EveryCallReturns(mid, rounds[1..], who, op);
      var j :| 0 <= j <= |rest| && Run(mid, rest[..j]).lock != Some(who);
      RunSplits(s, first, rest[..j]);
      assert Rounds(rounds, who, op)[..|first| + j] == first + rest[..j];
    }
  }

  /** When terminate returns, the thread has been joined and is gone. */
  lemma TerminateReturnsAlone(callers: nat, acts: seq<Act>, who: nat)
    requires who < |Run(Init(callers), acts).calls| && Run(Init(callers), acts).calls[who] == Done(Terminate)
    ensures Run(Init(callers), acts).thread == Absent
  {
    InvariantHolds(callers, acts);
    DoneHolds(Run(Init(callers), acts), who);
  }
}
