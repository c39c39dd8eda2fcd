/**
 Starting and stopping the listener: one control thread that calls setup and shutdown, the socket threads it starts,
 and the break flag of the socket's receiving loop, as interleaved atomic steps.
 */
module ListenerLifecycle {
  import opened Bytes
  import OscRoundTrip
  import OscWire
  import ReceivedBundles
  import ReceivedMessages

  /**
   Where a socket thread is: before Run; in its loop, with a test of the break flag to come; between the test and the
   processing of a packet; in the endless walk over the element sizes of a bundle; behind Run; and behind the store to
   the shutdown flag.
   */
  datatype ThreadPc = Spawned | Running | Receiving | Walking | Returned | Exited
  datatype Thread = Thread(pc: ThreadPc, socket: nat)

  /**
   Where the control thread is. The steps of shutdown say whether setup has called it and is to be continued.
   */
  datatype ControlPc =
    | Idle
    | ClearFlag
    | CreateSocket
    | StartThread
    | Break(fromSetup: bool)
    | Wait(fromSetup: bool)
    | Join(fromSetup: bool)
    | Delete(fromSetup: bool)
    | Forget(fromSetup: bool)

  /**
   Sockets are numbered in the order of their creation. `threads` holds every thread that has not been joined,
   `broken` is the break flag of the current socket, and `ended` says that the process has come to an end.
   */
  datatype State = State(control: ControlPc, socket: Option<nat>, created: nat, deleted: set<nat>,
                         threads: seq<Thread>, broken: bool, hasShutdown: bool, ended: bool)

  datatype Step =
    | CallSetup
    | CallShutdown
    | Control
    | ThreadStep(i: nat)
    | Receive(i: nat)
    | Process(i: nat, packet: bytes)

  /** The shutdown flag is not initialised. */
  predicate Init(s: State) {
    s.control == Idle && s.socket == None && s.created == 0 && s.deleted == {} && s.threads == [] && !s.ended
  }

  function Continuation(fromSetup: bool): ControlPc {
    if fromSetup then ClearFlag else Idle
  }

  predicate ControlEnabled(s: State) {
    match s.control
    case Idle => false
    case Break(_) => s.socket != None
    case Wait(_) => true
    case Join(_) => s.threads != [] && s.threads[|s.threads| - 1].pc == Exited
    case Delete(_) => s.socket != None
    case StartThread => s.socket != None
    case _ => true
  }

  /** The loop of Run is left only when the flag is seen. */
  predicate ThreadEnabled(s: State, i: nat) {
    && i < |s.threads|
    && (s.threads[i].pc == Running ==> s.broken)
    && s.threads[i].pc in {Spawned, Running, Returned}
  }

  /** The flag is tested after a packet has been announced and before it is taken out of the socket. */
  predicate Enabled(s: State, step: Step) {
    !s.ended &&
    match step
    case CallSetup => s.control == Idle
    case CallShutdown => s.control == Idle
    case Control => ControlEnabled(s)
    case ThreadStep(i) => ThreadEnabled(s, i)
    case Receive(i) => i < |s.threads| && s.threads[i].pc == Running && !s.broken
    case Process(i, _) => i < |s.threads| && s.threads[i].pc == Receiving
  }

  function ControlNext(s: State): State
    requires ControlEnabled(s)
  {
    match s.control
    case Idle => s
    case ClearFlag => s.(hasShutdown := false, control := CreateSocket)
    case CreateSocket =>
      s.(socket := Some(s.created), created := s.created + 1, broken := false, control := StartThread)
    case StartThread => s.(threads := s.threads + [Thread(Spawned, s.socket.value)], control := Idle)
    case Break(f) => s.(broken := true, control := Wait(f))
    case Wait(f) => if s.hasShutdown then s.(control := Join(f)) else s
    case Join(f) => s.(threads := s.threads[..|s.threads| - 1], control := Delete(f))
    case Delete(f) => s.(deleted := s.deleted + {s.socket.value}, control := Forget(f))
    case Forget(f) => s.(socket := None, control := Continuation(f))
  }

  /** Run starts by clearing the break flag, even if it has been set already. */
  function ThreadNext(s: State, i: nat): State
    requires ThreadEnabled(s, i)
  {
    var t := s.threads[i];
    match t.pc
    case Spawned => s.(broken := false, threads := s.threads[i := t.(pc := Running)])
    case Running => s.(threads := s.threads[i := t.(pc := Returned)])
    case Returned => s.(hasShutdown := true, threads := s.threads[i := t.(pc := Exited)])
  }

  function WithPc(s: State, i: nat, pc: ThreadPc): State
    requires i < |s.threads|
  {
    s.(threads := s.threads[i := s.threads[i].(pc := pc)])
  }

  /**
   An exception that leaves the thread ends the process, and so does a failed assertion. A read behind a message comes
   to one of the two: whatever is read, the message is refused or has an argument of a type that is asserted against.
   */
  function Processed(s: State, i: nat, packet: bytes): State
    requires i < |s.threads|
  {
    match OscRoundTrip.Received(packet).ending
    case Completed => WithPc(s, i, Running)
    case Endless => WithPc(s, i, Walking)
    case Refused => s.(ended := true)
    case Unsupported => s.(ended := true)
    case Overread => s.(ended := true)
  }

  function Next(s: State, step: Step): State
    requires Enabled(s, step)
  {
    match step
    case CallSetup => s.(control := if s.socket != None then Break(true) else ClearFlag)
    case CallShutdown => s.(control := if s.socket != None then Break(false) else Idle)
    case Control => ControlNext(s)
    case ThreadStep(i) => ThreadNext(s, i)
    case Receive(i) => WithPc(s, i, Receiving)
    case Process(i, packet) => Processed(s, i, packet)
  }

  predicate Possible(s: State, run: seq<Step>)
    decreases |run|
  {
    run == [] || (Enabled(s, run[0]) && Possible(Next(s, run[0]), run[1..]))
  }

  function Exec(s: State, run: seq<Step>): State
    requires Possible(s, run)
    decreases |run|
  {
    if run == [] then s else Exec(Next(s, run[0]), run[1..])
  }

  ghost predicate Reachable(s: State) {
    exists init: State, run: seq<Step> :: Init(init) && Possible(init, run) && Exec(init, run) == s
  }

  // ----- safety

  /** The control thread is inside shutdown, or at rest with a listener running. */
  predicate HasThread(s: State) {
    s.control.Break? || s.control.Wait? || s.control.Join? || (s.control == Idle && s.socket != None)
  }

  ghost predicate Inv(s: State) {
    && |s.threads| == (if HasThread(s) then 1 else 0)
    && (s.control in {ClearFlag, CreateSocket} ==> s.socket == None)
    && (s.control.StartThread? || HasThread(s) || s.control.Delete? || s.control.Forget? ==> s.socket != None)
    && (s.socket != None ==> s.created > 0 && s.socket.value == s.created - 1)
    && (forall k :: k in s.deleted <==>
          0 <= k < s.created && (s.socket == Some(k) ==> s.control.Forget?))
    && (s.control.CreateSocket? || s.control.StartThread? ==> !s.hasShutdown)
    && (forall i :: 0 <= i < |s.threads| ==>
          Some(s.threads[i].socket) == s.socket && (s.hasShutdown <==> s.threads[i].pc == Exited))
    && (s.control.Join? ==> s.hasShutdown)
  }

  lemma NextInv(s: State, step: Step)
    requires Inv(s) && Enabled(s, step)
    ensures Inv(Next(s, step))
  {
    hide OscRoundTrip.Received;
  }

  lemma {:induction false} RunInv(s: State, run: seq<Step>)
    requires Inv(s) && Possible(s, run)
    ensures Inv(Exec(s, run))
    decreases |run|
  {
    hide Inv, Next, Enabled;
    if run != [] {
      NextInv(s, run[0]);
      RunInv(Next(s, run[0]), run[1..]);
    }
  }

  lemma ReachableInv(s: State)
    requires Reachable(s)
    ensures Inv(s)
  {
    var init: State, run: seq<Step> :| Init(init) && Possible(init, run) && Exec(init, run) == s;
    RunInv(init, run);
  }

  /**
   In every reachable state, under any interleaving: there is at most one socket thread; the socket it was started on
   is the current one and not deleted; setup creates and starts only after the previous thread is joined and every
   earlier socket deleted; and the wait of shutdown ends only when the current thread is behind Run.
   */
  lemma Safety(s: State)
    requires Reachable(s)
    ensures |s.threads| <= 1
    ensures forall i :: 0 <= i < |s.threads| ==>
      s.socket == Some(s.threads[i].socket) && s.threads[i].socket !in s.deleted
    ensures s.control == CreateSocket ==> s.threads == [] && forall k :: 0 <= k < s.created ==> k in s.deleted
    ensures s.control.StartThread? ==> s.threads == [] && forall k :: 0 <= k < s.created - 1 ==> k in s.deleted
    ensures s.control.Wait? && s.hasShutdown ==> s.created > 0 && s.threads == [Thread(Exited, s.created - 1)]
    ensures s.control.Delete? ==> s.threads == []
  {
    ReachableInv(s);
  }

  /** A shutdown that has nothing to stop changes nothing; in particular a second one. */
  lemma ShutdownTwice(s: State)
    requires Reachable(s) && s.control.Forget? && !s.control.fromSetup && !s.ended
    ensures var done := Next(s, Control);
            done.control == Idle && Enabled(done, CallShutdown) && Next(done, CallShutdown) == done
  {
  }

  // ----- does shutdown return?

  /**
   A wait that will not end by itself: the break has been asked for before Run cleared the flag, or the flag has been
   cleared since, or the thread is in the endless walk.
   */
  predicate Lost(s: State) {
    && s.control.Wait? && !s.hasShutdown && |s.threads| == 1
    && match s.threads[0].pc
       case Spawned => true
       case Walking => true
       case Running => !s.broken
       case Receiving => !s.broken
       case _ => false
  }

  lemma LostStays(s: State, step: Step)
    requires Lost(s) && Enabled(s, step)
    ensures Lost(Next(s, step))
  {
    hide OscRoundTrip.Received;
  }

  lemma {:induction false} LostForever(s: State, run: seq<Step>)
    requires Lost(s) && Possible(s, run)
    ensures Lost(Exec(s, run))
    decreases |run|
  {
    hide Lost, Next, Enabled;
    if run != [] {
      LostStays(s, run[0]);
      LostForever(Next(s, run[0]), run[1..]);
    }
  }

  predicate IsEndless(packet: bytes) {
    OscRoundTrip.Received(packet).ending == ReceivedMessages.Endless
  }

  /** The packets processed in a run are among those that may arrive; there may always be none to take. */
  ghost predicate From(run: seq<Step>, arriving: iset<bytes>) {
    forall i :: 0 <= i < |run| && run[i].Process? ==> run[i].packet == [] || run[i].packet in arriving
  }

  lemma FromTail(run: seq<Step>, arriving: iset<bytes>)
    requires run != [] && From(run, arriving)
    ensures From(run[1..], arriving)
    ensures run[0].Process? ==> run[0].packet == [] || run[0].packet in arriving
  {
    forall i | 0 <= i < |run[1..]| && run[1..][i].Process?
      ensures run[1..][i].packet == [] || run[1..][i].packet in arriving
    {
      assert run[i + 1] == run[1..][i];
    }
  }

  lemma FromOne(run: seq<Step>, arriving: iset<bytes>)
    requires |run| == 1 && (run[0].Process? ==> run[0].packet in arriving)
    ensures From(run, arriving)
  {
  }

  /** The thread is not about to take an endless packet. */
  ghost predicate Spared(s: State, arriving: iset<bytes>) {
    |s.threads| == 1 && (s.threads[0].pc == Receiving ==> forall packet :: packet in arriving ==> !IsEndless(packet))
  }

  lemma NothingReceived()
    ensures OscRoundTrip.Received([]).ending == ReceivedMessages.Completed && !IsEndless([])
  {
  }

  /** A wait that can still end keeps being able to, whatever happens next, as long as the process lives. */
  lemma NotLostStays(s: State, step: Step, arriving: iset<bytes>)
    requires Inv(s) && s.control.Wait? && !Lost(s) && Enabled(s, step) && Spared(s, arriving)
    requires step.Process? ==> step.packet == [] || step.packet in arriving
    ensures var t := Next(s, step); t.ended || t.control.Join? || (t.control.Wait? && !Lost(t) && Spared(t, arriving))
  {
    NothingReceived();
    hide OscRoundTrip.Received;
  }

  lemma {:induction false} OneStep(s: State, step: Step, rest: seq<Step>)
    requires Enabled(s, step) && Possible(Next(s, step), rest)
    ensures Possible(s, [step] + rest) && Exec(s, [step] + rest) == Exec(Next(s, step), rest)
  {
    hide Next, Enabled;
    assert ([step] + rest)[1..] == rest;
  }

  /** A socket thread that is inside Run sees the break and exits, after one more packet at most. */
  lemma {:induction false} Retired(s: State) returns (run: seq<Step>)
    requires Inv(s) && s.control.Wait? && !Lost(s) && !s.ended
    ensures Possible(s, run) && Exec(s, run).control.Join?
    decreases match s.threads[0].pc case Receiving => 3 case Running => 2 case Returned => 1 case _ => 0
  {
    NothingReceived();
    hide OscRoundTrip.Received;
    var pc := s.threads[0].pc;
    var step := if pc == Exited then Control else if pc == Receiving then Process(0, []) else ThreadStep(0);
    var t := Next(s, step);
    NextInv(s, step);
    var rest := [];
    if step != Control {
      rest := Retired(t);
    }
    OneStep(s, step, rest);
    run := [step] + rest;
  }

  ghost predicate CanJoin(s: State) {
    exists run :: Possible(s, run) && Exec(s, run).control.Join?
  }

  /** The control thread is in the wait, all along the run, and the process lives. */
  predicate StillWaiting(s: State, run: seq<Step>)
    requires Possible(s, run)
    decreases |run|
  {
    s.control.Wait? && !s.ended && (run == [] || StillWaiting(Next(s, run[0]), run[1..]))
  }

  /** Every continuation has left the wait, or ended the process, or can still leave the wait. */
  ghost predicate AlwaysCanJoin(s: State, arriving: iset<bytes>) {
    forall run | Possible(s, run) && From(run, arriving) :: StillWaiting(s, run) ==> CanJoin(Exec(s, run))
  }

  /** Every continuation is in the wait and cannot leave it. */
  ghost predicate NeverJoins(s: State) {
    forall run | Possible(s, run) :: Exec(s, run).control.Wait? && !CanJoin(Exec(s, run))
  }

  lemma {:induction false} WaitCanEnd(s: State, run: seq<Step>, arriving: iset<bytes>)
    requires Inv(s) && s.control.Wait? && !Lost(s) && Spared(s, arriving)
    requires Possible(s, run) && From(run, arriving) && StillWaiting(s, run)
    ensures CanJoin(Exec(s, run))
    decreases |run|
  {
    hide Inv, Next, Enabled, Lost, From, Spared;
    if run == [] {
      var more := Retired(s);
    } else {
      NextInv(s, run[0]);
      FromTail(run, arriving);
      NotLostStays(s, run[0], arriving);
      WaitCanEnd(Next(s, run[0]), run[1..], arriving);
    }
  }

  /** How many steps the socket thread has still to make once it sees the break. */
  function Remaining(s: State): nat {
    if |s.threads| != 1 then 0 else
    match s.threads[0].pc
    case Receiving => 3
    case Running => 2
    case Returned => 1
    case _ => 0
  }

  predicate OfThread(step: Step) {
    step.ThreadStep? || step.Receive? || step.Process?
  }

  function ThreadSteps(run: seq<Step>): nat {
    if run == [] then 0 else (if OfThread(run[0]) then 1 else 0) + ThreadSteps(run[1..])
  }

  lemma StepRemaining(s: State, step: Step, arriving: iset<bytes>)
    requires Inv(s) && s.control.Wait? && !Lost(s) && Enabled(s, step) && Spared(s, arriving)
    requires step.Process? ==> step.packet == [] || step.packet in arriving
    ensures var t := Next(s, step);
            !t.ended ==> Remaining(t) + (if OfThread(step) then 1 else 0) <= Remaining(s)
  {
    NothingReceived();
    hide OscRoundTrip.Received;
  }

  /** As long as the wait goes on the socket thread makes three steps at most. */
  lemma {:induction false} ThreadStops(s: State, run: seq<Step>, arriving: iset<bytes>)
    requires Inv(s) && s.control.Wait? && !Lost(s) && Spared(s, arriving)
    requires Possible(s, run) && From(run, arriving) && StillWaiting(s, run)
    ensures ThreadSteps(run) + Remaining(Exec(s, run)) <= Remaining(s) <= 3
    decreases |run|
  {
    hide Inv, Next, Enabled, Lost, From, Spared;
    if run != [] {
      assert StillWaiting(Next(s, run[0]), run[1..]);
      NextInv(s, run[0]);
      FromTail(run, arriving);
      NotLostStays(s, run[0], arriving);
      StepRemaining(s, run[0], arriving);
      ThreadStops(Next(s, run[0]), run[1..], arriving);
    }
  }

  /** When it has made them the next step of the control thread leaves the wait; until then it can make another one. */
  lemma LeavesWhenStopped(s: State)
    requires Inv(s) && s.control.Wait? && !Lost(s) && !s.ended
    ensures Remaining(s) == 0 ==> Enabled(s, Control) && Next(s, Control).control.Join?
    ensures Remaining(s) != 0 ==> Enabled(s, if s.threads[0].pc == Receiving then Process(0, []) else ThreadStep(0))
  {
  }

  lemma {:induction false} LostNeverJoins(s: State)
    requires Lost(s)
    ensures NeverJoins(s) && !CanJoin(s)
  {
    hide Next, Enabled;
    forall run | Possible(s, run) ensures Exec(s, run).control.Wait? && !CanJoin(Exec(s, run)) {
      LostForever(s, run);
      LostCannotJoin(Exec(s, run));
    }
    LostCannotJoin(s);
  }

  lemma {:induction false} LostCannotJoin(s: State)
    requires Lost(s)
    ensures !CanJoin(s)
  {
    hide Next, Enabled;
    forall run | Possible(s, run) ensures !Exec(s, run).control.Join? {
      LostForever(s, run);
    }
  }

  /** If an endless packet can be taken, there is a continuation that is caught in its walk. */
  lemma {:induction false} CaughtInWalk(s: State, packet: bytes, arriving: iset<bytes>)
    requires Inv(s) && s.control.Wait? && !s.ended && s.threads[0].pc == Receiving
    requires packet in arriving && IsEndless(packet)
    ensures !AlwaysCanJoin(s, arriving)
  {
    hide OscRoundTrip.Received;
    var step := Process(0, packet);
    var t := Next(s, step);
    assert Lost(t);
    LostNeverJoins(t);
    OneStep(s, step, []);
    var run := [step] + [];
    assert run[1..] == [];
    FromOne(run, arriving);
    assert StillWaiting(s, run) && From(run, arriving) && Exec(s, run) == t;
  }

  lemma {:induction false} NotBoth(s: State, arriving: iset<bytes>)
    requires s.control.Wait? && !s.ended
    ensures !AlwaysCanJoin(s, arriving) || !NeverJoins(s)
    ensures !CanJoin(s) || !NeverJoins(s)
  {
    var none: seq<Step> := [];
    assert Possible(s, none) && StillWaiting(s, none) && From(none, arriving) && Exec(s, none) == s;
  }

  /**
   Whether shutdown (and a setup that has to stop a listener first) gets past its wait, by where the socket thread is
   when the break is asked for. If it has not entered Run, or is in the endless walk, every continuation is in the wait
   and none can leave it. In all other cases the wait can be left; and it can be left in every continuation unless the
   thread is between the test of the flag and the processing of a packet and an endless packet may arrive.
   */
  lemma {:induction false} ShutdownReturns(s: State, arriving: iset<bytes>)
    requires Reachable(s) && s.control.Break? && !s.ended
    ensures |s.threads| == 1 && Enabled(s, Control)
    ensures var t, pc := Next(s, Control), s.threads[0].pc;
            && (CanJoin(t) <==> pc != Spawned && pc != Walking)
            && (NeverJoins(t) <==> pc == Spawned || pc == Walking)
            && (AlwaysCanJoin(t, arriving) <==>
                  && pc != Spawned && pc != Walking
                  && (pc == Receiving ==> forall packet :: packet in arriving ==> !IsEndless(packet)))
  {
    ReachableInv(s);
    var t, pc := Next(s, Control), s.threads[0].pc;
    NextInv(s, Control);
    NotBoth(t, arriving);
    assert Lost(t) <==> pc == Spawned || pc == Walking;
    hide Inv, Next, Enabled, Lost, From, IsEndless;
    if Lost(t) {
      LostNeverJoins(t);
    } else {
      var run := Retired(t);
      if Spared(t, arriving) {
        forall run | Possible(t, run) && From(run, arriving) && StillWaiting(t, run) ensures CanJoin(Exec(t, run)) {
          WaitCanEnd(t, run, arriving);
        }
      } else {
        var packet :| packet in arriving && IsEndless(packet);
        CaughtInWalk(t, packet, arriving);
      }
    }
  }

  predicate NoWalker(s: State) {
    forall i :: 0 <= i < |s.threads| ==> s.threads[i].pc != Walking
  }

  lemma {:induction false} NeverWalking(s: State, run: seq<Step>, arriving: iset<bytes>)
    requires Possible(s, run) && From(run, arriving) && forall packet :: packet in arriving ==> !IsEndless(packet)
    requires NoWalker(s)
    ensures NoWalker(Exec(s, run))
    decreases |run|
  {
    hide Next, Enabled, From, IsEndless, NoWalker;
    NothingReceived();
    if run != [] {
      FromTail(run, arriving);
      StepNotWalking(s, run[0]);
      NeverWalking(Next(s, run[0]), run[1..], arriving);
    }
  }

  lemma StepNotWalking(s: State, step: Step)
    requires Enabled(s, step) && NoWalker(s)
    requires step.Process? ==> !IsEndless(step.packet)
    ensures NoWalker(Next(s, step))
  {
    hide OscRoundTrip.Received;
  }

  /** As long as no endless packet arrives the one condition is that the thread has entered Run. */
  lemma {:induction false} EnteredIsEnough(init: State, run: seq<Step>, arriving: iset<bytes>)
    requires Init(init) && Possible(init, run) && From(run, arriving)
    requires forall packet :: packet in arriving ==> !IsEndless(packet)
    requires Exec(init, run).control.Break? && !Exec(init, run).ended
    ensures var s := Exec(init, run);
            && |s.threads| == 1 && Enabled(s, Control)
            && (AlwaysCanJoin(Next(s, Control), arriving) <==> s.threads[0].pc != Spawned)
  {
    var s := Exec(init, run);
    NeverWalking(init, run, arriving);
    assert Reachable(s);
    hide Next, Enabled, From, IsEndless, Reachable, Possible, Exec, AlwaysCanJoin, CanJoin, NeverJoins;
    ShutdownReturns(s, arriving);
  }

  // ----- runs to a shutdown that does not return

  /** A lower bound for the number of steps to a wait that will not end by itself. */
  function StepsToLost(s: State): nat {
    match s.control
    case Idle => if s.socket == None then 6 else 2
    case ClearFlag => 5
    case CreateSocket => 4
    case StartThread => 3
    case Break(_) => 1
    case _ => 0
  }

  lemma {:induction false} NoShorterWay(s: State, run: seq<Step>)
    requires Possible(s, run) && Lost(Exec(s, run))
    ensures StepsToLost(s) <= |run|
    decreases |run|
  {
    hide Lost;
    if run == [] {
      assert s.control.Wait? by { LostInWait(s); }
    } else {
      OneStepNearer(s, run[0]);
      NoShorterWay(Next(s, run[0]), run[1..]);
    }
  }

  lemma LostInWait(s: State)
    requires Lost(s)
    ensures s.control.Wait?
  {
  }

  lemma OneStepNearer(s: State, step: Step)
    requires Enabled(s, step)
    ensures StepsToLost(s) <= StepsToLost(Next(s, step)) + 1
  {
    hide OscRoundTrip.Received;
  }

  /** After setup, with a socket thread that has not got going. */
  function JustStarted(flag: bool): State {
    State(Idle, Some(0), 1, {}, [Thread(Spawned, 0)], false, flag, false)
  }

  const SETUP: seq<Step> := [CallSetup, Control, Control, Control]

  lemma {:induction false} SetupRun(flag: bool, rest: seq<Step>)
    requires Possible(JustStarted(false), rest)
    ensures var init := State(Idle, None, 0, {}, [], false, flag, false);
            && Init(init) && Possible(init, SETUP + rest) && Exec(init, SETUP + rest) == Exec(JustStarted(false), rest)
  {
    var s0 := State(Idle, None, 0, {}, [], false, flag, false);
    var s1 := Next(s0, CallSetup);
    var s2 := Next(s1, Control);
    var s3 := Next(s2, Control);
    assert Enabled(s3, Control) && Next(s3, Control) == JustStarted(false);
    hide Next, Enabled;
    OneStep(s3, Control, rest);
    OneStep(s2, Control, [Control] + rest);
    OneStep(s1, Control, [Control] + ([Control] + rest));
    OneStep(s0, CallSetup, [Control] + ([Control] + ([Control] + rest)));
    assert SETUP + rest == [CallSetup] + ([Control] + ([Control] + ([Control] + rest)));
  }

  /** The shortest way: setup, and shutdown before the new thread has got going. */
  lemma {:induction false} ShutdownCanHang(flag: bool)
    ensures var init := State(Idle, None, 0, {}, [], false, flag, false);
            var run := SETUP + [CallShutdown, Control];
            && Init(init) && Possible(init, run) && Lost(Exec(init, run))
            && forall other | Possible(init, other) :: Lost(Exec(init, other)) ==> |run| <= |other|
  {
    var init := State(Idle, None, 0, {}, [], false, flag, false);
    var s4 := JustStarted(false);
    var s5 := Next(s4, CallShutdown);
    assert Enabled(s5, Control) && Lost(Next(s5, Control));
    hide Next, Enabled, Lost;
    OneStep(s5, Control, []);
    OneStep(s4, CallShutdown, [Control] + []);
    assert [CallShutdown] + ([Control] + []) == [CallShutdown, Control];
    SetupRun(flag, [CallShutdown, Control]);
    forall other | Possible(init, other) && Lost(Exec(init, other))
      ensures |SETUP + [CallShutdown, Control]| <= |other|
    {
      NoShorterWay(init, other);
    }
  }

  /** A bundle whose only element has the size at which the walk over the element sizes stands still. */
  const STUCK_PACKET: bytes := OscWire.BUNDLE_HEADER + ReceivedBundles.STUCK_SIZE

  lemma StuckIsEndless()
    ensures IsEndless(STUCK_PACKET)
  {
    assert |STUCK_PACKET| == 20 && STUCK_PACKET[..8] == OscWire.BUNDLE_MARK;
    ReceivedBundles.StuckPacket(STUCK_PACKET);
  }

  /** From setup to the break, which comes when the packet has been taken, and before it has been. */
  const CAUGHT_BEFORE: seq<Step> := [ThreadStep(0), Receive(0), Process(0, STUCK_PACKET), CallShutdown, Control]
  const CAUGHT_AFTER: seq<Step> := [ThreadStep(0), Receive(0), CallShutdown, Control, Process(0, STUCK_PACKET)]

  lemma {:induction false} Caught(after: bool)
    ensures var run := if after then CAUGHT_AFTER else CAUGHT_BEFORE;
            && Possible(JustStarted(false), run)
            && Lost(Exec(JustStarted(false), run)) && Exec(JustStarted(false), run).threads == [Thread(Walking, 0)]
  {
    StuckIsEndless();
    hide OscRoundTrip.Received, ReceivedBundles.STUCK_SIZE;
    var s0 := JustStarted(false);
    var run := if after then CAUGHT_AFTER else CAUGHT_BEFORE;
    var s1 := Next(s0, run[0]);
    var s2 := Next(s1, run[1]);
    var s3 := Next(s2, run[2]);
    var s4 := Next(s3, run[3]);
    assert Enabled(s4, run[4]) && Lost(Next(s4, run[4])) && Next(s4, run[4]).threads == [Thread(Walking, 0)];
    assert run == [run[0]] + ([run[1]] + ([run[2]] + ([run[3]] + ([run[4]] + []))));
    hide Next, Enabled, Lost;
    OneStep(s4, run[4], []);
    OneStep(s3, run[3], [run[4]] + []);
    OneStep(s2, run[2], [run[3]] + ([run[4]] + []));
    OneStep(s1, run[1], [run[2]] + ([run[3]] + ([run[4]] + [])));
    OneStep(s0, run[0], [run[1]] + ([run[2]] + ([run[3]] + ([run[4]] + []))));
  }

  /**
   For instance, a thread that has entered Run and is caught in that bundle's walk, whether it has taken the packet
   before or after the break: no continuation leaves the wait.
   */
  lemma {:induction false} ShutdownCanHangInWalk(flag: bool, after: bool)
    ensures var init := State(Idle, None, 0, {}, [], false, flag, false);
            var run := SETUP + if after then CAUGHT_AFTER else CAUGHT_BEFORE;
            && Init(init) && Possible(init, run)
            && Exec(init, run).threads == [Thread(Walking, 0)] && NeverJoins(Exec(init, run))
  {
    hide Next, Enabled, Lost, NeverJoins;
    Caught(after);
    SetupRun(flag, if after then CAUGHT_AFTER else CAUGHT_BEFORE);
    LostNeverJoins(Exec(JustStarted(false), if after then CAUGHT_AFTER else CAUGHT_BEFORE));
  }
}
