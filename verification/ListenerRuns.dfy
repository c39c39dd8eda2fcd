/** What setup and shutdown come to when they return, whether they can, and what ends the process. */
module ListenerRuns {
  import opened Bytes
  import opened ListenerLifecycle
  import OscRoundTrip
  import OscValues
  import OscWire
  import ReceivedMessages

  /** All along the run, up to its end, the control thread is inside the call it has made. */
  predicate Busy(s: State, run: seq<Step>)
    requires Possible(s, run)
    decreases |run|
  {
    run == [] || (s.control != Idle && Busy(Next(s, run[0]), run[1..]))
  }

  /** At the end of the run, and not before, the call has returned. */
  predicate Returns(s: State, run: seq<Step>) {
    Possible(s, run) && Busy(s, run) && Exec(s, run).control == Idle
  }

  /** How far setup has got, if `created` sockets had been created when it was called. */
  predicate SettingUp(s: State, created: nat) {
    match s.control
    case Idle => s.created == created + 1 && s.threads == [Thread(Spawned, created)]
    case ClearFlag => s.created == created
    case CreateSocket => s.created == created
    case StartThread => s.created == created + 1
    case _ => s.created == created && s.control.fromSetup
  }

  predicate ShuttingDown(s: State, created: nat) {
    && s.created == created
    && match s.control
       case Idle => s.socket == None
       case ClearFlag => false
       case CreateSocket => false
       case StartThread => false
       case _ => !s.control.fromSetup
  }

  lemma StepOn(s: State, step: Step, created: nat)
    requires Inv(s) && s.control != Idle && Enabled(s, step)
    ensures SettingUp(s, created) ==> SettingUp(Next(s, step), created)
    ensures ShuttingDown(s, created) ==> ShuttingDown(Next(s, step), created)
  {
    hide OscRoundTrip.Received;
  }

  lemma {:induction false} RunOn(s: State, run: seq<Step>, created: nat)
    requires Inv(s) && Possible(s, run) && Busy(s, run)
    ensures SettingUp(s, created) ==> SettingUp(Exec(s, run), created)
    ensures ShuttingDown(s, created) ==> ShuttingDown(Exec(s, run), created)
    decreases |run|
  {
    hide Inv, Next, Enabled, SettingUp, ShuttingDown;
    if run != [] {
      NextInv(s, run[0]);
      StepOn(s, run[0], created);
      RunOn(Next(s, run[0]), run[1..], created);
    }
  }

  /** The sockets created before number n, and no others, have been deleted. */
  ghost predicate Cleared(s: State, n: nat) {
    forall k :: k in s.deleted <==> 0 <= k < n
  }

  /**
   Whatever is interleaved with it, setup returns with a new socket, one thread that has just been started on it, and
   every earlier socket deleted; and shutdown returns with no thread, no socket, and every socket deleted.
   */
  lemma {:induction false} CallsComplete(s: State, run: seq<Step>)
    requires Reachable(s) && s.control == Idle && !s.ended
    ensures Returns(Next(s, CallSetup), run) ==>
              var t := Exec(Next(s, CallSetup), run);
              && !t.ended && t.created == s.created + 1 && t.socket == Some(s.created)
              && t.threads == [Thread(Spawned, s.created)] && Cleared(t, s.created)
    ensures Returns(Next(s, CallShutdown), run) ==>
              var t := Exec(Next(s, CallShutdown), run);
              && !t.ended && t.created == s.created && t.socket == None
              && t.threads == [] && Cleared(t, s.created)
  {
    ReachableInv(s);
    forall call | call in {CallSetup, CallShutdown} && Returns(Next(s, call), run)
      ensures var t := Exec(Next(s, call), run);
              && !t.ended && Inv(t)
              && if call == CallSetup then SettingUp(t, s.created) else ShuttingDown(t, s.created)
    {
      var t := Next(s, call);
      NextInv(s, call);
      RunInv(t, run);
      RunOn(t, run, s.created);
      ReturnsAlive(t, run);
    }
    hide Next, Possible, Busy, Exec, Reachable;
  }

  /** A call does not return once the process has come to an end. */
  lemma {:induction false} ReturnsAlive(s: State, run: seq<Step>)
    requires Returns(s, run) && !s.ended
    ensures !Exec(s, run).ended
    decreases |run|
  {
    if run != [] {
      StepAlive(s, run[0]);
      hide Next;
      var t, rest := Next(s, run[0]), run[1..];
      assert Possible(t, rest);
      if t.ended {
        assert false;
      } else {
        ReturnsAlive(t, rest);
      }
    }
  }

  lemma StepAlive(s: State, step: Step)
    requires Enabled(s, step) && s.control != Idle
    ensures Next(s, step).ended ==> Next(s, step).control != Idle
  {
    hide OscRoundTrip.Received;
  }

  // ----- whether they return

  /** How far the control thread is from returning, if all goes well. */
  function Distance(s: State): nat {
    match s.control
    case Idle => 0
    case StartThread => 1
    case CreateSocket => 2
    case ClearFlag => 3
    case Forget(_) => 4
    case Delete(_) => 5
    case Join(_) => 6
    case Wait(_) => 7
    case Break(_) => 8
  }

  /** The wait, if it is still to come, will end. */
  predicate Returning(s: State) {
    && !s.ended && !Lost(s)
    && (s.control.Break? ==> forall i :: 0 <= i < |s.threads| ==> s.threads[i].pc != Walking)
  }

  function ThreadDistance(s: State): nat {
    if |s.threads| == 1 && s.threads[0].pc == Spawned then 4 else Remaining(s)
  }

  /** What has to be done next: the thread enters Run before the break and leaves it after it. */
  function Onward(s: State): Step
    requires Inv(s)
  {
    if s.control.Break? && s.threads[0].pc == Spawned then ThreadStep(0)
    else if !s.control.Wait? || s.threads[0].pc == Exited then Control
    else if s.threads[0].pc == Receiving then Process(0, [])
    else ThreadStep(0)
  }

  lemma GoesOnward(s: State)
    requires Inv(s) && Returning(s) && s.control != Idle
    ensures Enabled(s, Onward(s))
    ensures var t := Next(s, Onward(s));
            && Inv(t) && Returning(t)
            && (Distance(t) < Distance(s) || (Distance(t) == Distance(s) && ThreadDistance(t) < ThreadDistance(s)))
  {
    NothingReceived();
    hide OscRoundTrip.Received;
    NextInv(s, Onward(s));
  }

  lemma {:induction false} Returned(s: State) returns (run: seq<Step>)
    requires Inv(s) && Returning(s)
    ensures Returns(s, run)
    decreases Distance(s), ThreadDistance(s)
  {
    hide Next, Enabled, Inv, Returning, Onward;
    run := [];
    if s.control != Idle {
      GoesOnward(s);
      var rest := Returned(Next(s, Onward(s)));
      OneStep(s, Onward(s), rest);
      run := [Onward(s)] + rest;
      assert run[1..] == rest;
    }
  }

  /** The thread is in its endless walk, and the control thread in a call that has to stop it. */
  predicate Caught(s: State) {
    && s.control != Idle && |s.threads| == 1 && s.threads[0].pc == Walking && !s.hasShutdown
    && (s.control.Break? || s.control.Wait?)
  }

  lemma {:induction false} NeverReturns(s: State, run: seq<Step>)
    requires Caught(s)
    ensures !Returns(s, run)
    decreases |run|
  {
    if Possible(s, run) && run != [] {
      CaughtStays(s, run[0]);
      NeverReturns(Next(s, run[0]), run[1..]);
    }
  }

  lemma CaughtStays(s: State, step: Step)
    requires Caught(s) && Enabled(s, step)
    ensures Caught(Next(s, step))
  {
    hide OscRoundTrip.Received;
  }

  /** Setup and shutdown can return exactly if the socket thread is not caught in the endless walk at the call. */
  lemma {:induction false} CallsCanReturn(s: State, call: Step)
    requires Reachable(s) && s.control == Idle && !s.ended && call in {CallSetup, CallShutdown}
    ensures (exists run :: Returns(Next(s, call), run)) <==>
            forall i :: 0 <= i < |s.threads| ==> s.threads[i].pc != Walking
  {
    ReachableInv(s);
    NextInv(s, call);
    var t := Next(s, call);
    if i :| 0 <= i < |s.threads| && s.threads[i].pc == Walking {
      assert Caught(t);
      forall run ensures !Returns(t, run) {
        NeverReturns(t, run);
      }
    } else {
      assert Returning(t);
      var run := Returned(t);
    }
  }

  // ----- what ends the process

  /** The packets whose processing throws, or fails an assertion. */
  predicate IsFatal(step: Step) {
    step.Process? && OscRoundTrip.Received(step.packet).ending in
      {ReceivedMessages.Refused, ReceivedMessages.Unsupported, ReceivedMessages.Overread}
  }

  /** Such a packet ends the process at once, and nothing else does. */
  lemma {:induction false} EndsExactly(s: State, run: seq<Step>)
    requires !s.ended && Possible(s, run)
    ensures Exec(s, run).ended <==> run != [] && IsFatal(run[|run| - 1])
    ensures forall i :: 0 <= i < |run| - 1 ==> !IsFatal(run[i])
    decreases |run|
  {
    if run != [] {
      StepEnds(s, run[0]);
      hide Next, IsFatal;
      var t, rest := Next(s, run[0]), run[1..];
      assert Possible(t, rest);
      if t.ended {
        assert rest == [];
      } else {
        EndsExactly(t, rest);
        assert forall i :: 1 <= i < |run| ==> run[i] == rest[i - 1];
      }
    }
  }

  lemma StepEnds(s: State, step: Step)
    requires Enabled(s, step)
    ensures Next(s, step).ended <==> IsFatal(step)
  {
    hide OscRoundTrip.Received;
  }

  /** A bundle that does not fit the receive buffer, for one, whatever it holds. */
  lemma {:induction false} LongBundleEnds(s: State, i: nat, b: OscValues.Bundle)
    requires Enabled(s, Process(i, OscWire.EncodeBundle(b)))
    requires |OscWire.EncodeBundle(b)| > OscRoundTrip.RECEIVE_BUFFER_SIZE
    ensures Next(s, Process(i, OscWire.EncodeBundle(b))).ended
  {
    hide OscRoundTrip.Received, OscWire.EncodeBundle;
    OscRoundTrip.LongPacketLost(b);
  }
}
