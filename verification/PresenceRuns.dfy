/**
 Whole exchanges between the two users: when one begins, that it can always be brought to its end, that no stanza is
 lost or made up on the way, and that neither end is ever subscribed on one side only.
 */
module PresenceRuns {
  import opened SubscriptionStates
  import opened PresenceHandshake

  /** The system before step k of a run, or after all of it. */
  function At(s: System, run: seq<Step>, k: nat): System
    requires Possible(s, run) && k <= |run|
    decreases k
  {
    if k == 0 then s else At(Next(s, run[0]), run[1..], k - 1)
  }

  lemma {:induction false} ExecSplit(s: System, run: seq<Step>, more: seq<Step>)
    requires Possible(s, run)
    ensures Possible(s, run + more) <==> Possible(Exec(s, run), more)
    ensures Possible(s, run + more) ==> Exec(s, run + more) == Exec(Exec(s, run), more)
    ensures Loads(run + more) == Loads(run) + Loads(more)
    decreases |run|
  {
    hide Next, Enabled;
    if run == [] {
      assert run + more == more;
    } else {
      assert (run + more)[1..] == run[1..] + more;
      ExecSplit(Next(s, run[0]), run[1..], more);
    }
  }

  // ----- how an exchange begins

  /** In step k the client loads a roster without its contact: it is in none, or has only been asked. */
  predicate AsksAt(s: System, run: seq<Step>, k: nat, who: Who)
    requires Possible(s, run)
  {
    k < |run| && run[k] == LoadRoster(who) && At(s, run, k).Get(who).state in {S10nNone, S10nNoneIn}
  }

  lemma StepStarted(s: System, step: Step, who: Who)
    requires Enabled(s, step)
    ensures Next(s, step).Get(who).started <==>
            s.Get(who).started || (step == LoadRoster(who) && s.Get(who).state in {S10nNone, S10nNoneIn})
  {
  }

  lemma {:induction false} StartedExactly(s: System, run: seq<Step>, who: Who)
    requires Possible(s, run)
    ensures Exec(s, run).Get(who).started <==> s.Get(who).started || exists k: nat :: AsksAt(s, run, k, who)
    decreases |run|
  {
    hide Next, Enabled;
    if run != [] {
      var t, rest := Next(s, run[0]), run[1..];
      StartedExactly(t, rest, who);
      StepStarted(s, run[0], who);
      assert forall k: nat :: AsksAt(s, run, k + 1, who) == AsksAt(t, rest, k, who);
      assert AsksAt(s, run, 0, who) <==> run[0] == LoadRoster(who) && s.Get(who).state in {S10nNone, S10nNoneIn};
      if k: nat :| AsksAt(t, rest, k, who) {
        assert AsksAt(s, run, k + 1, who);
      }
      if k: nat :| AsksAt(s, run, k, who) {
        if k > 0 {
          assert AsksAt(t, rest, k - 1, who);
        }
      }
    }
  }

  /**
   The exchange begins exactly with a roster that lacks the contact: if there has been one, on either side, both ends
   are in "both" once nothing is in flight; if there has been none, nothing has happened at all.
   */
  lemma {:induction false} BeginsWithRoster(run: seq<Step>)
    requires Possible(INIT, run)
    ensures var s := Exec(INIT, run);
            if exists k: nat, who :: AsksAt(INIT, run, k, who)
            then Quiescent(s) ==> s.a.state == S10nBoth && s.b.state == S10nBoth
            else s == INIT
  {
    hide Next, Possible, AsksAt;
    InitInv();
    RunInv(INIT, run);
    StartedExactly(INIT, run, A);
    StartedExactly(INIT, run, B);
    var s := Exec(INIT, run);
    if k: nat, who :| AsksAt(INIT, run, k, who) {
      assert s.Get(who).started;
    }
    if Quiescent(s) {
      QuiescentStates(s);
    }
  }

  // ----- how it can always end

  /** A run without roster loads that brings everything in flight to its end. */
  lemma {:induction false} Completion(s: System) returns (run: seq<Step>)
    ensures Possible(s, run) && Loads(run) == 0 && Quiescent(Exec(s, run))
    decreases Measure(s)
  {
    hide Next, Measure;
    if Quiescent(s) {
      run := [];
    } else {
      var who :| s.Get(who).up != [] || s.Get(who).link != [] || s.Get(who).down != [];
      var step := if s.Get(who).up != [] then ClientToServer(who)
                  else if s.Get(who).link != [] then ServerToServer(who)
                  else ServerToClient(who);
      NextMeasure(s, step);
      var rest := Completion(Next(s, step));
      run := [step] + rest;
      assert run[1..] == rest;
    }
  }

  /**
   Whatever has happened, the exchange can be brought to its end, without loading rosters again; and once a roster has
   lacked the contact that end is "both" on both sides.
   */
  lemma {:induction false} CanComplete(run: seq<Step>)
    requires Possible(INIT, run)
    ensures exists more ::
              && Possible(INIT, run + more) && Loads(more) == 0 && Quiescent(Exec(INIT, run + more))
              && ((exists k: nat, who :: AsksAt(INIT, run, k, who)) ==>
                    Exec(INIT, run + more).a.state == S10nBoth && Exec(INIT, run + more).b.state == S10nBoth)
  {
    hide Next, Enabled, Possible, Quiescent, Exec, AsksAt;
    var more := Completion(Exec(INIT, run));
    ExecSplit(INIT, run, more);
    BeginsWithRoster(run + more);
    if k: nat, who :| AsksAt(INIT, run, k, who) {
      AsksStill(INIT, run, more, k, who);
    }
  }

  lemma {:induction false} AsksStill(s: System, run: seq<Step>, more: seq<Step>, k: nat, who: Who)
    requires Possible(s, run) && Possible(s, run + more) && AsksAt(s, run, k, who)
    ensures AsksAt(s, run + more, k, who)
    decreases k
  {
    hide Next, Enabled;
    assert (run + more)[k] == run[k];
    if k > 0 {
      assert (run + more)[1..] == run[1..] + more;
      assert AsksAt(Next(s, run[0]), run[1..], k - 1, who);
      AsksStill(Next(s, run[0]), run[1..], more, k - 1, who);
    }
  }

  // ----- no stanza is lost or made up

  function One(b: bool): nat {
    if b then 1 else 0
  }

  predicate First(q: seq<Stanza>, x: Stanza) {
    q != [] && q[0] == x
  }

  /** What a step can be to a client: it lacks its contact in a roster, or a stanza of one kind passes one stage. */
  datatype Move =
    | Asks
    | Sends(x: Stanza)
    | Crosses(x: Stanza)
    | Reaches(x: Stanza)
    | IsAskedAgain

  predicate Is(s: System, step: Step, who: Who, move: Move) {
    match move
    case Asks => step == LoadRoster(who) && s.Get(who).state in {S10nNone, S10nNoneIn}
    case Sends(x) => step == ClientToServer(who) && First(s.Get(who).up, x)
    case Crosses(x) => step == ServerToServer(who) && First(s.Get(who).link, x)
    case Reaches(x) => step == ServerToClient(who) && First(s.Get(who).down, x)
    case IsAskedAgain =>
      && step == ServerToServer(Other(who)) && First(s.Get(Other(who)).link, Subscribe)
      && s.Get(who).state in {S10nFrom, S10nFromOut, S10nBoth}
  }

  /** How many steps of a run are such a move. */
  function Moves(s: System, run: seq<Step>, who: Who, move: Move): nat
    requires Possible(s, run)
    decreases |run|
  {
    if run == [] then 0 else One(Is(s, run[0], who, move)) + Moves(Next(s, run[0]), run[1..], who, move)
  }

  /** The changes one step makes to what is in flight at one side, and to what is known there. */
  predicate Balanced(s: System, t: System, who: Who, moves: Move -> nat) {
    var x, x' := s.Get(who), t.Get(who);
    && x'.handled == x.handled + moves(Reaches(Subscribe))
    && Count(x'.up, Subscribe) + moves(Sends(Subscribe)) ==
       Count(x.up, Subscribe) + moves(Asks) + moves(Reaches(Subscribe))
    && Count(x'.up, Subscribed) + moves(Sends(Subscribed)) == Count(x.up, Subscribed) + moves(Reaches(Subscribe))
    && Count(x'.link, Subscribe) + moves(Crosses(Subscribe)) == Count(x.link, Subscribe) + moves(Sends(Subscribe))
    && Count(x'.link, Subscribed) + moves(Crosses(Subscribed)) + One(Contacts(x.state) == Granted) ==
       Count(x.link, Subscribed) + One(Contacts(x'.state) == Granted) + moves(IsAskedAgain)
    && Count(x'.down, Subscribe) + moves(Reaches(Subscribe)) + One(Contacts(x.state) != Nothing) ==
       Count(x.down, Subscribe) + One(Contacts(x'.state) != Nothing)
    && Count(x'.down, Subscribed) + moves(Reaches(Subscribed)) + One(Own(x.state) == Granted) ==
       Count(x.down, Subscribed) + One(Own(x'.state) == Granted)
  }

  /** The same for the steps that move a side's own stanzas, with the next side and what the step was to it. */
  lemma SentBalanced(s: System, step: Step, who: Who)
    requires step == ClientToServer(who) && Enabled(s, step)
    ensures Balanced(s, Next(s, step), who, move => One(Is(s, step, who, move)))
  {
    var x := s.Get(who);
    TablesByHalves(x.state);
    hide OutboundSubscribe, OutboundSubscribed, InboundSubscribe, InboundSubscribed, Own, Contacts, Count;
    Pop(x.up);
    Push(x.link, x.up[0]);
  }

  lemma LeftBalanced(s: System, step: Step, who: Who)
    requires step == ServerToServer(who) && Enabled(s, step)
    ensures Balanced(s, Next(s, step), who, move => One(Is(s, step, who, move)))
  {
    hide InboundSubscribe, InboundSubscribed, Own, Contacts, Count;
    Pop(s.Get(who).link);
  }

  /** What a stanza from the other server does to a side. */
  lemma ArrivedCounts(x: Side, stanza: Stanza)
    ensures var x' := Arrived(x, stanza);
            && x'.handled == x.handled && x'.up == x.up
            && Count(x'.link, Subscribe) == Count(x.link, Subscribe)
            && Count(x'.link, Subscribed) == Count(x.link, Subscribed) +
                 One(stanza == Subscribe && x.state in {S10nFrom, S10nFromOut, S10nBoth})
            && (Contacts(x'.state) == Granted <==> Contacts(x.state) == Granted)
            && Count(x'.down, Subscribe) + One(Contacts(x.state) != Nothing) ==
               Count(x.down, Subscribe) + One(Contacts(x'.state) != Nothing)
            && Count(x'.down, Subscribed) + One(Own(x.state) == Granted) ==
               Count(x.down, Subscribed) + One(Own(x'.state) == Granted)
  {
    TablesByHalves(x.state);
    assert x.state in {S10nFrom, S10nFromOut, S10nBoth} <==> Contacts(x.state) == Granted;
    hide InboundSubscribe, InboundSubscribed, Own, Contacts, Count;
    Push(x.down, stanza);
    Push(x.link, Subscribed);
  }

  lemma ArrivedBalanced(s: System, step: Step, who: Who)
    requires step == ServerToServer(Other(who)) && Enabled(s, step)
    ensures Balanced(s, Next(s, step), who, move => One(Is(s, step, who, move)))
  {
    var x, stanza := s.Get(who), s.Get(Other(who)).link[0];
    hide Next, Arrived, Own, Contacts, Count;
    ArrivedCounts(x, stanza);
    NextArrived(s, who);
    assert x.state in {S10nFrom, S10nFromOut, S10nBoth} && stanza == Subscribe <==> Is(s, step, who, IsAskedAgain);
  }

  lemma NextArrived(s: System, who: Who)
    requires s.Get(Other(who)).link != []
    ensures Next(s, ServerToServer(Other(who))).Get(who) == Arrived(s.Get(who), s.Get(Other(who)).link[0])
  {
    hide Arrived;
  }

  lemma HandledBalanced(s: System, step: Step, who: Who)
    requires step == ServerToClient(who) && Enabled(s, step)
    ensures Balanced(s, Next(s, step), who, move => One(Is(s, step, who, move)))
  {
    hide Own, Contacts, Count;
    var x := s.Get(who);
    Pop(x.down);
    assert x.up + ANSWER == x.up + [Subscribe] + [Subscribed];
    Push(x.up, Subscribe);
    Push(x.up + [Subscribe], Subscribed);
  }

  lemma LoadedBalanced(s: System, who: Who)
    ensures Balanced(s, Next(s, LoadRoster(who)), who, move => One(Is(s, LoadRoster(who), who, move)))
  {
    hide Own, Contacts, Count;
    Push(s.Get(who).up, Subscribe);
  }

  lemma StepBalanced(s: System, step: Step, who: Who)
    requires Enabled(s, step)
    ensures Balanced(s, Next(s, step), who, move => One(Is(s, step, who, move)))
  {
    if step == ServerToServer(Other(who)) {
      hide Next;
      ArrivedBalanced(s, step, who);
    } else if step.who != who {
      hide Count, Own, Contacts, Sent, Handled, Arrived, RosterLoaded;
    } else {
      hide Next;
      match step
      case LoadRoster(_) => LoadedBalanced(s, who);
      case ClientToServer(_) => SentBalanced(s, step, who);
      case ServerToServer(_) => LeftBalanced(s, step, who);
      case ServerToClient(_) => HandledBalanced(s, step, who);
    }
  }

  lemma {:induction false} RunBalanced(s: System, run: seq<Step>, who: Who)
    requires Possible(s, run)
    ensures Balanced(s, Exec(s, run), who, move requires Possible(s, run) => Moves(s, run, who, move))
    decreases |run|
  {
    hide Next, Enabled, Is, Count, Own, Contacts;
    if run != [] {
      StepBalanced(s, run[0], who);
      RunBalanced(Next(s, run[0]), run[1..], who);
    }
  }

  /**
   Over a whole run nothing is lost or made up, at either side. A client sends a request for every roster that lacks
   its contact and for every request that reaches it, and a consent for each of the latter; what it sends crosses to
   the other server, except for the consents to nothing, while the server adds a consent for each request that comes
   again. Of the other one's requests exactly one reaches the client, and of its consents the one that counts.
   */
  lemma {:induction false} StanzasConserved(run: seq<Step>, who: Who)
    requires Possible(INIT, run)
    ensures var x := Exec(INIT, run).Get(who);
            && Moves(INIT, run, who, Reaches(Subscribe)) == x.handled
            && Moves(INIT, run, who, Sends(Subscribe)) + Count(x.up, Subscribe) ==
               Moves(INIT, run, who, Asks) + x.handled
            && Moves(INIT, run, who, Sends(Subscribed)) + Count(x.up, Subscribed) == x.handled
            && Moves(INIT, run, who, Crosses(Subscribe)) + Count(x.link, Subscribe) ==
               Moves(INIT, run, who, Sends(Subscribe))
            && Moves(INIT, run, who, Crosses(Subscribed)) + Count(x.link, Subscribed) ==
               One(x.state in {S10nFrom, S10nFromOut, S10nBoth}) + Moves(INIT, run, who, IsAskedAgain)
            && x.handled + Count(x.down, Subscribe) == One(x.state !in {S10nNone, S10nNoneOut, S10nTo})
            && Moves(INIT, run, who, Reaches(Subscribed)) + Count(x.down, Subscribed) ==
               One(x.state in {S10nTo, S10nToIn, S10nBoth})
  {
    hide Possible, Exec, Moves, Is;
    RunBalanced(INIT, run, who);
  }

  // ----- neither end is subscribed on one side only

  /** Before a consent there is always a request of one's own: in the queue, or sent already. */
  predicate RequestFirst(q: seq<Stanza>, sent: bool) {
    forall i :: 0 <= i < |q| && q[i] == Subscribed ==> sent || Subscribe in q[..i]
  }

  predicate Ordered(x: Side, y: Side) {
    && RequestFirst(x.up, Own(x.state) != Nothing)
    && (Contacts(x.state) == Granted ==> Own(x.state) != Nothing)
    && RequestFirst(x.link, Contacts(y.state) != Nothing)
    && (Own(x.state) == Granted ==> Contacts(x.state) != Nothing)
  }

  lemma FirstPopped(q: seq<Stanza>, sent: bool)
    requires q != [] && RequestFirst(q, sent)
    ensures q[0] == Subscribed ==> sent
    ensures RequestFirst(q[1..], true)
  {
    assert q[..0] == [];
  }

  lemma FirstPushed(q: seq<Stanza>, sent: bool, x: Stanza)
    requires RequestFirst(q, sent)
    requires x == Subscribe || sent || Subscribe in q
    ensures RequestFirst(q + [x], sent)
  {
    forall i | 0 <= i < |q + [x]| && (q + [x])[i] == Subscribed ensures sent || Subscribe in (q + [x])[..i] {
      if i < |q| {
        assert (q + [x])[..i] == q[..i];
      } else {
        assert (q + [x])[..i] == q;
      }
    }
  }

  lemma SentOrdered(x: Side, y: Side)
    requires x.up != [] && Mirror(x, y) && Mirror(y, x) && Ordered(x, y) && Ordered(y, x)
    ensures Ordered(Sent(x), y) && Ordered(y, Sent(x))
  {
    TablesByHalves(x.state);
    hide OutboundSubscribe, OutboundSubscribed, Own, Contacts, RequestFirst;
    FirstPopped(x.up, Own(x.state) != Nothing);
    if x.up[0] == Subscribe || Contacts(x.state) == Pending {
      FirstPushed(x.link, Contacts(y.state) != Nothing, x.up[0]);
    }
  }

  lemma ArrivedOrdered(x: Side, y: Side)
    requires x.link != [] && Mirror(x, y) && Mirror(y, x) && Ordered(x, y) && Ordered(y, x)
    ensures var x', y' := x.(link := x.link[1..]), Arrived(y, x.link[0]);
            Ordered(x', y') && Ordered(y', x')
  {
    TablesByHalves(y.state);
    hide InboundSubscribe, InboundSubscribed, Own, Contacts, RequestFirst;
    FirstPopped(x.link, Contacts(y.state) != Nothing);
    if x.link[0] == Subscribe && Contacts(y.state) == Granted {
      FirstPushed(y.link, Contacts(x.state) != Nothing, Subscribed);
    }
  }

  lemma HandledOrdered(x: Side, y: Side)
    requires x.down != [] && Ordered(x, y) && Ordered(y, x)
    ensures Ordered(Handled(x), y) && Ordered(y, Handled(x))
  {
    hide Own, Contacts, RequestFirst;
    assert x.up + ANSWER == x.up + [Subscribe] + [Subscribed];
    FirstPushed(x.up, Own(x.state) != Nothing, Subscribe);
    FirstPushed(x.up + [Subscribe], Own(x.state) != Nothing, Subscribed);
  }

  lemma LoadedOrdered(x: Side, y: Side)
    requires Ordered(x, y) && Ordered(y, x)
    ensures Ordered(RosterLoaded(x), y) && Ordered(y, RosterLoaded(x))
  {
    hide Own, Contacts, RequestFirst;
    FirstPushed(x.up, Own(x.state) != Nothing, Subscribe);
  }

  lemma StepOrdered(s: System, step: Step)
    requires Enabled(s, step) && Mirror(s.a, s.b) && Mirror(s.b, s.a) && Ordered(s.a, s.b) && Ordered(s.b, s.a)
    ensures var t := Next(s, step); Ordered(t.a, t.b) && Ordered(t.b, t.a)
  {
    hide Ordered, Mirror, Sent, Arrived, Handled, RosterLoaded;
    var x, y := s.Get(step.who), s.Get(Other(step.who));
    match step
    case LoadRoster(_) => LoadedOrdered(x, y);
    case ClientToServer(_) => SentOrdered(x, y);
    case ServerToServer(_) => ArrivedOrdered(x, y);
    case ServerToClient(_) => HandledOrdered(x, y);
  }

  lemma {:induction false} RunOrdered(s: System, run: seq<Step>)
    requires Possible(s, run) && Inv(s) && Ordered(s.a, s.b) && Ordered(s.b, s.a)
    ensures Ordered(Exec(s, run).a, Exec(s, run).b) && Ordered(Exec(s, run).b, Exec(s, run).a)
    decreases |run|
  {
    hide Ordered, Mirror, Answering, Next, Enabled;
    if run != [] {
      NextInv(s, run[0]);
      StepOrdered(s, run[0]);
      RunOrdered(Next(s, run[0]), run[1..]);
    }
  }

  /**
   Since a client asks before it agrees and stanzas arrive in the order in which they were sent, no end ever has a
   finished subscription in one direction while nothing is known of the other: "from" and "to" are not reached.
   */
  lemma {:induction false} NeverOneSided(run: seq<Step>, who: Who)
    requires Possible(INIT, run)
    ensures Exec(INIT, run).Get(who).state !in {S10nFrom, S10nTo}
  {
    hide Possible, Exec, RequestFirst;
    InitInv();
    StartOrdered();
    RunOrdered(INIT, run);
  }

  lemma StartOrdered()
    ensures Ordered(START, START)
  {
  }
}
