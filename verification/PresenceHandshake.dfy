/**
 Two users who answer every subscription request with a request of their own. Each user has a client and a server
 entry for the other one; stanzas travel in order from client to server (up), from server to server (link) and from
 server to client (down). Any of these queues may move at any time.
 */
module PresenceHandshake {
  import opened SubscriptionStates

  /**
   `handled` counts the subscription requests the client's handler has seen, and `started` says whether the client
   has asked of its own accord; both are only recorded.
   */
  datatype Side = Side(state: SubscriptionType, up: seq<Stanza>, link: seq<Stanza>, down: seq<Stanza>,
                       handled: nat, started: bool)

  datatype Who = A | B

  datatype System = System(a: Side, b: Side)
  {
    function Get(who: Who): Side {
      match who
      case A => a
      case B => b
    }

    function Put(who: Who, side: Side): System {
      match who
      case A => this.(a := side)
      case B => this.(b := side)
    }
  }

  function Other(who: Who): Who {
    match who
    case A => B
    case B => A
  }

  datatype Step =
    | LoadRoster(who: Who)
    | ClientToServer(who: Who)
    | ServerToServer(who: Who)
    | ServerToClient(who: Who)

  const START: Side := Side(S10nNone, [], [], [], 0, false)
  const INIT: System := System(START, START)

  /** The server leaves contacts out of the roster whose request is merely waiting for an answer. */
  predicate InRoster(s: SubscriptionType) {
    s != S10nNone && s != S10nNoneIn
  }

  /** handleRoster: a client whose roster lacks the peer sends a request. */
  function RosterLoaded(x: Side): Side {
    if InRoster(x.state) then x else x.(up := x.up + [Subscribe], started := true)
  }

  /** What the client sends on a request: its own request, then, since the handler returns true, its consent. */
  const ANSWER: seq<Stanza> := [Subscribe, Subscribed]

  predicate Enabled(s: System, step: Step) {
    match step
    case LoadRoster(_) => true
    case ClientToServer(who) => s.Get(who).up != []
    case ServerToServer(who) => s.Get(who).link != []
    case ServerToClient(who) => s.Get(who).down != []
  }

  function Sent(x: Side): Side
    requires x.up != []
  {
    var rest := x.(up := x.up[1..]);
    match x.up[0]
    case Subscribe => rest.(state := OutboundSubscribe(x.state), link := x.link + [Subscribe])
    case Subscribed =>
      var (route, state) := OutboundSubscribed(x.state);
      rest.(state := state, link := if route then x.link + [Subscribed] else x.link)
  }

  /** A stanza from the other server. */
  function Arrived(y: Side, stanza: Stanza): Side {
    var (reaction, state) := if stanza == Subscribe then InboundSubscribe(y.state) else InboundSubscribed(y.state);
    match reaction
    case Deliver => y.(state := state, down := y.down + [stanza])
    case Drop => y.(state := state)
    case AutoReply => y.(state := state, link := y.link + [Subscribed])
  }

  function Handled(x: Side): Side
    requires x.down != []
  {
    var rest := x.(down := x.down[1..]);
    if x.down[0] == Subscribe then rest.(up := x.up + ANSWER, handled := x.handled + 1) else rest
  }

  function Next(s: System, step: Step): System
    requires Enabled(s, step)
  {
    match step
    case LoadRoster(who) => s.Put(who, RosterLoaded(s.Get(who)))
    case ClientToServer(who) => s.Put(who, Sent(s.Get(who)))
    case ServerToServer(who) =>
      var x, y := s.Get(who), s.Get(Other(who));
      s.Put(who, x.(link := x.link[1..])).Put(Other(who), Arrived(y, x.link[0]))
    case ServerToClient(who) => s.Put(who, Handled(s.Get(who)))
  }

  // ----- the invariant

  /**
   The request of x to y, at all stages: where it is in flight, how y's view follows x's, and where the answer is.
   */
  predicate Mirror(x: Side, y: Side) {
    && (Own(x.state) == Nothing ==>
          Contacts(y.state) == Nothing && Subscribe !in x.link && Subscribed !in y.link)
    && (Own(x.state) == Pending && Contacts(y.state) == Nothing ==> Subscribe in x.link)
    && (Own(x.state) == Pending && Contacts(y.state) == Granted ==> Subscribed in y.link)
    && (Own(x.state) == Granted ==> Contacts(y.state) == Granted)
    && (Subscribed in y.link ==> Contacts(y.state) == Granted)
  }

  function Count(q: seq<Stanza>, x: Stanza): nat {
    multiset(q)[x]
  }

  /** The client of y answers each request once, with a request of its own. */
  predicate Answering(y: Side) {
    && y.handled + Count(y.down, Subscribe) == (if Contacts(y.state) == Nothing then 0 else 1)
    && (Contacts(y.state) == Pending ==> Subscribe in y.down || Subscribed in y.up)
    && (Contacts(y.state) != Nothing ==> Subscribe in y.down || Subscribe in y.up || Own(y.state) != Nothing)
    && (y.started ==> Subscribe in y.up || Own(y.state) != Nothing)
  }

  predicate Inv(s: System) {
    && Mirror(s.a, s.b) && Mirror(s.b, s.a)
    && Answering(s.a) && Answering(s.b)
    && (s.a.started || s.b.started || s == INIT)
  }

  lemma Pop(q: seq<Stanza>)
    requires q != []
    ensures q == [q[0]] + q[1..]
    ensures forall x :: x in q <==> x == q[0] || x in q[1..]
    ensures forall x :: Count(q, x) == Count(q[1..], x) + if q[0] == x then 1 else 0
  {
    assert q == [q[0]] + q[1..];
  }

  lemma Push(q: seq<Stanza>, x: Stanza)
    ensures forall y :: y in q + [x] <==> y in q || y == x
    ensures forall y :: Count(q + [x], y) == Count(q, y) + if x == y then 1 else 0
  {
  }

  lemma InitInv()
    ensures Inv(INIT)
  {
  }

  lemma SentInv(x: Side, y: Side)
    requires x.up != [] && Mirror(x, y) && Mirror(y, x) && Answering(x)
    ensures Mirror(Sent(x), y) && Mirror(y, Sent(x)) && Answering(Sent(x))
  {
    TablesByHalves(x.state);
    hide OutboundSubscribe, OutboundSubscribed, InboundSubscribe, InboundSubscribed, Own, Contacts, Count;
    Pop(x.up);
    Push(x.link, x.up[0]);
  }

  lemma ArrivedInv(x: Side, y: Side)
    requires x.link != [] && Mirror(x, y) && Mirror(y, x) && Answering(y)
    ensures var x', y' := x.(link := x.link[1..]), Arrived(y, x.link[0]);
            Mirror(x', y') && Mirror(y', x') && Answering(y')
  {
    TablesByHalves(y.state);
    hide OutboundSubscribe, OutboundSubscribed, InboundSubscribe, InboundSubscribed, Own, Contacts, Count;
    Pop(x.link);
    Push(y.down, x.link[0]);
    Push(y.link, Subscribed);
  }

  lemma HandledInv(x: Side, y: Side)
    requires x.down != [] && Mirror(x, y) && Mirror(y, x) && Answering(x)
    ensures Mirror(Handled(x), y) && Mirror(y, Handled(x)) && Answering(Handled(x))
  {
    hide Own, Contacts, Count;
    Pop(x.down);
    assert x.up + ANSWER == x.up + [Subscribe] + [Subscribed];
    Push(x.up, Subscribe);
    Push(x.up + [Subscribe], Subscribed);
  }

  lemma NextInv(s: System, step: Step)
    requires Inv(s) && Enabled(s, step)
    ensures Inv(Next(s, step))
  {
    StartedStays(s, step);
    hide Mirror, Answering, Sent, Handled, Arrived, RosterLoaded;
    match step
    case LoadRoster(who) => LoadedInv(s.Get(who), s.Get(Other(who)));
    case ClientToServer(who) => SentInv(s.Get(who), s.Get(Other(who)));
    case ServerToServer(who) => ArrivedInv(s.Get(who), s.Get(Other(who))); LinkPopped(s.Get(who));
    case ServerToClient(who) => HandledInv(s.Get(who), s.Get(Other(who)));
  }

  /** Nothing happens before one of the clients has asked. */
  lemma StartedStays(s: System, step: Step)
    requires Enabled(s, step) && (s.a.started || s.b.started || s == INIT)
    ensures var t := Next(s, step); t.a.started || t.b.started || t == INIT
  {
  }

  lemma LoadedInv(x: Side, y: Side)
    requires Mirror(x, y) && Mirror(y, x) && Answering(x)
    ensures Mirror(RosterLoaded(x), y) && Mirror(y, RosterLoaded(x)) && Answering(RosterLoaded(x))
  {
    hide Count;
    Push(x.up, Subscribe);
  }

  lemma LinkPopped(x: Side)
    requires Answering(x) && x.link != []
    ensures Answering(x.(link := x.link[1..]))
  {
  }

  // ----- the exchange comes to an end

  /**
   What a stanza may still give rise to, and what the first request that reaches this side will: a delivered request
   costs more than the two stanzas it is answered with, but a side has only one to deliver.
   */
  function Cost(x: Side): nat {
    4 * Count(x.up, Subscribe) + 3 * Count(x.up, Subscribed) +
    3 * Count(x.link, Subscribe) + 2 * Count(x.link, Subscribed) +
    8 * Count(x.down, Subscribe) + Count(x.down, Subscribed) +
    if Contacts(x.state) == Nothing then 6 else 0
  }

  function Measure(s: System): nat {
    Cost(s.a) + Cost(s.b)
  }

  lemma SentCost(x: Side)
    requires x.up != []
    ensures Cost(Sent(x)) < Cost(x)
  {
    TablesByHalves(x.state);
    hide OutboundSubscribe, OutboundSubscribed, Own, Contacts, Count;
    Pop(x.up);
    Push(x.link, x.up[0]);
  }

  lemma ArrivedCost(x: Side, y: Side)
    requires x.link != []
    ensures Cost(x.(link := x.link[1..])) + Cost(Arrived(y, x.link[0])) < Cost(x) + Cost(y)
  {
    TablesByHalves(y.state);
    hide InboundSubscribe, InboundSubscribed, Own, Contacts, Count;
    Pop(x.link);
    Push(y.down, x.link[0]);
    Push(y.link, Subscribed);
  }

  lemma HandledCost(x: Side)
    requires x.down != []
    ensures Cost(Handled(x)) < Cost(x)
  {
    hide Contacts, Count;
    Pop(x.down);
    assert x.up + ANSWER == x.up + [Subscribe] + [Subscribed];
    Push(x.up, Subscribe);
    Push(x.up + [Subscribe], Subscribed);
  }

  lemma LoadedCost(x: Side)
    ensures Cost(RosterLoaded(x)) <= Cost(x) + 4
  {
    hide Contacts, Count;
    Push(x.up, Subscribe);
  }

  /** Every step of the exchange decreases the measure; only a client that loads its roster adds to it. */
  lemma NextMeasure(s: System, step: Step)
    requires Enabled(s, step)
    ensures if step.LoadRoster? then Measure(Next(s, step)) <= Measure(s) + 4 else Measure(Next(s, step)) < Measure(s)
  {
    hide Cost, Sent, Handled, Arrived, RosterLoaded;
    match step
    case LoadRoster(who) => LoadedCost(s.Get(who));
    case ClientToServer(who) => SentCost(s.Get(who));
    case ServerToServer(who) => ArrivedCost(s.Get(who), s.Get(Other(who)));
    case ServerToClient(who) => HandledCost(s.Get(who));
  }

  // ----- whole runs

  predicate Possible(s: System, run: seq<Step>)
    decreases |run|
  {
    run == [] || (Enabled(s, run[0]) && Possible(Next(s, run[0]), run[1..]))
  }

  function Exec(s: System, run: seq<Step>): System
    requires Possible(s, run)
    decreases |run|
  {
    if run == [] then s else Exec(Next(s, run[0]), run[1..])
  }

  function Loads(run: seq<Step>): nat {
    if run == [] then 0 else (if run[0].LoadRoster? then 1 else 0) + Loads(run[1..])
  }

  lemma {:induction false} RunInv(s: System, run: seq<Step>)
    requires Inv(s) && Possible(s, run)
    ensures Inv(Exec(s, run))
    decreases |run|
  {
    hide Inv, Next, Enabled;
    if run != [] {
      NextInv(s, run[0]);
      RunInv(Next(s, run[0]), run[1..]);
    }
  }

  lemma {:induction false} RunMeasure(s: System, run: seq<Step>)
    requires Possible(s, run)
    ensures |run| + Measure(Exec(s, run)) <= Measure(s) + 5 * Loads(run)
    decreases |run|
  {
    hide Measure, Next, Enabled;
    if run != [] {
      NextMeasure(s, run[0]);
      RunMeasure(Next(s, run[0]), run[1..]);
    }
  }

  predicate Quiescent(s: System) {
    forall who :: s.Get(who).up == s.Get(who).link == s.Get(who).down == []
  }

  lemma QuiescentStates(s: System)
    requires Inv(s) && Quiescent(s)
    ensures s.a.state == s.b.state == if s.a.started || s.b.started then S10nBoth else S10nNone
  {
    assert s.Get(A).up == [] && s.Get(B).up == [];
    HalvesDetermine(s.a.state, S10nBoth);
    HalvesDetermine(s.b.state, S10nBoth);
  }

  /**
   Every run from the start, however the queues are interleaved and however often rosters are loaded: the exchange
   has taken at most 12 steps plus 4 for each roster load, each client has been asked at most once, and once nothing
   is in flight both ends are in state "both", or in "none" if neither client has asked.
   */
  lemma {:induction false} HandshakeCompletes(run: seq<Step>)
    requires Possible(INIT, run)
    ensures |run| - Loads(run) <= 12 + 4 * Loads(run)
    ensures var s := Exec(INIT, run);
            && s.a.handled <= 1 && s.b.handled <= 1
            && (Quiescent(s) ==> s.a.state == s.b.state == if s.a.started || s.b.started then S10nBoth else S10nNone)
            && (!Quiescent(s) ==> exists step: Step :: !step.LoadRoster? && Enabled(s, step))
  {
    InitInv();
    RunInv(INIT, run);
    RunMeasure(INIT, run);
    var s := Exec(INIT, run);
    if Quiescent(s) {
      QuiescentStates(s);
    } else {
      var who :| s.Get(who).up != [] || s.Get(who).link != [] || s.Get(who).down != [];
      assert Enabled(s, ClientToServer(who)) || Enabled(s, ServerToServer(who)) || Enabled(s, ServerToClient(who));
    }
  }

  /**
   In every reachable state the two ends agree up to stanzas in flight: x is subscribed to y only if y has agreed;
   y has agreed only if x has asked; and x waits only for a request still on its way, an answer of y's still to be
   given, or a consent on its way back.
   */
  lemma {:induction false} EndsAgree(run: seq<Step>, who: Who)
    requires Possible(INIT, run)
    ensures var s := Exec(INIT, run);
            var x, y := s.Get(who), s.Get(Other(who));
            && (x.state in {S10nTo, S10nToIn, S10nBoth} ==> y.state in {S10nFrom, S10nFromOut, S10nBoth})
            && (y.state in {S10nFrom, S10nFromOut, S10nBoth} && x.state !in {S10nTo, S10nToIn, S10nBoth} ==>
                  x.state in {S10nNoneOut, S10nNoneOutIn, S10nFromOut} && Subscribed in y.link)
            && (y.state in {S10nNoneIn, S10nNoneOutIn, S10nToIn} ==>
                  && x.state in {S10nNoneOut, S10nNoneOutIn, S10nFromOut}
                  && (Subscribe in y.down || Subscribed in y.up))
            && (x.state in {S10nNoneOut, S10nNoneOutIn, S10nFromOut} && y.state in {S10nNone, S10nNoneOut, S10nTo} ==>
                  Subscribe in x.link)
  {
    InitInv();
    RunInv(INIT, run);
  }
}
