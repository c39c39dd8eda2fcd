/** The state of the XMPP client told by the events, field by field: what has happened says what the client holds. */
module XmppEvents {
  import opened AccountRegistration
  import opened XmppClient
  import opened XmppRuns

  /** The last position at which an event with property p meets the state it finds, or -1. */
  function LatestStep(run: seq<Event>, p: (Snapshot, Event) -> bool): (i: int)
    ensures -1 <= i < |run|
    ensures 0 <= i ==> p(Run(run[..i]), run[i])
  {
    if run == [] then -1 else
    var n := |run| - 1;
    if p(Run(run[..n]), run[n]) then n else
    var i := LatestStep(run[..n], p);
    assert 0 <= i ==> run[..n][..i] == run[..i];
    i
  }

  lemma {:induction false} LatestStepIs(run: seq<Event>, p: (Snapshot, Event) -> bool, i: int)
    requires -1 <= i < |run|
    ensures i == LatestStep(run, p) <==>
            && (0 <= i ==> p(Run(run[..i]), run[i]))
            && (forall k :: i < k < |run| ==> !p(Run(run[..k]), run[k]))
  {
    hide Run;
    if run != [] {
      var n := |run| - 1;
      forall k | 0 <= k < n ensures run[..n][..k] == run[..k] && run[..n][k] == run[k] {
      }
      if i < n {
        LatestStepIs(run[..n], p, i);
      }
    }
  }

  /** How often an event with property p meets the state it finds. */
  function CountSteps(run: seq<Event>, p: (Snapshot, Event) -> bool): nat {
    if run == [] then 0 else
    var front, last := run[..|run| - 1], run[|run| - 1];
    CountSteps(front, p) + if p(Run(front), last) then 1 else 0
  }

  // ----- the connection, its server and the credentials

  predicate IsLink(ev: Event) {
    ev.OnConnect? || ev.OnTLSConnect? || ev.OnDisconnect?
  }

  /** The last event of the connection tells whether there is one. */
  predicate LinkedBy(run: seq<Event>) {
    var i := Latest(run, IsLink);
    0 <= i && !run[i].OnDisconnect?
  }

  /** There is an XMPP client from the first connect with a user and a server on. */
  predicate HasClientBy(run: seq<Event>) {
    0 <= LatestStep(run, Clears)
  }

  /** The server is that of the last such connect, whether it got a thread or not. */
  function ServerBy(run: seq<Event>): string {
    var i := LatestStep(run, Clears);
    if i < 0 then "" else if run[i].Connect? then run[i].c.host else CredentialsBy(run[..i]).host
  }

  function CredentialsBy(run: seq<Event>): Credentials {
    var i := Latest(run, IsStart);
    if i < 0 then NOBODY else run[i].c
  }

  /** After a disconnect that is answered by a registration. */
  predicate Reconnects(s: Snapshot, ev: Event) {
    Registers(s, ev) && AccountAfter(s, ev).status == SUCCESS
  }

  /** A registration is possible after a connect that gets its thread, by the user or by the client itself. */
  predicate Arms(s: Snapshot, ev: Event) {
    IsStart(ev) || (Reconnects(s, ev) && Starts(s.credentials, ev.restarts))
  }

  /** It is no longer after the user has disconnected, or after an authentication error. */
  predicate Disarms(s: Snapshot, ev: Event) {
    (ev.Disconnect? && s.connected) || (ev.OnDisconnect? && IsAuthenticationError(ev.error))
  }

  predicate ArmedBy(run: seq<Event>) {
    var i := LatestStep(run, Arms);
    0 <= i && LatestStep(run, Disarms) <= i
  }

  /** The connection, the client and its server after an event, and whether a registration is in reserve. */
  predicate ConnectionFollows(s: Snapshot, ev: Event, n: Snapshot) {
    && n.connected == (if IsLink(ev) then !ev.OnDisconnect? else s.connected)
    && n.hasClient == (s.hasClient || Clears(s, ev))
    && n.server == (if !Clears(s, ev) then s.server else if ev.Connect? then ev.c.host else s.credentials.host)
    && n.armed == (Arms(s, ev) || (s.armed && !Disarms(s, ev)))
  }

  lemma RegisteredConnection(s: Snapshot, ev: Event)
    requires Registers(s, ev)
    ensures ConnectionFollows(s, ev, Next(s, ev))
  {
    hide AfterInit;
  }

  lemma StepConnection(s: Snapshot, ev: Event)
    ensures ConnectionFollows(s, ev, Next(s, ev))
  {
    if Registers(s, ev) {
      hide Next;
      RegisteredConnection(s, ev);
    } else {
      hide Registered, AccountAfter, NewRoster;
    }
  }

  /** Whether there is a connection, a client and a registration in reserve, and the server, are what the events say. */
  lemma {:induction false} ConnectionByEvents(run: seq<Event>)
    ensures var s := Run(run);
            && s.connected == LinkedBy(run) && s.hasClient == HasClientBy(run) && s.server == ServerBy(run)
            && s.armed == ArmedBy(run) && s.credentials == CredentialsBy(run)
  {
    hide Next, Arms, Disarms, Clears, IsLink;
    CredentialsOfLastConnect(run);
    if run != [] {
      var front := run[..|run| - 1];
      ConnectionByEvents(front);
      StepConnection(Run(front), run[|run| - 1]);
      var i := LatestStep(front, Clears);
      assert 0 <= i ==> run[..i] == front[..i];
    }
  }

  // ----- the account

  /** A registration that gets as far as asking the server. */
  predicate Begins(s: Snapshot, ev: Event) {
    Registers(s, ev) && Complete(s.credentials)
  }

  /** How the last registration begun has ended. */
  function StatusBy(run: seq<Event>): OperationStatus {
    var i := LatestStep(run, Begins);
    if i < 0 || !run[i].serverReachable then INCOMPLETE
    else if Succeeds(run[i].script) then SUCCESS
    else if IsDecided(run[i].script) then FAILURE
    else INCOMPLETE
  }

  /** For every registration begun, as many accounts as fields have been received for it. */
  function AskedFor(run: seq<Event>): seq<Credentials> {
    if run == [] then [] else
    var front, last := run[..|run| - 1], run[|run| - 1];
    AskedFor(front) +
    if Begins(Run(front), last) && last.serverReachable
    then Repeat(CredentialsBy(front), Asked(last.script, |last.script|))
    else []
  }

  lemma StepAccount(s: Snapshot, ev: Event)
    ensures var n := Next(s, ev);
            && n.account.created ==
               s.account.created +
               (if Begins(s, ev) && ev.serverReachable
                then Repeat(s.credentials, Asked(ev.script, |ev.script|)) else [])
            && n.account.status ==
               (if !Begins(s, ev) then s.account.status
                else if ev.serverReachable && Succeeds(ev.script) then SUCCESS
                else if ev.serverReachable && IsDecided(ev.script) then FAILURE
                else INCOMPLETE)
  {
    hide Next, AfterInit, Asked, Succeeds, IsDecided;
    assert s.account.created + [] == s.account.created + Repeat(s.credentials, 0) == s.account.created;
    if Registers(s, ev) {
      RegisteredStep(s, ev);
      InitOutcome(s.account, s.credentials, ev.serverReachable, ev.script, []);
    } else {
      OtherStep(s, ev);
    }
  }

  /**
   The accounts asked for are exactly those of the registrations begun, each with the credentials of the last connect
   before it, and the status is that of the last of these registrations.
   */
  lemma {:induction false} AccountByEvents(run: seq<Event>)
    ensures Run(run).account.created == AskedFor(run)
    ensures Run(run).account.status == StatusBy(run)
  {
    hide Next, Begins, Asked, Succeeds, IsDecided, CredentialsBy, Repeat;
    if run != [] {
      var front := run[..|run| - 1];
      AccountByEvents(front);
      ConnectionByEvents(front);
      StepAccount(Run(front), run[|run| - 1]);
    }
  }

  // ----- the counters

  /** The counters of the history count what they are meant to. */
  lemma {:induction false} CountersByEvents(run: seq<Event>)
    ensures var h := Run(run).history;
            && h.connects == CountSteps(run, (s: Snapshot, ev: Event) => IsStart(ev))
            && h.attempts == CountSteps(run, Registers)
            && h.successes == CountSteps(run, CreatesAccount)
  {
    hide Next, AfterInit;
    if run != [] {
      var front, ev := run[..|run| - 1], run[|run| - 1];
      CountersByEvents(front);
      if Registers(Run(front), ev) {
        RegisteredStep(Run(front), ev);
      } else {
        OtherStep(Run(front), ev);
      }
    }
  }

  // ----- the state queue

  /** The change an event reports, if it does. */
  function Reported(s: Snapshot, ev: Event): seq<State> {
    match ev
    case OnConnect => [CONNECTED]
    case OnTLSConnect => [TLS_CONNECTED]
    case OnDisconnect(_, _, _, _) => if Registers(s, ev) then [] else [DISCONNECTED]
    case HandleRoster(_) => [ROSTER_LOADED]
    case _ => []
  }

  function StatesSince(run: seq<Event>): seq<State> {
    if run == [] then [] else
    var front, last := run[..|run| - 1], run[|run| - 1];
    if Clears(Run(front), last) then [] else StatesSince(front) + Reported(Run(front), last)
  }

  function TakenSince(run: seq<Event>): nat {
    if run == [] then 0 else
    var front, last := run[..|run| - 1], run[|run| - 1];
    if Clears(Run(front), last) then 0
    else TakenSince(front) + if last.PopState? && TakenSince(front) < |StatesSince(front)| then 1 else 0
  }

  lemma StepStates(s: Snapshot, ev: Event)
    ensures Next(s, ev).stateQueue ==
            if Clears(s, ev) then []
            else if ev.PopState? && s.stateQueue != [] then s.stateQueue[1..]
            else s.stateQueue + Reported(s, ev)
  {
    hide AfterInit;
    assert s.stateQueue + [] == s.stateQueue;
  }

  /** The state queue holds the changes reported since it was last cleared, in order, without those taken out. */
  lemma {:induction false} StatesByEvents(run: seq<Event>)
    ensures TakenSince(run) <= |StatesSince(run)|
    ensures Run(run).stateQueue == StatesSince(run)[TakenSince(run)..]
  {
    hide Next, Clears;
    if run != [] {
      var front := run[..|run| - 1];
      StatesByEvents(front);
      StepStates(Run(front), run[|run| - 1]);
    }
  }

  // ----- requests for subscriptions

  /** A roster without the game engine, for a connected client that is not the docent. */
  predicate MissesGame(run: seq<Event>, names: seq<string>) {
    GAME_ENGINE !in names && LinkedBy(run) && HasClientBy(run) && CredentialsBy(run).username != DOCENT
  }

  /** The sender of every request received, and the game engine for every roster that misses it, in order. */
  function Requests(run: seq<Event>): seq<string> {
    if run == [] then [] else
    var front := run[..|run| - 1];
    Requests(front) +
    match run[|run| - 1]
    case HandleSubscriptionRequest(jid) => if HasClientBy(front) then [jid] else []
    case HandleRoster(names) => if MissesGame(front, names) then [GAME_ENGINE + "@" + ServerBy(front)] else []
    case _ => []
  }

  lemma StepRequests(s: Snapshot, ev: Event)
    ensures Next(s, ev).subscribes ==
            s.subscribes +
            match ev
            case HandleSubscriptionRequest(jid) => if s.hasClient then [jid] else []
            case HandleRoster(names) =>
              if GAME_ENGINE !in names && s.connected && s.hasClient && s.credentials.username != DOCENT
              then [GAME_ENGINE + "@" + s.server] else []
            case _ => []
  {
    hide AfterInit;
    assert s.subscribes + [] == s.subscribes;
  }

  lemma {:induction false} RequestsByEvents(run: seq<Event>)
    ensures Run(run).subscribes == Requests(run)
  {
    hide Next, HasClientBy, LinkedBy, ServerBy, CredentialsBy;
    if run != [] {
      var front := run[..|run| - 1];
      RequestsByEvents(front);
      ConnectionByEvents(front);
      StepRequests(Run(front), run[|run| - 1]);
    }
  }

  // ----- peers

  /** The presences that say that a peer is there. */
  const PRESENT: set<PresenceType> := {PresAvailable, PresChat, PresAway, PresDND, PresXA}

  /** The last presence of a peer has come since the latest roster, which names the peer, and is one of these. */
  predicate LastIs(run: seq<Event>, username: string, presences: set<PresenceType>) {
    var load, last := Latest(run, IsRoster), Latest(run, (ev: Event) => PresenceOf(ev, username));
    0 <= load < last && username in run[load].names && run[last].presence in presences
  }

  /** What each presence means for the peer: every type has its status, but a probe and an error count as invalid. */
  lemma {:induction false} PeerByPresence(run: seq<Event>, username: string)
    ensures PeerConnected(Run(run), username) <==> LastIs(run, username, PRESENT)
    ensures var status := StatusForPeer(Run(run), username);
            && (status == Available <==> LastIs(run, username, {PresAvailable}))
            && (status == Chat <==> LastIs(run, username, {PresChat}))
            && (status == Away <==> LastIs(run, username, {PresAway}))
            && (status == DND <==> LastIs(run, username, {PresDND}))
            && (status == XA <==> LastIs(run, username, {PresXA}))
            && (status == Unavailable <==> LastIs(run, username, {PresUnavailable}))
            && (status == Invalid <==> !LastIs(run, username, PRESENT + {PresUnavailable}))
  {
    hide Run, Latest;
    RosterCache(run, username);
  }
}
