/**
 The XMPP client and its listener: connecting with one-shot registration, the state queue and the roster cache. Every
 public call and every callback is one atomic step. What the environment decides is a parameter: whether a thread can
 be created, what a registration brings, and the contents of rosters and presences.
 */
module XmppClient {
  import opened AccountRegistration

  datatype ConnectionError =
    | ConnNoError
    | ConnStreamError
    | ConnStreamVersionError
    | ConnStreamClosed
    | ConnProxyAuthRequired
    | ConnProxyAuthFailed
    | ConnProxyNoSupportedAuth
    | ConnIoError
    | ConnParseError
    | ConnConnectionRefused
    | ConnDnsError
    | ConnOutOfMemory
    | ConnNoSupportedAuth
    | ConnTlsFailed
    | ConnTlsNotAvailable
    | ConnCompressionFailed
    | ConnAuthenticationFailed
    | ConnUserDisconnected
    | ConnNotConnected

  /** The errors that let the client try to register the account. */
  predicate IsAuthenticationError(e: ConnectionError) {
    e in {ConnProxyAuthRequired, ConnProxyAuthFailed, ConnProxyNoSupportedAuth, ConnTlsFailed, ConnTlsNotAvailable,
          ConnNoSupportedAuth, ConnAuthenticationFailed}
  }

  datatype State = CONNECTED | TLS_CONNECTED | DISCONNECTED | ROSTER_LOADED

  /** gloox's presence types, in the order of their numbers. */
  datatype PresenceType =
    | PresAvailable
    | PresChat
    | PresAway
    | PresDND
    | PresXA
    | PresUnavailable
    | PresProbe
    | PresError
    | PresInvalid

  datatype Status = Available | Chat | Away | DND | XA | Unavailable | Invalid

  function PresenceNumber(p: PresenceType): nat {
    match p
    case PresAvailable => 0
    case PresChat => 1
    case PresAway => 2
    case PresDND => 3
    case PresXA => 4
    case PresUnavailable => 5
    case PresProbe => 6
    case PresError => 7
    case PresInvalid => 8
  }

  const STATUSES: seq<Status> := [Available, Chat, Away, DND, XA, Unavailable, Invalid]

  function StatusNumber(s: Status): nat {
    match s
    case Available => 0
    case Chat => 1
    case Away => 2
    case DND => 3
    case XA => 4
    case Unavailable => 5
    case Invalid => 6
  }

  /** A cast between enumerations that do not quite agree: a probe lands on "invalid". */
  function PresenceToStatus(p: PresenceType): Status {
    if PresenceNumber(p) <= 6 then STATUSES[PresenceNumber(p)] else Invalid
  }

  datatype Peer = Peer(connected: bool, status: Status)

  const NEW_PEER: Peer := Peer(false, Invalid)

  function WithStatus(status: Status): Peer {
    Peer(StatusNumber(status) < 5, status)
  }

  const DOCENT: string := "docent"
  const GAME_ENGINE: string := "game-engine"

  /** What the queues for messages and presences hold. */
  datatype ChatEvent = ChatEvent(username: string, message: string)
  datatype PresenceEvent = PresenceEvent(username: string, status: Status)

  /** What has happened to the state queue, in order. A swallowed disconnect has led to a registration instead. */
  datatype Mark =
    | Pushed(state: State)
    | Swallowed
    | Cleared
    | Popped

  /** Counters and a log that the code does not keep. */
  datatype History = History(
    connects: nat,      // calls of connect by the user that started a thread
    attempts: nat,      // authentication failures answered by a registration
    successes: nat,     // registrations that ended with a success result
    stale: nat,         // registrations not even begun, whose status is an earlier success
    marks: seq<Mark>
  )

  datatype Snapshot = Snapshot(
    hasClient: bool,
    connected: bool,
    server: string,
    armed: bool,
    credentials: Credentials,
    account: Account,
    roster: map<string, Peer>,
    eventQueue: seq<ChatEvent>,
    stateQueue: seq<State>,
    presenceQueue: seq<PresenceEvent>,
    subscribes: seq<string>,
    history: History
  )

  const NOBODY: Credentials := Credentials("", "", "")

  const START: Snapshot :=
    Snapshot(false, false, "", false, NOBODY, Account(INCOMPLETE, NOBODY, false, []), map[], [], [], [], [],
             History(0, 0, 0, 0, []))

  datatype Event =
    | Connect(c: Credentials, threadStarts: bool)
    | Disconnect
    | OnConnect
    | OnTLSConnect
    | OnDisconnect(error: ConnectionError, serverReachable: bool, script: seq<Receive>, restarts: bool)
    | HandleRoster(names: seq<string>)
    | HandlePresence(name: string, presence: PresenceType)
    | HandleMessage(name: string, body: string)
    | HandleSubscriptionRequest(jid: string)
    | PopState

  function Log(s: Snapshot, mark: Mark): Snapshot {
    s.(history := s.history.(marks := s.history.marks + [mark]))
  }

  function AfterPush(s: Snapshot, state: State): Snapshot {
    Log(s.(stateQueue := s.stateQueue + [state]), Pushed(state))
  }

  /** connect, by the user or after a registration. The queues are cleared before the thread is known to start. */
  function Connected(s: Snapshot, c: Credentials, threadStarts: bool): Snapshot {
    if c.username == "" || c.host == "" then s else
    var cleared := Log(s.(hasClient := true, server := c.host, eventQueue := [], stateQueue := [], presenceQueue := []),
                       Cleared);
    if threadStarts then cleared.(credentials := c, armed := true) else cleared
  }

  predicate Starts(c: Credentials, threadStarts: bool) {
    c.username != "" && c.host != "" && threadStarts
  }

  function Attempted(h: History, complete: bool, success: bool): History {
    h.(attempts := h.attempts + 1,
       successes := h.successes + (if complete && success then 1 else 0),
       stale := h.stale + (if !complete && success then 1 else 0),
       marks := h.marks + [Swallowed])
  }

  /** The one-shot registration, and the reconnection if the account creator's status is success. */
  function Registered(s: Snapshot, serverReachable: bool, script: seq<Receive>, restarts: bool): Snapshot {
    var account := AfterInit(s.account, s.credentials, serverReachable, script);
    var h := Attempted(s.history, Complete(s.credentials), account.status == SUCCESS);
    var tried := s.(account := account, armed := false, history := h);
    if account.status == SUCCESS then Connected(tried, s.credentials, restarts) else tried
  }

  function NewRoster(names: seq<string>): map<string, Peer> {
    map n | n in names :: NEW_PEER
  }

  /** A client other than the docent that misses the game engine in its roster asks for a subscription. */
  function Subscribed(s: Snapshot, names: seq<string>): Snapshot {
    if s.credentials.username != DOCENT && GAME_ENGINE !in names && s.connected && s.hasClient
    then s.(subscribes := s.subscribes + [GAME_ENGINE + "@" + s.server])
    else s
  }

  /** Only a known peer changes, but every presence is queued. */
  function WithPresence(s: Snapshot, name: string, status: Status): Snapshot {
    var queued := s.(presenceQueue := s.presenceQueue + [PresenceEvent(name, status)]);
    if name in s.roster then queued.(roster := s.roster[name := WithStatus(status)]) else queued
  }

  /** A request for a subscription comes from the XMPP client, so there is none without one. */
  function Next(s: Snapshot, ev: Event): Snapshot {
    match ev
    case Connect(c, threadStarts) =>
      var n := Connected(s, c, threadStarts);
      if Starts(c, threadStarts) then n.(history := n.history.(connects := n.history.connects + 1)) else n
    case Disconnect => if s.connected then s.(armed := false) else s
    case OnConnect => AfterPush(s.(connected := true), CONNECTED)
    case OnTLSConnect => AfterPush(s.(connected := true), TLS_CONNECTED)
    case OnDisconnect(error, serverReachable, script, restarts) =>
      var n := s.(connected := false);
      if IsAuthenticationError(error) && s.armed then Registered(n, serverReachable, script, restarts)
      else AfterPush(n, DISCONNECTED)
    case HandleRoster(names) => AfterPush(Subscribed(s.(roster := NewRoster(names)), names), ROSTER_LOADED)
    case HandlePresence(name, presence) => WithPresence(s, name, PresenceToStatus(presence))
    case HandleMessage(name, body) => s.(eventQueue := s.eventQueue + [ChatEvent(name, body)])
    case HandleSubscriptionRequest(jid) => if s.hasClient then s.(subscribes := s.subscribes + [jid]) else s
    case PopState =>
      if s.stateQueue == [] then s else Log(s.(stateQueue := s.stateQueue[1..]), Popped)
  }

  function Run(run: seq<Event>): Snapshot {
    if run == [] then START else Next(Run(run[..|run| - 1]), run[|run| - 1])
  }

  function StatusForPeer(s: Snapshot, username: string): Status {
    if username in s.roster then s.roster[username].status else Invalid
  }

  predicate PeerConnected(s: Snapshot, username: string) {
    username in s.roster && s.roster[username].connected
  }

  // ----- the objects

  /** The side towards gloox. Every callback is passed on to the delegate. */
  class Listener {
    var hasClient: bool
    var isConnected: bool
    var server: string
    var sent: seq<string>

    constructor ()
      ensures !hasClient && !isConnected && server == "" && sent == []
    {
      hasClient, isConnected, server, sent := false, false, "", [];
    }

    /** A new XMPP client for every connection. */
    method Setup(host: string)
      modifies `server, `hasClient
      ensures hasClient && server == if host == "" then old(server) else host
    {
      if host != "" {
        server := host;
      }
      hasClient := true;
    }

    /** Sends the stanza only while connected, over an existing client. */
    method SubscribeTo(recipient: string) returns (done: bool)
      modifies `sent
      ensures done == (isConnected && hasClient)
      ensures sent == if isConnected && hasClient then old(sent) + [recipient] else old(sent)
    {
      if !isConnected || !hasClient {
        return false;
      }
      sent := sent + [recipient];
      return true;
    }
  }

  class Client {
    const listener: Listener
    const accountCreator: AccountRegistration
    var initialConnection: bool
    var credentials: Credentials
    var roster: map<string, Peer>
    var eventQueue: seq<ChatEvent>
    var stateQueue: seq<State>
    var presenceQueue: seq<PresenceEvent>
    ghost var history: History

    ghost function View(): Snapshot
      reads this, listener, accountCreator
    {
      Snapshot(listener.hasClient, listener.isConnected, listener.server, initialConnection, credentials,
               accountCreator.View(), roster, eventQueue, stateQueue, presenceQueue, listener.sent, history)
    }

    constructor ()
      ensures View() == START
    {
      listener := new Listener();
      accountCreator := new AccountRegistration();
      initialConnection, credentials, roster := false, NOBODY, map[];
      eventQueue, stateQueue, presenceQueue := [], [], [];
      history := History(0, 0, 0, 0, []);
    }

    method Push(state: State)
      modifies `stateQueue, `history
      ensures View() == AfterPush(old(View()), state)
    {
      stateQueue := stateQueue + [state];
      history := history.(marks := history.marks + [Pushed(state)]);
    }

    /** The body of connect, shared by the user's call and the internal one. */
    method Start(c: Credentials, threadStarts: bool) returns (started: bool)
      modifies this, listener
      ensures View() == Connected(old(View()), c, threadStarts)
      ensures started == Starts(c, threadStarts)
    {
      if c.username == "" || c.host == "" {
        return false;
      }
      listener.Setup(c.host);
      eventQueue, stateQueue, presenceQueue := [], [], [];
      history := history.(marks := history.marks + [Cleared]);
      if !threadStarts {
        return false;
      }
      credentials := c;
      initialConnection := true;
      return true;
    }

    method Connect(c: Credentials, threadStarts: bool) returns (started: bool)
      modifies this, listener
      ensures View() == Next(old(View()), Event.Connect(c, threadStarts))
      ensures started == Starts(c, threadStarts)
    {
      started := Start(c, threadStarts);
      if started {
        history := history.(connects := history.connects + 1);
      }
    }

    /** Closing the connection brings a disconnect callback later; joining the thread changes nothing here. */
    method Disconnect(joins: bool) returns (done: bool)
      modifies this
      ensures View() == Next(old(View()), Event.Disconnect)
      ensures done == (listener.isConnected && joins)
    {
      if listener.isConnected {
        initialConnection := false;
        return joins;
      }
      return false;
    }

    method OnConnect()
      modifies this, listener
      ensures View() == Next(old(View()), Event.OnConnect)
    {
      listener.isConnected := true;
      Push(CONNECTED);
    }

    method OnTLSConnect()
      modifies this, listener
      ensures View() == Next(old(View()), Event.OnTLSConnect)
    {
      listener.isConnected := true;
      Push(TLS_CONNECTED);
    }

    method Register(serverReachable: bool, script: seq<Receive>, restarts: bool)
      modifies this, listener, accountCreator
      ensures View() == Registered(old(View()), serverReachable, script, restarts)
    {
      hide AfterInit, Attempted, Connected;
      var begun := accountCreator.Init(credentials, serverReachable, script);
      initialConnection := false;
      history := Attempted(history, Complete(credentials), accountCreator.status == SUCCESS);
      if accountCreator.status == SUCCESS {
        var started := Start(credentials, restarts);
      }
    }

    method OnDisconnect(error: ConnectionError, serverReachable: bool, script: seq<Receive>, restarts: bool)
      modifies this, listener, accountCreator
      ensures View() == Next(old(View()), Event.OnDisconnect(error, serverReachable, script, restarts))
    {
      hide AfterInit, Registered;
      listener.isConnected := false;
      var shouldRegister := false;
      match error {
        case ConnProxyAuthRequired | ConnProxyAuthFailed | ConnProxyNoSupportedAuth | ConnTlsFailed
             | ConnTlsNotAvailable | ConnNoSupportedAuth | ConnAuthenticationFailed =>
          shouldRegister := initialConnection;
        case _ =>
      }
      if shouldRegister {
        Register(serverReachable, script, restarts);
      } else {
        Push(DISCONNECTED);
      }
    }

    method HandleRoster(names: seq<string>)
      modifies this, listener
      ensures View() == Next(old(View()), Event.HandleRoster(names))
    {
      var subscribeToGame := credentials.username != DOCENT;
      roster := map[];
      for i := 0 to |names|
        modifies `roster
        invariant roster == NewRoster(names[..i])
        invariant subscribeToGame == (credentials.username != DOCENT && GAME_ENGINE !in names[..i])
      {
        if names[i] == GAME_ENGINE {
          subscribeToGame := false;
        }
        if names[i] !in roster {
          roster := roster[names[i] := NEW_PEER];
        }
        assert names[..i + 1] == names[..i] + [names[i]];
      }
      assert names[..|names|] == names;
      assert roster == NewRoster(names);
      if subscribeToGame {
        var done := listener.SubscribeTo(GAME_ENGINE + "@" + listener.server);
      }
      Push(ROSTER_LOADED);
    }

    method HandleRosterPresence(name: string, presence: PresenceType)
      modifies `roster, `presenceQueue
      ensures View() == Next(old(View()), HandlePresence(name, presence))
    {
      if name in roster {
        roster := roster[name := WithStatus(PresenceToStatus(presence))];
      }
      presenceQueue := presenceQueue + [PresenceEvent(name, PresenceToStatus(presence))];
    }

    method HandleMessage(name: string, body: string)
      modifies `eventQueue
      ensures View() == Next(old(View()), Event.HandleMessage(name, body))
    {
      eventQueue := eventQueue + [ChatEvent(name, body)];
    }

    /** Every request is answered by a request of one's own, and accepted. */
    method HandleSubscriptionRequest(jid: string) returns (accepted: bool)
      requires listener.hasClient
      modifies listener
      ensures View() == Next(old(View()), Event.HandleSubscriptionRequest(jid))
      ensures accepted
    {
      listener.sent := listener.sent + [jid];
      return true;
    }

    method PopState() returns (state: seq<State>)
      modifies `stateQueue, `history
      ensures View() == Next(old(View()), Event.PopState)
      ensures state == if old(stateQueue) == [] then [] else [old(stateQueue)[0]]
    {
      if stateQueue == [] {
        return [];
      }
      state := [stateQueue[0]];
      stateQueue := stateQueue[1..];
      history := history.(marks := history.marks + [Popped]);
    }

    method GetStatusForPeer(username: string) returns (status: Status)
      ensures status == StatusForPeer(View(), username)
    {
      if username in roster {
        return roster[username].status;
      }
      return Invalid;
    }

    method IsPeerConnected(username: string) returns (connected: bool)
      ensures connected == PeerConnected(View(), username)
    {
      if username in roster {
        return roster[username].connected;
      }
      return false;
    }
  }
}
