/** What holds after every sequence of calls and callbacks of the XMPP client. */
module XmppRuns {
  import opened AccountRegistration
  import opened XmppClient

  /** The last position whose event has property p, or -1. */
  function Latest(run: seq<Event>, p: Event -> bool): (i: int)
    ensures -1 <= i < |run|
    ensures 0 <= i ==> p(run[i])
    ensures forall k :: i < k < |run| ==> !p(run[k])
  {
    if run == [] then -1
    else if p(run[|run| - 1]) then |run| - 1
    else Latest(run[..|run| - 1], p)
  }

  /** The credentials in the user's calls of connect, in order, whether they led to anything or not. */
  function Calls(run: seq<Event>): seq<Credentials> {
    if run == [] then [] else Calls(run[..|run| - 1]) + CallOf(run[|run| - 1])
  }

  function CallOf(ev: Event): seq<Credentials> {
    if ev.Connect? then [ev.c] else []
  }

  lemma {:induction false} RunNext(run: seq<Event>, ev: Event)
    ensures Run(run + [ev]) == Next(Run(run), ev)
    ensures Calls(run + [ev]) == Calls(run) + CallOf(ev)
  {
    hide Next;
    assert (run + [ev])[..|run|] == run;
  }

  /** A disconnect that makes the client try to register. */
  predicate Registers(s: Snapshot, ev: Event) {
    ev.OnDisconnect? && IsAuthenticationError(ev.error) && s.armed
  }

  /** The account after a registration. */
  function AccountAfter(s: Snapshot, ev: Event): Account
    requires ev.OnDisconnect?
  {
    AfterInit(s.account, s.credentials, ev.serverReachable, ev.script)
  }

  // ----- what one step does to the parts that matter here

  lemma ConnectedKeeps(s: Snapshot, c: Credentials, threadStarts: bool)
    ensures var n := Connected(s, c, threadStarts);
            && n.account == s.account && n.roster == s.roster && n.history == s.history.(marks := n.history.marks)
            && (if Starts(c, threadStarts) then n.armed && n.credentials == c
                else n.armed == s.armed && n.credentials == s.credentials)
  {
  }

  lemma RegisteredStep(s: Snapshot, ev: Event)
    requires Registers(s, ev)
    ensures var n, success := Next(s, ev), AccountAfter(s, ev).status == SUCCESS;
            && n.account == AccountAfter(s, ev) && n.credentials == s.credentials && n.roster == s.roster
            && n.history == Attempted(s.history, Complete(s.credentials), success).(marks := n.history.marks)
            && n.armed == (success && Starts(s.credentials, ev.restarts))
  {
    hide AfterInit, Connected;
    var account := AccountAfter(s, ev);
    var h := Attempted(s.history, Complete(s.credentials), account.status == SUCCESS);
    var tried := s.(connected := false, account := account, armed := false, history := h);
    ConnectedKeeps(tried, s.credentials, ev.restarts);
  }

  predicate IsStart(ev: Event) {
    ev.Connect? && Starts(ev.c, ev.threadStarts)
  }

  lemma OtherStep(s: Snapshot, ev: Event)
    requires !Registers(s, ev)
    ensures var n := Next(s, ev);
            && n.account == s.account
            && n.credentials == (if IsStart(ev) then ev.c else s.credentials)
            && (n.armed ==> s.armed || IsStart(ev)) && (IsStart(ev) ==> n.armed)
            && (ev.Connect? && !IsStart(ev) ==> n.armed == s.armed)
            && n.history == s.history.(marks := n.history.marks, connects := n.history.connects)
            && n.history.connects == s.history.connects + if IsStart(ev) then 1 else 0
  {
    hide AfterInit, Connected, Registered;
    if ev.Connect? {
      ConnectedKeeps(s, ev.c, ev.threadStarts);
    }
  }

  // ----- whose credentials are used

  lemma StepCredentials(s: Snapshot, ev: Event)
    ensures Next(s, ev).credentials == if IsStart(ev) then ev.c else s.credentials
  {
    hide Next;
    if Registers(s, ev) {
      RegisteredStep(s, ev);
    } else {
      OtherStep(s, ev);
    }
  }

  /**
   Registrations and internal reconnections use the credentials of the last connect of the user that started a thread,
   whatever has happened since.
   */
  lemma {:induction false} CredentialsOfLastConnect(run: seq<Event>)
    ensures var i := Latest(run, IsStart); Run(run).credentials == if i < 0 then NOBODY else run[i].c
  {
    hide Next;
    if run != [] {
      CredentialsOfLastConnect(run[..|run| - 1]);
      StepCredentials(Run(run[..|run| - 1]), run[|run| - 1]);
    }
  }

  lemma {:induction false} CalledOrNobody(run: seq<Event>)
    ensures Run(run).credentials == NOBODY || Run(run).credentials in Calls(run)
  {
    hide Next;
    if run != [] {
      CalledOrNobody(run[..|run| - 1]);
      StepCredentials(Run(run[..|run| - 1]), run[|run| - 1]);
    }
  }

  /** Every account asked for, in the whole run, carries credentials the user has tried to connect with. */
  lemma {:induction false} AccountsAskedFor(run: seq<Event>)
    ensures forall k :: 0 <= k < |Run(run).account.created| ==> Run(run).account.created[k] in Calls(run)
  {
    hide Next, AfterInit;
    if run != [] {
      var front := run[..|run| - 1];
      var s, ev := Run(front), run[|run| - 1];
      AccountsAskedFor(front);
      CalledOrNobody(front);
      if Registers(s, ev) {
        RegisteredStep(s, ev);
        InitOutcome(s.account, s.credentials, ev.serverReachable, ev.script, []);
      } else {
        OtherStep(s, ev);
      }
    }
  }

  // ----- the registration budget

  function Armed(s: Snapshot): nat {
    if s.armed then 1 else 0
  }

  /** Registrations begun, or still possible, are paid for by the user's connects and by successful registrations. */
  predicate WithinBudget(s: Snapshot) {
    s.history.attempts + Armed(s) <= s.history.connects + s.history.successes
  }

  predicate WithinStaleBudget(s: Snapshot) {
    && s.history.attempts + Armed(s) <= s.history.connects + s.history.successes + s.history.stale
    && (s.armed ==> s.credentials.username != "" && s.credentials.host != "")
  }

  /** In every run the budget is kept if reconnections after a stale success are paid for, too. */
  lemma {:induction false} BudgetWithStale(run: seq<Event>)
    ensures WithinStaleBudget(Run(run))
  {
    hide Next, AfterInit;
    if run != [] {
      var s, ev := Run(run[..|run| - 1]), run[|run| - 1];
      BudgetWithStale(run[..|run| - 1]);
      if Registers(s, ev) {
        RegisteredStep(s, ev);
      } else {
        OtherStep(s, ev);
      }
    }
  }

  /** A call that could start a thread, but not begin a registration. */
  predicate Passwordless(c: Credentials) {
    c.username != "" && c.host != "" && c.password == ""
  }

  /** No call with user, password and host is followed by one with user and host, but without a password. */
  predicate Safe(calls: seq<Credentials>) {
    forall i, j :: 0 <= i < j < |calls| && Complete(calls[i]) ==> !Passwordless(calls[j])
  }

  lemma SafePrefix(calls: seq<Credentials>, more: seq<Credentials>)
    requires Safe(calls + more)
    ensures Safe(calls)
  {
    forall i, j | 0 <= i < j < |calls| && Complete(calls[i]) ensures !Passwordless(calls[j]) {
      assert (calls + more)[i] == calls[i] && (calls + more)[j] == calls[j];
    }
  }

  lemma SafeLast(calls: seq<Credentials>, c: Credentials, i: nat)
    requires Safe(calls + [c]) && i < |calls| && Complete(calls[i])
    ensures !Passwordless(c)
  {
    assert (calls + [c])[i] == calls[i] && (calls + [c])[|calls|] == c;
  }

  predicate NothingStale(s: Snapshot, calls: seq<Credentials>) {
    && s.history.stale == 0
    && (s.armed && s.credentials.password == "" ==> s.account.status != SUCCESS)
    && (s.account.status == SUCCESS ==> exists i :: 0 <= i < |calls| && Complete(calls[i]))
  }

  /** With safe calls a success is never taken for that of a registration that has not been begun. */
  lemma {:induction false} NoStale(run: seq<Event>)
    requires Safe(Calls(run))
    ensures NothingStale(Run(run), Calls(run))
  {
    hide Next, Safe, NothingStale;
    if run == [] {
      NothingAtStart();
    } else {
      var front := run[..|run| - 1];
      var s, ev := Run(front), run[|run| - 1];
      SafePrefix(Calls(front), CallOf(ev));
      NoStale(front);
      CalledOrNobody(front);
      BudgetWithStale(front);
      StepNothingStale(s, ev, Calls(front));
    }
  }

  lemma NothingAtStart()
    ensures NothingStale(START, [])
  {
  }

  lemma StepNothingStale(s: Snapshot, ev: Event, calls: seq<Credentials>)
    requires NothingStale(s, calls) && WithinStaleBudget(s) && Safe(calls + CallOf(ev))
    requires s.credentials == NOBODY || s.credentials in calls
    ensures NothingStale(Next(s, ev), calls + CallOf(ev))
  {
    hide Next, AfterLoop, Safe;
    var all := calls + CallOf(ev);
    if Registers(s, ev) {
      RegisteredStep(s, ev);
      assert all == calls;
      if AccountAfter(s, ev).status == SUCCESS && Complete(s.credentials) {
        var i :| 0 <= i < |calls| && calls[i] == s.credentials;
        assert Complete(all[i]);
      }
    } else {
      OtherStep(s, ev);
      if s.account.status == SUCCESS {
        var i :| 0 <= i < |calls| && Complete(calls[i]);
        assert all[i] == calls[i];
        if IsStart(ev) {
          SafeLast(calls, ev.c, i);
        }
      }
    }
  }

  // ----- runs that leave the budget behind

  /** An authentication failure during which a registration, if one is begun, succeeds. */
  const FAILURE_EVENT: Event :=
    OnDisconnect(ConnAuthenticationFailed, true, [Receive([RegistrationResult(true)], false)], true)

  lemma RegistrationSucceeds(a: Account, c: Credentials)
    requires Complete(c)
    ensures AfterInit(a, c, true, FAILURE_EVENT.script).status == SUCCESS
  {
    var script := FAILURE_EVENT.script;
    var begun := a.(status := INCOMPLETE, credentials := c, handler := true);
    var cs := script[0].callbacks;
    assert cs[..0] == [] && AfterCallbacks(begun, cs[..0]) == begun;
    assert AfterCallbacks(begun, cs).status == SUCCESS;
    assert AfterLoop(begun, script).status == SUCCESS;
  }

  /** Calls that do not get a thread. */
  function Idle(calls: seq<Credentials>): seq<Event> {
    seq(|calls|, i requires 0 <= i < |calls| => Connect(calls[i], false))
  }

  function Failures(n: nat): seq<Event> {
    seq(n, _ => FAILURE_EVENT)
  }

  /** What the budget is about. */
  datatype Core =
    Core(armed: bool, credentials: Credentials, success: bool, connects: nat, attempts: nat, successes: nat)

  function CoreOf(s: Snapshot): Core {
    Core(s.armed, s.credentials, s.account.status == SUCCESS,
         s.history.connects, s.history.attempts, s.history.successes)
  }

  lemma {:induction false} IdleCalls(run: seq<Event>, calls: seq<Credentials>)
    ensures CoreOf(Run(run + Idle(calls))) == CoreOf(Run(run))
    ensures Calls(run + Idle(calls)) == Calls(run) + calls
  {
    hide Next, Run, Calls;
    if calls == [] {
      assert run + Idle(calls) == run && Calls(run) + calls == Calls(run);
    } else {
      var n := |calls| - 1;
      var before, ev := run + Idle(calls[..n]), Connect(calls[n], false);
      IdleCalls(run, calls[..n]);
      assert run + Idle(calls) == before + [ev];
      RunNext(before, ev);
      OtherStep(Run(before), ev);
      assert Calls(run) + calls == Calls(run) + calls[..n] + [calls[n]];
    }
  }

  /** Each failure of a client that has no password, but an earlier success, is one more attempt. */
  lemma {:induction false} FailuresGoOn(run: seq<Event>, n: nat)
    requires var s := Run(run); s.armed && Passwordless(s.credentials) && s.account.status == SUCCESS
    ensures CoreOf(Run(run + Failures(n))) == CoreOf(Run(run)).(attempts := Run(run).history.attempts + n)
    ensures Calls(run + Failures(n)) == Calls(run)
  {
    hide Next, Run, Calls, AfterLoop;
    if n == 0 {
      assert run + Failures(0) == run;
    } else {
      var before := run + Failures(n - 1);
      FailuresGoOn(run, n - 1);
      assert run + Failures(n) == before + [FAILURE_EVENT];
      RunNext(before, FAILURE_EVENT);
      RegisteredStep(Run(before), FAILURE_EVENT);
      assert Calls(before) + [] == Calls(before);
    }
  }

  lemma {:induction false} StartStep(run: seq<Event>, c: Credentials)
    requires c.username != "" && c.host != ""
    ensures var s, t := CoreOf(Run(run)), CoreOf(Run(run + [Connect(c, true)]));
            t == s.(armed := true, credentials := c, connects := s.connects + 1)
    ensures Calls(run + [Connect(c, true)]) == Calls(run) + [c]
  {
    hide Next, Run, Calls;
    RunNext(run, Connect(c, true));
    OtherStep(Run(run), Connect(c, true));
  }

  lemma {:induction false} SuccessStep(run: seq<Event>)
    requires Run(run).armed && Complete(Run(run).credentials)
    ensures var s, t := CoreOf(Run(run)), CoreOf(Run(run + [FAILURE_EVENT]));
            t == s.(success := true, attempts := s.attempts + 1, successes := s.successes + 1)
    ensures Calls(run + [FAILURE_EVENT]) == Calls(run)
  {
    hide Next, Run, Calls, AfterInit;
    RunNext(run, FAILURE_EVENT);
    RegisteredStep(Run(run), FAILURE_EVENT);
    RegistrationSucceeds(Run(run).account, Run(run).credentials);
    assert Calls(run) + [] == Calls(run);
  }

  /** Of the calls up to j only two get a thread: a complete one, which leads to an account, and j itself. */
  function StaleBeginning(calls: seq<Credentials>, i: nat, j: nat): seq<Event>
    requires i < j < |calls|
  {
    [] + Idle(calls[..i]) + [Connect(calls[i], true)] + [FAILURE_EVENT]
    + Idle(calls[i + 1..j]) + [Connect(calls[j], true)]
  }

  lemma StaleBegins(calls: seq<Credentials>, i: nat, j: nat)
    requires i < j < |calls| && Complete(calls[i]) && Passwordless(calls[j])
    ensures var run := StaleBeginning(calls, i, j);
            && Calls(run) == [] + calls[..i] + [calls[i]] + calls[i + 1..j] + [calls[j]]
            && CoreOf(Run(run)) == Core(true, calls[j], true, 2, 1, 1)
  {
    assert Run([]) == START && Calls([]) == [];
    hide Next, Run, Calls, Idle, Complete;
    var a := [] + Idle(calls[..i]);
    IdleCalls([], calls[..i]);
    var b := a + [Connect(calls[i], true)];
    assert calls[i].username != "" && calls[i].host != "" by { CompleteStarts(calls[i]); }
    StartStep(a, calls[i]);
    var c := b + [FAILURE_EVENT];
    SuccessStep(b);
    var d := c + Idle(calls[i + 1..j]);
    IdleCalls(c, calls[i + 1..j]);
    StartStep(d, calls[j]);
  }

  lemma CompleteStarts(c: Credentials)
    requires Complete(c)
    ensures c.username != "" && c.host != ""
  {
  }

  function StaleRun(calls: seq<Credentials>, i: nat, j: nat, n: nat): seq<Event>
    requires i < j < |calls|
  {
    StaleBeginning(calls, i, j) + Failures(n) + Idle(calls[j + 1..])
  }

  /**
   The budget does not hold of the code: without a password no registration is begun, but the success of an earlier
   one is still there and leads to a reconnection, which arms the flag again. Whatever the calls are, if a complete one
   is followed by one without a password, there is a run with these calls and any number n of rounds.
   */
  lemma StaleForever(calls: seq<Credentials>, i: nat, j: nat, n: nat)
    requires i < j < |calls| && Complete(calls[i]) && Passwordless(calls[j])
    ensures var run := StaleRun(calls, i, j, n);
            && Calls(run) == calls
            && CoreOf(Run(run)) == Core(true, calls[j], true, 2, n + 1, 1)
  {
    hide Next, Run, Calls, Idle, Failures, StaleBeginning, Complete;
    var begun := StaleBeginning(calls, i, j);
    StaleBegins(calls, i, j);
    FailuresGoOn(begun, n);
    IdleCalls(begun + Failures(n), calls[j + 1..]);
    Rejoined(calls, i, j);
  }

  lemma Rejoined(calls: seq<Credentials>, i: nat, j: nat)
    requires i < j < |calls|
    ensures [] + calls[..i] + [calls[i]] + calls[i + 1..j] + [calls[j]] + calls[j + 1..] == calls
  {
    assert [] + calls[..i] + [calls[i]] == calls[..i + 1];
    assert calls[..i + 1] + calls[i + 1..j] == calls[..j];
    assert calls[..j] + [calls[j]] == calls[..j + 1];
  }

  /**
   Exactly which users keep the budget whatever else happens: those none of whose calls with user, password and host
   is followed by one with user and host, but without a password.
   */
  lemma BudgetKept(calls: seq<Credentials>)
    ensures (forall run :: Calls(run) == calls ==> WithinBudget(Run(run))) <==> Safe(calls)
  {
    hide Run, Calls;
    if Safe(calls) {
      forall run | Calls(run) == calls ensures WithinBudget(Run(run)) {
        BudgetWithStale(run);
        NoStale(run);
      }
    } else {
      var i, j :| 0 <= i < j < |calls| && Complete(calls[i]) && Passwordless(calls[j]);
      StaleForever(calls, i, j, 2);
      assert !WithinBudget(Run(StaleRun(calls, i, j, 2)));
    }
  }

  // ----- a server that keeps its accounts

  type AccountName = (string, string)

  function NameOf(c: Credentials): AccountName {
    (c.username, c.host)
  }

  /** A registration that ends with a success result of its own. */
  predicate CreatesAccount(s: Snapshot, ev: Event) {
    Registers(s, ev) && Complete(s.credentials) && AccountAfter(s, ev).status == SUCCESS
  }

  function Accounts(run: seq<Event>): set<AccountName> {
    if run == [] then {} else
    var s, ev := Run(run[..|run| - 1]), run[|run| - 1];
    Accounts(run[..|run| - 1]) + if CreatesAccount(s, ev) then {NameOf(s.credentials)} else {}
  }

  /** Section 3.1 of XEP-0077: a username that is taken is refused. */
  predicate Consistent(run: seq<Event>) {
    run == [] || (
      var s, ev := Run(run[..|run| - 1]), run[|run| - 1];
      && Consistent(run[..|run| - 1])
      && (CreatesAccount(s, ev) ==> NameOf(s.credentials) !in Accounts(run[..|run| - 1])))
  }

  function Names(calls: seq<Credentials>): set<AccountName> {
    set c | c in calls :: NameOf(c)
  }

  /** How often the client has connected again of its own accord. */
  function Reconnections(run: seq<Event>): nat {
    if run == [] then 0 else
    var s, ev := Run(run[..|run| - 1]), run[|run| - 1];
    Reconnections(run[..|run| - 1]) + if Registers(s, ev) && AccountAfter(s, ev).status == SUCCESS then 1 else 0
  }

  lemma {:induction false} ReconnectionsCounted(run: seq<Event>)
    ensures Reconnections(run) == Run(run).history.successes + Run(run).history.stale
  {
    hide Next, AfterInit;
    if run != [] {
      var s, ev := Run(run[..|run| - 1]), run[|run| - 1];
      ReconnectionsCounted(run[..|run| - 1]);
      if Registers(s, ev) {
        RegisteredStep(s, ev);
      } else {
        OtherStep(s, ev);
      }
    }
  }

  lemma {:induction false} SuccessesAreAccounts(run: seq<Event>)
    requires Consistent(run)
    ensures Run(run).history.successes == |Accounts(run)|
    ensures Accounts(run) <= Names(Calls(run))
  {
    hide Next, AfterInit;
    if run != [] {
      var front := run[..|run| - 1];
      var s, ev := Run(front), run[|run| - 1];
      SuccessesAreAccounts(front);
      CalledOrNobody(front);
      if Registers(s, ev) {
        RegisteredStep(s, ev);
      } else {
        OtherStep(s, ev);
      }
    }
  }

  lemma SubsetSize<T>(a: set<T>, b: set<T>)
    requires a <= b
    ensures |a| <= |b|
  {
    assert |b| == |a| + |b - a| by {
      assert a + (b - a) == b;
    }
  }

  /**
   With such a server and safe calls the cycle of registering and reconnecting cannot go on: there are as many
   reconnections as accounts made, at most as many of these as the user has named, and at most so many attempts more
   than the user has connected.
   */
  lemma {:induction false} AttemptsBounded(run: seq<Event>)
    requires Consistent(run) && Safe(Calls(run))
    ensures var h := Run(run).history;
            && Reconnections(run) == h.successes == |Accounts(run)| <= |Names(Calls(run))|
            && h.attempts + Armed(Run(run)) <= h.connects + |Accounts(run)|
  {
    hide Run, Calls, Accounts, Consistent, Safe, Reconnections;
    BudgetWithStale(run);
    NoStale(run);
    ReconnectionsCounted(run);
    SuccessesAreAccounts(run);
    SubsetSize(Accounts(run), Names(Calls(run)));
  }

  /** One username on one server: at most one reconnection, and one attempt more than the user has connected. */
  lemma {:induction false} OneAccount(run: seq<Event>, account: AccountName)
    requires Consistent(run) && Safe(Calls(run))
    requires forall c :: c in Calls(run) ==> NameOf(c) == account
    ensures Reconnections(run) <= 1
    ensures Run(run).history.attempts <= Run(run).history.connects + 1
  {
    hide Run, Calls, Accounts, Consistent, Safe, Reconnections;
    AttemptsBounded(run);
    assert Names(Calls(run)) <= {account};
    SubsetSize(Names(Calls(run)), {account});
  }

  // ----- disconnects and the state queue

  function Disconnects(run: seq<Event>): nat {
    if run == [] then 0 else Disconnects(run[..|run| - 1]) + if run[|run| - 1].OnDisconnect? then 1 else 0
  }

  /** What has been pushed since the queue was last cleared, and how much of it has been taken out. */
  function PushedSince(marks: seq<Mark>): seq<State> {
    if marks == [] then [] else
    var front := PushedSince(marks[..|marks| - 1]);
    match marks[|marks| - 1]
    case Pushed(state) => front + [state]
    case Cleared => []
    case _ => front
  }

  function PoppedSince(marks: seq<Mark>): nat {
    if marks == [] then 0 else
    var front := PoppedSince(marks[..|marks| - 1]);
    match marks[|marks| - 1]
    case Popped => front + 1
    case Cleared => 0
    case _ => front
  }

  /** Whether a reader of the log, who also sees the swallowed disconnects, takes the client to be connected. */
  predicate ConnectedBy(marks: seq<Mark>) {
    marks != [] &&
    match marks[|marks| - 1]
    case Pushed(CONNECTED) => true
    case Pushed(TLS_CONNECTED) => true
    case Pushed(DISCONNECTED) => false
    case Swallowed => false
    case _ => ConnectedBy(marks[..|marks| - 1])
  }

  predicate Logged(s: Snapshot, disconnects: nat) {
    var marks := s.history.marks;
    && s.history.attempts == multiset(marks)[Swallowed]
    && disconnects == multiset(marks)[Pushed(DISCONNECTED)] + s.history.attempts
    && PoppedSince(marks) <= |PushedSince(marks)|
    && s.stateQueue == PushedSince(marks)[PoppedSince(marks)..]
    && s.connected == ConnectedBy(marks)
  }

  /**
   Every disconnect callback is either reported through the queue or answered by a registration; the queue holds what
   was pushed since it was last cleared, in order and without what was taken out; and the log of reported and
   swallowed changes tells whether the client is connected.
   */
  lemma {:induction false} DisconnectsConserved(run: seq<Event>)
    ensures Logged(Run(run), Disconnects(run))
  {
    hide Next, Logged;
    if run == [] {
      NothingLogged();
    } else {
      var front := run[..|run| - 1];
      DisconnectsConserved(front);
      StepLogged(Run(front), Disconnects(front), run[|run| - 1]);
    }
  }

  lemma NothingLogged()
    ensures Logged(START, 0)
  {
  }

  lemma {:induction false} AppendMark(marks: seq<Mark>, mark: Mark)
    ensures PushedSince(marks + [mark]) ==
            if mark.Pushed? then PushedSince(marks) + [mark.state]
            else if mark == Cleared then []
            else PushedSince(marks)
    ensures PoppedSince(marks + [mark]) ==
            if mark == Popped then PoppedSince(marks) + 1 else if mark == Cleared then 0 else PoppedSince(marks)
    ensures ConnectedBy(marks + [mark]) ==
            if mark in {Pushed(CONNECTED), Pushed(TLS_CONNECTED)} then true
            else if mark in {Pushed(DISCONNECTED), Swallowed} then false
            else ConnectedBy(marks)
    ensures multiset(marks + [mark]) == multiset(marks) + multiset{mark}
  {
    assert (marks + [mark])[..|marks|] == marks;
  }

  lemma PushLogged(s: Snapshot, disconnects: nat, state: State)
    requires Logged(s.(connected := ConnectedBy(s.history.marks)), disconnects)
    requires state == ROSTER_LOADED ==> s.connected == ConnectedBy(s.history.marks)
    requires state != ROSTER_LOADED ==> s.connected == (state != DISCONNECTED)
    ensures Logged(AfterPush(s, state), disconnects + if state == DISCONNECTED then 1 else 0)
  {
    hide PushedSince, PoppedSince, ConnectedBy;
    AppendMark(s.history.marks, Pushed(state));
  }

  lemma ConnectedLogged(s: Snapshot, disconnects: nat, c: Credentials, threadStarts: bool)
    requires Logged(s, disconnects)
    ensures Logged(Connected(s, c, threadStarts), disconnects)
  {
    hide PushedSince, PoppedSince, ConnectedBy;
    AppendMark(s.history.marks, Cleared);
  }

  lemma RegisteredLogged(s: Snapshot, disconnects: nat, serverReachable: bool, script: seq<Receive>, restarts: bool)
    requires Logged(s.(connected := ConnectedBy(s.history.marks)), disconnects) && !s.connected
    ensures Logged(Registered(s, serverReachable, script, restarts), disconnects + 1)
  {
    hide PushedSince, PoppedSince, ConnectedBy, AfterInit, Connected;
    AppendMark(s.history.marks, Swallowed);
    var account := AfterInit(s.account, s.credentials, serverReachable, script);
    var h := Attempted(s.history, Complete(s.credentials), account.status == SUCCESS);
    ConnectedLogged(s.(account := account, armed := false, history := h), disconnects + 1, s.credentials, restarts);
  }

  lemma PopLogged(s: Snapshot, disconnects: nat)
    requires Logged(s, disconnects)
    ensures Logged(Next(s, PopState), disconnects)
  {
    hide PushedSince, PoppedSince, ConnectedBy;
    AppendMark(s.history.marks, Popped);
  }

  lemma ConnectLogged(s: Snapshot, disconnects: nat, c: Credentials, threadStarts: bool)
    requires Logged(s, disconnects)
    ensures Logged(Next(s, Connect(c, threadStarts)), disconnects)
  {
    hide PushedSince, PoppedSince, ConnectedBy, Connected;
    ConnectedLogged(s, disconnects, c, threadStarts);
  }

  lemma OpenLogged(s: Snapshot, disconnects: nat, ev: Event)
    requires Logged(s, disconnects) && (ev.OnConnect? || ev.OnTLSConnect?)
    ensures Logged(Next(s, ev), disconnects)
  {
    hide PushedSince, PoppedSince, ConnectedBy, AfterPush;
    PushLogged(s.(connected := true), disconnects, if ev.OnConnect? then CONNECTED else TLS_CONNECTED);
  }

  lemma DisconnectLogged(s: Snapshot, disconnects: nat, ev: Event)
    requires Logged(s, disconnects) && ev.OnDisconnect?
    ensures Logged(Next(s, ev), disconnects + 1)
  {
    hide PushedSince, PoppedSince, ConnectedBy, AfterPush, Registered;
    if Registers(s, ev) {
      RegisteredLogged(s.(connected := false), disconnects, ev.serverReachable, ev.script, ev.restarts);
    } else {
      PushLogged(s.(connected := false), disconnects, DISCONNECTED);
    }
  }

  lemma RosterLogged(s: Snapshot, disconnects: nat, names: seq<string>)
    requires Logged(s, disconnects)
    ensures Logged(Next(s, HandleRoster(names)), disconnects)
  {
    hide PushedSince, PoppedSince, ConnectedBy, AfterPush, NewRoster;
    PushLogged(Subscribed(s.(roster := NewRoster(names)), names), disconnects, ROSTER_LOADED);
  }

  /** The steps that leave the state queue and the connection alone. */
  lemma QuietLogged(s: Snapshot, disconnects: nat, ev: Event)
    requires Logged(s, disconnects)
    requires ev.Disconnect? || ev.HandlePresence? || ev.HandleMessage? || ev.HandleSubscriptionRequest?
    ensures Logged(Next(s, ev), disconnects)
  {
    hide PushedSince, PoppedSince, ConnectedBy;
  }

  lemma StepLogged(s: Snapshot, disconnects: nat, ev: Event)
    requires Logged(s, disconnects)
    ensures Logged(Next(s, ev), disconnects + if ev.OnDisconnect? then 1 else 0)
  {
    hide Next, Logged;
    match ev
    case Connect(c, threadStarts) => ConnectLogged(s, disconnects, c, threadStarts);
    case OnConnect => OpenLogged(s, disconnects, ev);
    case OnTLSConnect => OpenLogged(s, disconnects, ev);
    case OnDisconnect(_, _, _, _) => DisconnectLogged(s, disconnects, ev);
    case HandleRoster(names) => RosterLogged(s, disconnects, names);
    case PopState => PopLogged(s, disconnects);
    case _ => QuietLogged(s, disconnects, ev);
  }

  // ----- the roster cache

  predicate PresenceOf(ev: Event, username: string) {
    ev.HandlePresence? && ev.name == username
  }

  predicate IsRoster(ev: Event) {
    ev.HandleRoster?
  }

  /**
   What the events say about a peer: the status in its last presence if it has come after the latest roster and that
   roster names the peer.
   */
  function StatusByEvents(run: seq<Event>, username: string): Status {
    var load := Latest(run, IsRoster);
    var presence := Latest(run, (ev: Event) => PresenceOf(ev, username));
    if 0 <= load < presence && username in run[load].names
    then PresenceToStatus(run[presence].presence)
    else Invalid
  }

  predicate NamedByRoster(run: seq<Event>, username: string) {
    var load := Latest(run, IsRoster);
    0 <= load && username in run[load].names
  }

  lemma StepRoster(s: Snapshot, ev: Event)
    ensures Next(s, ev).roster ==
            match ev
            case HandleRoster(names) => NewRoster(names)
            case HandlePresence(name, presence) =>
              if name in s.roster then s.roster[name := WithStatus(PresenceToStatus(presence))] else s.roster
            case _ => s.roster
  {
    hide AfterInit, Connected, Registered;
    if Registers(s, ev) {
      RegisteredStep(s, ev);
    } else if ev.Connect? {
      ConnectedKeeps(s, ev.c, ev.threadStarts);
    }
  }

  /** Across any number of connections the cache answers for every peer what the events say. */
  lemma {:induction false} RosterCache(run: seq<Event>, username: string)
    ensures username in Run(run).roster <==> NamedByRoster(run, username)
    ensures StatusForPeer(Run(run), username) == StatusByEvents(run, username)
    ensures PeerConnected(Run(run), username) <==>
            StatusNumber(StatusByEvents(run, username)) < StatusNumber(Unavailable)
  {
    hide Next;
    if run != [] {
      RosterCache(run[..|run| - 1], username);
      StepRoster(Run(run[..|run| - 1]), run[|run| - 1]);
    }
  }

  // ----- the queues for messages and presences

  /** A connect that gets as far as clearing the queues, by the user or after a registration. */
  predicate Clears(s: Snapshot, ev: Event) {
    || (ev.Connect? && ev.c.username != "" && ev.c.host != "")
    || (&& Registers(s, ev) && AccountAfter(s, ev).status == SUCCESS
        && s.credentials.username != "" && s.credentials.host != "")
  }

  function EventsSince(run: seq<Event>): seq<ChatEvent> {
    if run == [] then [] else
    var front, last := run[..|run| - 1], run[|run| - 1];
    if Clears(Run(front), last) then []
    else EventsSince(front) + if last.HandleMessage? then [ChatEvent(last.name, last.body)] else []
  }

  function PresencesSince(run: seq<Event>): seq<PresenceEvent> {
    if run == [] then [] else
    var front, last := run[..|run| - 1], run[|run| - 1];
    if Clears(Run(front), last) then []
    else PresencesSince(front) +
         if last.HandlePresence? then [PresenceEvent(last.name, PresenceToStatus(last.presence))] else []
  }

  lemma StepQueues(s: Snapshot, ev: Event)
    ensures var n := Next(s, ev);
            if Clears(s, ev) then n.eventQueue == [] && n.presenceQueue == []
            else && n.eventQueue == s.eventQueue + (if ev.HandleMessage? then [ChatEvent(ev.name, ev.body)] else [])
                 && n.presenceQueue == s.presenceQueue +
                      (if ev.HandlePresence? then [PresenceEvent(ev.name, PresenceToStatus(ev.presence))] else [])
  {
    hide AfterInit;
    assert s.eventQueue + [] == s.eventQueue && s.presenceQueue + [] == s.presenceQueue;
  }

  /** Both queues hold what has arrived since they were last cleared, in order, also from peers not in the roster. */
  lemma {:induction false} QueuesHoldRecent(run: seq<Event>)
    ensures Run(run).eventQueue == EventsSince(run) && Run(run).presenceQueue == PresencesSince(run)
  {
    hide Next, Clears;
    if run != [] {
      QueuesHoldRecent(run[..|run| - 1]);
      StepQueues(Run(run[..|run| - 1]), run[|run| - 1]);
    }
  }
}
