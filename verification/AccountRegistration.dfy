/**
 Creating an account on the server: the receive loop of init and the callbacks it runs. What each receive call brings
 is decided by the server, so it is a parameter.
 */
module AccountRegistration {

  datatype OperationStatus = INCOMPLETE | SUCCESS | FAILURE

  datatype Callback =
    | RegistrationFields
    | AlreadyRegistered
    | RegistrationResult(success: bool)

  /** One receive call: the callbacks run during it, and whether it reports a connection error. */
  datatype Receive = Receive(callbacks: seq<Callback>, error: bool)

  datatype Credentials = Credentials(username: string, password: string, host: string)

  predicate Complete(c: Credentials) {
    c.username != "" && c.password != "" && c.host != ""
  }

  /** `created` records the accounts asked for, with the credentials put into the request. */
  datatype Account =
    Account(status: OperationStatus, credentials: Credentials, handler: bool, created: seq<Credentials>)

  /** Callbacks only arrive while the handler is registered; success removes it. */
  function AfterCallback(a: Account, c: Callback): Account {
    if !a.handler then a else
    match c
    case RegistrationFields => a.(created := a.created + [a.credentials])
    case AlreadyRegistered => a.(status := FAILURE)
    case RegistrationResult(success) =>
      if success then a.(status := SUCCESS, handler := false) else a.(status := FAILURE)
  }

  function AfterCallbacks(a: Account, cs: seq<Callback>): Account {
    if cs == [] then a else AfterCallback(AfterCallbacks(a, cs[..|cs| - 1]), cs[|cs| - 1])
  }

  function AfterLoop(a: Account, script: seq<Receive>): Account
    decreases |script|
  {
    if script == [] then a else
    var next := AfterCallbacks(a, script[0].callbacks);
    if next.status != INCOMPLETE || script[0].error then next else AfterLoop(next, script[1..])
  }

  /** With incomplete credentials nothing happens at all: an earlier outcome stays. */
  function AfterInit(a: Account, c: Credentials, connects: bool, script: seq<Receive>): Account {
    if !Complete(c) then a else
    var begun := a.(status := INCOMPLETE, credentials := c, handler := true);
    if connects then AfterLoop(begun, script) else begun
  }

  // ----- the same by the places of the callbacks in the script

  /** An outcome: anything but the fields that lead to an account being asked for. */
  predicate IsOutcome(c: Callback) {
    c != RegistrationFields
  }

  predicate HasOutcome(cs: seq<Callback>) {
    exists j :: 0 <= j < |cs| && IsOutcome(cs[j])
  }

  /** The receive loop gets to receive call i: none before it has reported an error or brought an outcome. */
  predicate GetsTo(script: seq<Receive>, i: nat) {
    i < |script| && forall k :: 0 <= k < i ==> !script[k].error && !HasOutcome(script[k].callbacks)
  }

  const SUCCEEDED: Callback := RegistrationResult(true)

  /** How many of the callbacks of one receive call ask for an account: the fields that come before a success. */
  function AskedIn(cs: seq<Callback>): nat {
    if cs == [] then 0 else
    var front := cs[..|cs| - 1];
    AskedIn(front) + if cs[|cs| - 1] == RegistrationFields && SUCCEEDED !in front then 1 else 0
  }

  /** How many accounts are asked for in the first n receive calls. */
  function Asked(script: seq<Receive>, n: nat): nat
    requires n <= |script|
  {
    if n == 0 then 0
    else Asked(script, n - 1) + if GetsTo(script, n - 1) then AskedIn(script[n - 1].callbacks) else 0
  }

  function Repeat(c: Credentials, n: nat): (r: seq<Credentials>)
    ensures |r| == n && forall k :: 0 <= k < n ==> r[k] == c
  {
    seq(n, _ => c)
  }

  /** A success, or any outcome at all, is received before the loop stops. */
  predicate Succeeds(script: seq<Receive>) {
    exists i :: 0 <= i < |script| && GetsTo(script, i) && SUCCEEDED in script[i].callbacks
  }

  predicate IsDecided(script: seq<Receive>) {
    exists i :: 0 <= i < |script| && GetsTo(script, i) && HasOutcome(script[i].callbacks)
  }

  lemma {:induction false} RepeatAdds(c: Credentials, m: nat, n: nat)
    ensures Repeat(c, m) + Repeat(c, n) == Repeat(c, m + n)
  {
  }

  /** What the callbacks of one receive call come to. */
  lemma {:induction false} CallbacksResult(a: Account, cs: seq<Callback>)
    requires a.handler && a.status == INCOMPLETE
    ensures var b := AfterCallbacks(a, cs);
            && b.credentials == a.credentials
            && b.created == a.created + Repeat(a.credentials, AskedIn(cs))
            && b.handler == (SUCCEEDED !in cs)
            && b.status == (if SUCCEEDED in cs then SUCCESS else if HasOutcome(cs) then FAILURE else INCOMPLETE)
  {
    if cs == [] {
      assert a.created + Repeat(a.credentials, 0) == a.created;
    } else {
      var n := |cs| - 1;
      CallbacksResult(a, cs[..n]);
      assert cs == cs[..n] + [cs[n]];
      assert HasOutcome(cs) <==> HasOutcome(cs[..n]) || IsOutcome(cs[n]) by { OutcomeLast(cs); }
      RepeatAdds(a.credentials, AskedIn(cs[..n]), 1);
      assert a.created + Repeat(a.credentials, AskedIn(cs[..n])) + [a.credentials]
          == a.created + (Repeat(a.credentials, AskedIn(cs[..n])) + Repeat(a.credentials, 1));
    }
  }

  lemma OutcomeLast(cs: seq<Callback>)
    requires cs != []
    ensures HasOutcome(cs) <==> HasOutcome(cs[..|cs| - 1]) || IsOutcome(cs[|cs| - 1])
  {
    var n := |cs| - 1;
    if HasOutcome(cs[..n]) {
      var j :| 0 <= j < n && IsOutcome(cs[..n][j]);
      assert IsOutcome(cs[j]);
    } else {
      assert forall j :: 0 <= j < n ==> cs[j] == cs[..n][j] && !IsOutcome(cs[j]);
    }
  }

  lemma GetsToRest(script: seq<Receive>, i: nat)
    requires script != []
    ensures GetsTo(script, i + 1) <==> !script[0].error && !HasOutcome(script[0].callbacks) && GetsTo(script[1..], i)
  {
    hide HasOutcome;
    if i + 1 < |script| {
      assert forall k :: 0 <= k < i ==> script[1..][k] == script[k + 1];
      assert forall k :: 1 <= k < i + 1 ==> script[k] == script[1..][k - 1];
    }
  }

  lemma {:induction false} AskedRest(script: seq<Receive>, n: nat)
    requires n < |script|
    ensures Asked(script, n + 1) == AskedIn(script[0].callbacks) +
              if script[0].error || HasOutcome(script[0].callbacks) then 0 else Asked(script[1..], n)
  {
    hide AskedIn, HasOutcome, GetsTo;
    if n == 0 {
      assert Asked(script, 1) == Asked(script, 0) + AskedIn(script[0].callbacks) by { GetsToFirst(script); }
    } else {
      AskedRest(script, n - 1);
      GetsToRest(script, n - 1);
      assert script[n] == script[1..][n - 1];
    }
  }

  lemma GetsToFirst(script: seq<Receive>)
    requires script != []
    ensures GetsTo(script, 0)
  {
  }

  lemma {:induction false} OutcomesRest(script: seq<Receive>)
    requires script != []
    ensures var on := !script[0].error && !HasOutcome(script[0].callbacks);
            && (Succeeds(script) <==> SUCCEEDED in script[0].callbacks || (on && Succeeds(script[1..])))
            && (IsDecided(script) <==> HasOutcome(script[0].callbacks) || (on && IsDecided(script[1..])))
  {
    hide HasOutcome, GetsTo;
    GetsToFirst(script);
    forall i | 0 <= i < |script[1..]| ensures script[1..][i] == script[i + 1] &&
        (GetsTo(script, i + 1) <==> !script[0].error && !HasOutcome(script[0].callbacks) && GetsTo(script[1..], i)) {
      GetsToRest(script, i);
    }
    if Succeeds(script) {
      var i :| 0 <= i < |script| && GetsTo(script, i) && SUCCEEDED in script[i].callbacks;
      assert i != 0 ==> script[1..][i - 1] == script[i];
    }
    if IsDecided(script) {
      var i :| 0 <= i < |script| && GetsTo(script, i) && HasOutcome(script[i].callbacks);
      assert i != 0 ==> script[1..][i - 1] == script[i];
    }
  }

  /** What the receive loop comes to. */
  lemma {:induction false} LoopResult(a: Account, script: seq<Receive>)
    requires a.handler && a.status == INCOMPLETE
    ensures var b := AfterLoop(a, script);
            && b.credentials == a.credentials
            && b.created == a.created + Repeat(a.credentials, Asked(script, |script|))
            && b.handler == !Succeeds(script)
            && b.status == (if Succeeds(script) then SUCCESS else if IsDecided(script) then FAILURE else INCOMPLETE)
    decreases |script|
  {
    hide AskedIn, HasOutcome, GetsTo, Succeeds, IsDecided, Asked;
    if script == [] {
      NothingReceived(a, script);
    } else {
      var next := AfterCallbacks(a, script[0].callbacks);
      CallbacksResult(a, script[0].callbacks);
      SuccessIsOutcome(script[0].callbacks);
      AskedRest(script, |script| - 1);
      OutcomesRest(script);
      if next.status == INCOMPLETE && !script[0].error {
        LoopResult(next, script[1..]);
        var m, n := AskedIn(script[0].callbacks), Asked(script[1..], |script| - 1);
        RepeatAdds(a.credentials, m, n);
        assert a.created + Repeat(a.credentials, m) + Repeat(a.credentials, n)
            == a.created + (Repeat(a.credentials, m) + Repeat(a.credentials, n));
      }
    }
  }

  lemma {:induction false} NothingReceived(a: Account, script: seq<Receive>)
    requires script == []
    ensures !Succeeds(script) && !IsDecided(script) && a.created + Repeat(a.credentials, Asked(script, 0)) == a.created
  {
  }

  lemma SuccessIsOutcome(cs: seq<Callback>)
    ensures SUCCEEDED in cs ==> HasOutcome(cs)
  {
    if SUCCEEDED in cs {
      var j :| 0 <= j < |cs| && cs[j] == SUCCEEDED;
      assert IsOutcome(cs[j]);
    }
  }

  /** Without a handler nothing is received. */
  lemma {:induction false} NoHandler(a: Account, cs: seq<Callback>)
    requires !a.handler
    ensures AfterCallbacks(a, cs) == a
  {
    if cs != [] {
      NoHandler(a, cs[..|cs| - 1]);
    }
  }

  /**
   What init comes to, over everything the server may send. With complete credentials and a connection an account is
   asked for with these credentials as often as fields are received; the status is success exactly if a success is
   received before the loop stops, and then final, since later callbacks change nothing; it is failure exactly if only
   other outcomes are. With incomplete credentials nothing changes, so that the status is what an earlier registration
   has left.
   */
  lemma {:induction false} InitOutcome(a: Account, c: Credentials, connects: bool, script: seq<Receive>,
                                       later: seq<Callback>)
    ensures var b := AfterInit(a, c, connects, script);
            && (!Complete(c) ==> b == a)
            && b.created == a.created + Repeat(c, if Complete(c) && connects then Asked(script, |script|) else 0)
            && (Complete(c) ==>
                  && b.status == (if connects && Succeeds(script) then SUCCESS
                                  else if connects && IsDecided(script) then FAILURE
                                  else INCOMPLETE)
                  && (b.status == SUCCESS ==> AfterCallbacks(b, later) == b))
  {
    hide Asked, Succeeds, IsDecided, AfterLoop;
    assert a.created + Repeat(c, 0) == a.created;
    if Complete(c) {
      var begun := a.(status := INCOMPLETE, credentials := c, handler := true);
      LoopResult(begun, script);
      var b := AfterInit(a, c, connects, script);
      if b.status == SUCCESS {
        NoHandler(b, later);
      }
    }
  }

  class AccountRegistration {
    var status: OperationStatus
    var credentials: Credentials
    var handler: bool
    ghost var created: seq<Credentials>

    ghost function View(): Account
      reads this
    {
      Account(status, credentials, handler, created)
    }

    constructor ()
      ensures View() == Account(INCOMPLETE, Credentials("", "", ""), false, [])
    {
      status, credentials, handler, created := INCOMPLETE, Credentials("", "", ""), false, [];
    }

    method Init(c: Credentials, connects: bool, script: seq<Receive>) returns (started: bool)
      modifies this
      ensures View() == AfterInit(old(View()), c, connects, script)
      ensures started == Complete(c)
      ensures created == old(created) + Repeat(c, if Complete(c) && connects then Asked(script, |script|) else 0)
    {
      hide AfterCallbacks, Asked, Repeat;
      InitOutcome(View(), c, connects, script, []);
      if c.username == "" || c.password == "" || c.host == "" {
        return false;
      }
      credentials := c;
      status := INCOMPLETE;
      handler := true;
      if connects {
        var error, i := false, 0;
        ghost var begun := View();
        while !error && i < |script|
          invariant i <= |script|
          invariant !error ==> status == INCOMPLETE && AfterLoop(begun, script) == AfterLoop(View(), script[i..])
          invariant error ==> AfterLoop(begun, script) == View()
          decreases |script| - i, !error
        {
          RunCallbacks(script[i].callbacks);
          error := script[i].error;
          assert script[i..][1..] == script[i + 1..];
          if status == SUCCESS || status == FAILURE {
            return true;
          }
          i := i + 1;
        }
        assert i == |script| ==> script[i..] == [];
      }
      started := true;
    }

    method RunCallbacks(cs: seq<Callback>)
      modifies this`status, this`handler, this`created
      ensures View() == AfterCallbacks(old(View()), cs)
    {
      for i := 0 to |cs|
        invariant View() == AfterCallbacks(old(View()), cs[..i])
      {
        assert cs[..i + 1][..i] == cs[..i];
        if handler {
          match cs[i]
          case RegistrationFields => created := created + [credentials];
          case AlreadyRegistered => status := FAILURE;
          case RegistrationResult(success) =>
            if success {
              status := SUCCESS;
              handler := false;
            } else {
              status := FAILURE;
            }
        }
      }
      assert cs[..|cs|] == cs;
    }
  }
}
