/** The subscription type a client keeps for a contact, computed from the attributes of the server's roster pushes. */
module RosterItem {
  import opened SubscriptionStates
  import opened PresenceHandshake
  import PresenceRuns

  datatype Push = Push(subscription: string, ask: string)

  predicate Recognised(p: Push) {
    p.subscription in {"from", "to", "none", "both"}
  }

  /** The type after a push; an unrecognised subscription keeps the previous one. */
  function TypeAfter(p: Push, previous: SubscriptionType): SubscriptionType {
    if p.subscription == "from" then if p.ask == "" then S10nFrom else S10nFromOut
    else if p.subscription == "to" then if p.ask == "" then S10nTo else S10nToIn
    else if p.subscription == "none" then if p.ask == "" then S10nNone else S10nNoneOut
    else if p.subscription == "both" then S10nBoth
    else previous
  }

  function TypeAfterAll(pushes: seq<Push>, initial: SubscriptionType): SubscriptionType {
    if pushes == [] then initial
    else TypeAfter(pushes[|pushes| - 1], TypeAfterAll(pushes[..|pushes| - 1], initial))
  }

  class RosterItemData {
    var subscriptionType: SubscriptionType
    var sub: string
    var ask: string

    constructor ()
      ensures subscriptionType == S10nNone
    {
      subscriptionType, sub, ask := S10nNone, "", "";
    }

    method SetSubscription(subscription: string, ask: string)
      modifies this
      ensures this.sub == subscription && this.ask == ask
      ensures subscriptionType == TypeAfter(Push(subscription, ask), old(subscriptionType))
    {
      this.sub := subscription;
      this.ask := ask;
      if subscription == "from" && ask == "" {
        subscriptionType := S10nFrom;
      } else if subscription == "from" && ask != "" {
        subscriptionType := S10nFromOut;
      } else if subscription == "to" && ask == "" {
        subscriptionType := S10nTo;
      } else if subscription == "to" && ask != "" {
        subscriptionType := S10nToIn;
      } else if subscription == "none" && ask == "" {
        subscriptionType := S10nNone;
      } else if subscription == "none" && ask != "" {
        subscriptionType := S10nNoneOut;
      } else if subscription == "both" {
        subscriptionType := S10nBoth;
      }
    }
  }

  /**
   Only the last push with a recognised subscription counts: "to" and "both" say that the user is subscribed, "from"
   and "both" that the contact is, and a request attribute that the other half of the two is pending.
   */
  lemma {:induction false} LastRecognised(pushes: seq<Push>, k: nat, initial: SubscriptionType)
    requires k < |pushes| && Recognised(pushes[k])
    requires forall j :: k < j < |pushes| ==> !Recognised(pushes[j])
    ensures forall previous :: TypeAfterAll(pushes, initial) == TypeAfter(pushes[k], previous)
    ensures var s, p := TypeAfterAll(pushes, initial), pushes[k];
            && (Own(s) == Granted <==> p.subscription in {"to", "both"})
            && (Contacts(s) == Granted <==> p.subscription in {"from", "both"})
            && (Own(s) == Pending <==> p.subscription in {"none", "from"} && p.ask != "")
            && (Contacts(s) == Pending <==> p.subscription == "to" && p.ask != "")
  {
    var n := |pushes| - 1;
    if k < n {
      LastRecognised(pushes[..n], k, initial);
      assert pushes[..n][k] == pushes[k];
      assert !Recognised(pushes[n]);
    }
  }

  /** The attributes of a roster push (RFC 3921, section 7.1): a waiting request of the contact does not show. */
  function Attributes(s: SubscriptionType): Push {
    var subscription :=
      if Own(s) == Granted && Contacts(s) == Granted then "both"
      else if Own(s) == Granted then "to"
      else if Contacts(s) == Granted then "from"
      else "none";
    Push(subscription, if Own(s) == Pending then "subscribe" else "")
  }

  function WithoutPendingIn(s: SubscriptionType): SubscriptionType {
    match s
    case S10nNoneIn => S10nNone
    case S10nNoneOutIn => S10nNoneOut
    case S10nToIn => S10nTo
    case _ => s
  }

  /** What the client shows after a push is the server's state with a pending request of the contact left out. */
  lemma PushedState(s: SubscriptionType, previous: SubscriptionType)
    ensures TypeAfter(Attributes(s), previous) == WithoutPendingIn(s)
  {
  }

  /**
   The pushes of the server to one client along a run of the handshake: its roster at the start, then a push whenever
   the attributes have changed.
   */
  function PushesOf(run: seq<Step>, who: Who): seq<Push>
    requires Possible(PresenceHandshake.INIT, run)
  {
    [Attributes(PresenceHandshake.INIT.Get(who).state)] + PushesFrom(PresenceHandshake.INIT, run, who)
  }

  function PushesFrom(s: System, run: seq<Step>, who: Who): seq<Push>
    requires Possible(s, run)
    decreases |run|
  {
    if run == [] then [] else PushOf(s, run[0], who) + PushesFrom(Next(s, run[0]), run[1..], who)
  }

  function PushOf(s: System, step: Step, who: Who): seq<Push>
    requires Enabled(s, step)
  {
    var before, after := Attributes(s.Get(who).state), Attributes(Next(s, step).Get(who).state);
    if before == after then [] else [after]
  }

  lemma StepShown(s: System, step: Step, who: Who)
    requires Enabled(s, step)
    ensures TypeAfterAll(PushOf(s, step, who), WithoutPendingIn(s.Get(who).state))
         == WithoutPendingIn(Next(s, step).Get(who).state)
  {
    hide Next, Enabled, Attributes, TypeAfter;
    var before, after := s.Get(who).state, Next(s, step).Get(who).state;
    PushedState(before, S10nNone);
    PushedState(after, S10nNone);
    PushedState(after, WithoutPendingIn(before));
    assert [Attributes(after)][..0] == [];
  }

  /** A client that shows the server's state, and is told of all changes of the attributes, goes on to show it. */
  lemma {:induction false} ShownAlongRun(s: System, run: seq<Step>, who: Who)
    requires Possible(s, run)
    ensures TypeAfterAll(PushesFrom(s, run, who), WithoutPendingIn(s.Get(who).state))
         == WithoutPendingIn(Exec(s, run).Get(who).state)
    decreases |run|
  {
    hide Next, Enabled, PushOf, TypeAfter, WithoutPendingIn;
    if run != [] {
      var first, next := PushOf(s, run[0], who), Next(s, run[0]);
      StepShown(s, run[0], who);
      TypeAfterRest(first, PushesFrom(next, run[1..], who), WithoutPendingIn(s.Get(who).state));
      ShownAlongRun(next, run[1..], who);
    }
  }

  lemma {:induction false} TypeAfterRest(first: seq<Push>, rest: seq<Push>, initial: SubscriptionType)
    ensures TypeAfterAll(first + rest, initial) == TypeAfterAll(rest, TypeAfterAll(first, initial))
  {
    hide TypeAfter;
    if rest == [] {
      assert first + rest == first;
    } else {
      var n := |rest| - 1;
      TypeAfterRest(first, rest[..n], initial);
      assert (first + rest)[..|first + rest| - 1] == first + rest[..n];
    }
  }

  /** From the start: the client's type is the server's state with a pending request of the contact left out. */
  lemma {:induction false} ShownFromStart(run: seq<Step>, who: Who, initial: SubscriptionType)
    requires Possible(PresenceHandshake.INIT, run)
    ensures TypeAfterAll(PushesOf(run, who), initial)
         == WithoutPendingIn(Exec(PresenceHandshake.INIT, run).Get(who).state)
  {
    hide Next, Enabled, TypeAfter;
    var start := PresenceHandshake.INIT;
    var first := [Attributes(start.Get(who).state)];
    assert first[..0] == [];
    PushedState(start.Get(who).state, initial);
    TypeAfterRest(first, PushesFrom(start, run, who), initial);
    ShownAlongRun(start, run, who);
  }

  /** How far the exchange has got, as far as the attributes show it. */
  function Shown(s: SubscriptionType): nat {
    (match Own(s) case Nothing => 0 case Pending => 1 case Granted => 2) + if Contacts(s) == Granted then 1 else 0
  }

  lemma StepForward(s: System, step: Step, who: Who)
    requires Enabled(s, step)
    ensures Shown(s.Get(who).state) + |PushOf(s, step, who)| <= Shown(Next(s, step).Get(who).state) <= 3
  {
    TablesByHalves(s.Get(who).state);
    hide OutboundSubscribe, OutboundSubscribed, InboundSubscribe, InboundSubscribed, Own, Contacts;
  }

  /** The exchange never goes back, so that in every run a client is told of three changes at most. */
  lemma {:induction false} FewPushes(s: System, run: seq<Step>, who: Who)
    requires Possible(s, run)
    ensures Shown(s.Get(who).state) + |PushesFrom(s, run, who)| <= Shown(Exec(s, run).Get(who).state) <= 3
    decreases |run|
  {
    hide Next, Enabled, PushOf;
    if run != [] {
      StepForward(s, run[0], who);
      FewPushes(Next(s, run[0]), run[1..], who);
    }
  }

  /** Once a roster has lacked the contact, and the exchange is over, both clients show it as subscribed both ways. */
  lemma {:induction false} ShownAtTheEnd(run: seq<Step>, who: Who)
    requires Possible(PresenceHandshake.INIT, run)
    requires Quiescent(Exec(PresenceHandshake.INIT, run))
    requires exists k: nat, w :: PresenceRuns.AsksAt(PresenceHandshake.INIT, run, k, w)
    ensures TypeAfterAll(PushesOf(run, who), S10nNone) == S10nBoth
  {
    PresenceRuns.BeginsWithRoster(run);
    ShownFromStart(run, who, S10nNone);
  }
}
