/**
 The nine subscription states of RFC 3921, section 9.1, and the server's handling of "subscribe" and "subscribed"
 stanzas as its tables give it, row by row (sections 9.2 and 9.3).
 */
module SubscriptionStates {

  datatype SubscriptionType =
    | S10nNone
    | S10nNoneOut
    | S10nNoneIn
    | S10nNoneOutIn
    | S10nTo
    | S10nToIn
    | S10nFrom
    | S10nFromOut
    | S10nBoth

  datatype Stanza = Subscribe | Subscribed

  /** The user's server, when the user sends "subscribe". The stanza is routed in every state. */
  function OutboundSubscribe(s: SubscriptionType): SubscriptionType {
    match s
    case S10nNone => S10nNoneOut
    case S10nNoneOut => S10nNoneOut
    case S10nNoneIn => S10nNoneOutIn
    case S10nNoneOutIn => S10nNoneOutIn
    case S10nTo => S10nTo
    case S10nToIn => S10nToIn
    case S10nFrom => S10nFromOut
    case S10nFromOut => S10nFromOut
    case S10nBoth => S10nBoth
  }

  /** The user's server, when the user sends "subscribed": whether it is routed, and the new state. */
  function OutboundSubscribed(s: SubscriptionType): (bool, SubscriptionType) {
    match s
    case S10nNone => (false, S10nNone)
    case S10nNoneOut => (false, S10nNoneOut)
    case S10nNoneIn => (true, S10nFrom)
    case S10nNoneOutIn => (true, S10nFromOut)
    case S10nTo => (false, S10nTo)
    case S10nToIn => (true, S10nBoth)
    case S10nFrom => (false, S10nFrom)
    case S10nFromOut => (false, S10nFromOut)
    case S10nBoth => (false, S10nBoth)
  }

  datatype Inbound = Deliver | Drop | AutoReply

  /** The contact's server, when "subscribe" arrives. Where the contact has agreed before, the server answers itself. */
  function InboundSubscribe(s: SubscriptionType): (Inbound, SubscriptionType) {
    match s
    case S10nNone => (Deliver, S10nNoneIn)
    case S10nNoneOut => (Deliver, S10nNoneOutIn)
    case S10nNoneIn => (Drop, S10nNoneIn)
    case S10nNoneOutIn => (Drop, S10nNoneOutIn)
    case S10nTo => (Deliver, S10nToIn)
    case S10nToIn => (Drop, S10nToIn)
    case S10nFrom => (AutoReply, S10nFrom)
    case S10nFromOut => (AutoReply, S10nFromOut)
    case S10nBoth => (AutoReply, S10nBoth)
  }

  /** The user's server, when "subscribed" arrives. */
  function InboundSubscribed(s: SubscriptionType): (Inbound, SubscriptionType) {
    match s
    case S10nNone => (Drop, S10nNone)
    case S10nNoneOut => (Deliver, S10nTo)
    case S10nNoneIn => (Drop, S10nNoneIn)
    case S10nNoneOutIn => (Deliver, S10nToIn)
    case S10nTo => (Drop, S10nTo)
    case S10nToIn => (Drop, S10nToIn)
    case S10nFrom => (Drop, S10nFrom)
    case S10nFromOut => (Deliver, S10nBoth)
    case S10nBoth => (Drop, S10nBoth)
  }

  /** The two halves of a state: how far the user's own request and the contact's request have got. */
  datatype Progress = Nothing | Pending | Granted

  function Own(s: SubscriptionType): Progress {
    match s
    case S10nNone | S10nNoneIn | S10nFrom => Nothing
    case S10nNoneOut | S10nNoneOutIn | S10nFromOut => Pending
    case S10nTo | S10nToIn | S10nBoth => Granted
  }

  function Contacts(s: SubscriptionType): Progress {
    match s
    case S10nNone | S10nNoneOut | S10nTo => Nothing
    case S10nNoneIn | S10nNoneOutIn | S10nToIn => Pending
    case S10nFrom | S10nFromOut | S10nBoth => Granted
  }

  /** A state is the combination of its two halves. */
  lemma HalvesDetermine(s: SubscriptionType, t: SubscriptionType)
    ensures s == t <==> Own(s) == Own(t) && Contacts(s) == Contacts(t)
  {
  }

  /**
   The tables, by halves: "subscribe" only ever starts the sender's half and the receiver's view of it, and
   "subscribed" only ever completes them; no table moves a half backwards.
   */
  lemma TablesByHalves(s: SubscriptionType)
    ensures Own(OutboundSubscribe(s)) == (if Own(s) == Nothing then Pending else Own(s))
    ensures Contacts(OutboundSubscribe(s)) == Contacts(s)
    ensures OutboundSubscribed(s).0 <==> Contacts(s) == Pending
    ensures Contacts(OutboundSubscribed(s).1) == (if Contacts(s) == Pending then Granted else Contacts(s))
    ensures Own(OutboundSubscribed(s).1) == Own(s)
    ensures InboundSubscribe(s).0 ==
            (match Contacts(s) case Nothing => Deliver case Pending => Drop case Granted => AutoReply)
    ensures Contacts(InboundSubscribe(s).1) == (if Contacts(s) == Nothing then Pending else Contacts(s))
    ensures Own(InboundSubscribe(s).1) == Own(s)
    ensures InboundSubscribed(s).0 == (if Own(s) == Pending then Deliver else Drop)
    ensures Own(InboundSubscribed(s).1) == (if Own(s) == Pending then Granted else Own(s))
    ensures Contacts(InboundSubscribed(s).1) == Contacts(s)
  {
  }
}
