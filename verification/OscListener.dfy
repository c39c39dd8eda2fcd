/**
 The listener's message queue and callback. Each operation runs under the mutex, so a run is a sequence of operations
 in some order; what becomes of a message depends on whether a callback was installed when it arrived.
 */
module OscListener {
  import opened Bytes
  import opened OscObjects
  import ReceivedBundles
  import ReceivedMessages
  import OscRoundTrip
  import OscWire
  import V = OscValues

  /** A received message with the endpoint it came from. */
  datatype Envelope = Envelope(message: V.Message, host: bytes, port: int)

  type Callback = nat

  /** The queue and the callback, with the messages polled and the callback calls made so far. */
  datatype Queue = Queue(waiting: seq<Envelope>, callback: Option<Callback>,
                         polled: seq<Envelope>, calls: seq<(Callback, Envelope)>)

  datatype Event = Arrive(e: Envelope) | Poll | Install(callback: Option<Callback>)

  const EMPTY: Queue := Queue([], None, [], [])

  function Next(q: Queue, ev: Event): Queue {
    match ev
    case Arrive(e) =>
      if q.callback == None then q.(waiting := q.waiting + [e])
      else q.(calls := q.calls + [(q.callback.value, e)])
    case Poll =>
      if q.waiting == [] then q
      else q.(waiting := q.waiting[1..], polled := q.polled + [q.waiting[0]])
    case Install(callback) => q.(callback := callback)
  }

  function Run(run: seq<Event>): Queue {
    if run == [] then EMPTY else Next(Run(run[..|run| - 1]), run[|run| - 1])
  }

  // ----- what should become of the messages, read off the run alone

  function Installed(run: seq<Event>): Option<Callback> {
    if run == [] then None
    else if run[|run| - 1].Install? then run[|run| - 1].callback
    else Installed(run[..|run| - 1])
  }

  function ToQueue(run: seq<Event>): seq<Envelope> {
    if run == [] then [] else
    var front, last := run[..|run| - 1], run[|run| - 1];
    ToQueue(front) + if last.Arrive? && Installed(front) == None then [last.e] else []
  }

  function ToCallback(run: seq<Event>): seq<(Callback, Envelope)> {
    if run == [] then [] else
    var front, last := run[..|run| - 1], run[|run| - 1];
    ToCallback(front) +
    if last.Arrive? && Installed(front) != None then [(Installed(front).value, last.e)] else []
  }

  /**
   Over every run: the messages that arrived without a callback are those polled followed by those waiting, and the
   others went to the callback installed at the time; in order of arrival, none lost and none twice.
   */
  lemma {:induction false} Partition(run: seq<Event>)
    ensures var q := Run(run);
            && q.callback == Installed(run)
            && q.polled + q.waiting == ToQueue(run)
            && q.calls == ToCallback(run)
  {
    if run != [] {
      var front, last := run[..|run| - 1], run[|run| - 1];
      Partition(front);
      var q := Run(front);
      if last.Arrive? {
        assert q.polled + (q.waiting + [last.e]) == q.polled + q.waiting + [last.e];
      } else if last.Poll? && q.waiting != [] {
        assert q.polled + [q.waiting[0]] + q.waiting[1..] == q.polled + q.waiting;
      }
    }
  }

  /** Until somebody polls, a waiting message stays the next one to be polled. */
  lemma {:induction false} WaitingStays(before: seq<Event>, more: seq<Event>)
    requires Run(before).waiting != [] && forall i :: 0 <= i < |more| ==> !more[i].Poll?
    ensures Run(before).waiting <= Run(before + more).waiting
  {
    if more == [] {
      assert before + more == before;
    } else {
      var front, last := more[..|more| - 1], more[|more| - 1];
      WaitingStays(before, front);
      assert (before + more)[..|before + more| - 1] == before + front;
      assert (before + more)[|before + more| - 1] == last;
    }
  }

  function Polls(run: seq<Event>): nat {
    if run == [] then 0
    else Polls(run[..|run| - 1]) + if run[|run| - 1].Poll? then 1 else 0
  }

  function Drop(q: seq<Envelope>, n: nat): seq<Envelope> {
    if n <= |q| then q[n..] else []
  }

  /**
   The interface promises that nothing is waiting once a callback is registered. What is waiting then are exactly the
   messages queued before and not polled since, so the promise holds if and only if those have all been polled.
   */
  lemma {:induction false} WaitingWithCallback(before: seq<Event>, callback: Callback, more: seq<Event>)
    requires forall i :: 0 <= i < |more| ==> !more[i].Install?
    ensures var q := Run(before + [Install(Some(callback))] + more);
            && q.callback == Some(callback)
            && q.waiting == Drop(Run(before).waiting, Polls(more))
            && (q.waiting == [] <==> |Run(before).waiting| <= Polls(more))
  {
    var installed := before + [Install(Some(callback))];
    if more == [] {
      assert installed + more == installed && installed[..|before|] == before;
    } else {
      var front, last := more[..|more| - 1], more[|more| - 1];
      WaitingWithCallback(before, callback, front);
      var run := installed + more;
      assert run[..|run| - 1] == installed + front && run[|run| - 1] == last;
    }
  }

  /** For instance, one message and then a callback: the message still waits. */
  lemma WaitingAfterInstall(e: Envelope, callback: Callback)
    ensures Run([Arrive(e), Install(Some(callback))]).waiting == [e]
  {
    var run := [Arrive(e), Install(Some(callback))];
    assert run[..1] == [Arrive(e)] && run[..1][..0] == [];
    assert Run(run[..1]).waiting == [e];
  }

  function ArriveAll(q: Queue, ms: seq<V.Message>, host: bytes, port: int): Queue {
    if ms == [] then q
    else Next(ArriveAll(q, ms[..|ms| - 1], host, port), Arrive(Envelope(ms[|ms| - 1], host, port)))
  }

  function Envelopes(ms: seq<V.Message>, host: bytes, port: int): (r: seq<Envelope>)
    ensures |r| == |ms| && forall i :: 0 <= i < |ms| ==> r[i] == Envelope(ms[i], host, port)
  {
    seq(|ms|, i requires 0 <= i < |ms| => Envelope(ms[i], host, port))
  }

  lemma {:induction false} AllQueued(q: Queue, ms: seq<V.Message>, host: bytes, port: int)
    requires q.callback == None
    ensures ArriveAll(q, ms, host, port) == q.(waiting := q.waiting + Envelopes(ms, host, port))
  {
    if ms == [] {
      assert q.waiting + Envelopes(ms, host, port) == q.waiting;
    } else {
      var n := |ms| - 1;
      AllQueued(q, ms[..n], host, port);
      assert Envelopes(ms, host, port) == Envelopes(ms[..n], host, port) + [Envelope(ms[n], host, port)];
      assert q.waiting + Envelopes(ms, host, port) ==
        q.waiting + Envelopes(ms[..n], host, port) + [Envelope(ms[n], host, port)];
    }
  }

  /** From end to end: what a bundle without '#' addresses leaves in the queue of a listener that is polled. */
  lemma {:induction false} BundleQueued(b: V.Bundle, q: Queue, host: bytes, port: int)
    requires |OscWire.EncodeBundle(b)| <= OscRoundTrip.RECEIVE_BUFFER_SIZE && q.callback == None
    requires OscRoundTrip.NoHash(OscRoundTrip.Flatten(b))
    ensures var d := OscRoundTrip.Received(OscWire.EncodeBundle(b));
            && d.ending == ReceivedMessages.Completed
            && ArriveAll(q, d.messages, host, port).waiting ==
                 q.waiting + Envelopes(OscRoundTrip.WireMessages(OscRoundTrip.Flatten(b)), host, port)
  {
    OscRoundTrip.ArrivesCut(b);
    AllQueued(q, OscRoundTrip.WireMessages(OscRoundTrip.Flatten(b)), host, port);
  }

  class OscListener {
    var messages: seq<Message>
    var callback: Option<Callback>

    ghost var view: Queue

    ghost predicate Valid(heap: Heap)
      reads this, heap, heap.messages
    {
      && heap.Valid()
      && (forall i :: 0 <= i < |messages| ==> messages[i] in heap.messages)
      && (forall i, j :: 0 <= i < j < |messages| ==> messages[i] != messages[j])
      && callback == view.callback && |view.waiting| == |messages|
      && forall i :: 0 <= i < |messages| ==>
           view.waiting[i] == Envelope(messages[i].value, messages[i].remoteHost, messages[i].remotePort)
    }

    constructor (ghost heap: Heap)
      requires heap.Valid()
      ensures Valid(heap) && view == EMPTY
    {
      messages, callback, view := [], None, EMPTY;
    }

    method SetMessageReceivedCb(callback: Option<Callback>, ghost heap: Heap)
      requires Valid(heap)
      modifies this
      ensures Valid(heap) && view == Next(old(view), Install(callback))
    {
      this.callback := callback;
      view := Next(view, Install(callback));
    }

    method HasWaitingMessages(ghost heap: Heap) returns (r: bool)
      requires Valid(heap)
      ensures r <==> view.waiting != []
    {
      r := messages != [];
    }

    /** The arguments are added one by one, as they are read from the packet. */
    method Receive(m: V.Message, host: bytes, port: int, ghost heap: Heap) returns (message: Message)
      requires heap.Valid()
      modifies heap
      ensures heap.Valid() && fresh(message) && heap.messages == old(heap.messages) + {message}
      ensures message.value == m && message.remoteHost == host && message.remotePort == port
      ensures fresh(heap.live - old(heap.live)) && old(heap.live) <= heap.live
    {
      message := new Message(heap);
      message.SetAddress(m.address, heap);
      message.SetRemoteEndpoint(host, port, heap);
      for i := 0 to |m.args|
        invariant heap.Valid() && heap.messages == old(heap.messages) + {message}
        invariant message.value == V.Message(m.address, m.args[..i])
        invariant message.remoteHost == host && message.remotePort == port
        invariant fresh(heap.live - old(heap.live)) && old(heap.live) <= heap.live
      {
        message.Push(m.args[i], heap);
      }
    }

    /** Queue the message, or hand it to the callback and delete it. The call itself is recorded in the view. */
    method ProcessMessage(m: V.Message, host: bytes, port: int, ghost heap: Heap)
      requires Valid(heap)
      modifies this, heap
      ensures Valid(heap) && view == Next(old(view), Arrive(Envelope(m, host, port)))
      ensures heap.messages == old(heap.messages) + if callback == None then {messages[|messages| - 1]} else {}
    {
      var message := Receive(m, host, port, heap);
      view := Next(view, Arrive(Envelope(message.value, message.remoteHost, message.remotePort)));
      if callback == None {
        messages := messages + [message];
      } else {
        message.Destroy(heap);
      }
    }

    /** A packet: its messages are processed in order, up to the point where the packet code gives up. */
    method ProcessPacket(data: bytes, host: bytes, port: int, ghost heap: Heap)
      returns (ending: ReceivedMessages.Ending)
      requires Valid(heap)
      modifies this, heap
      ensures Valid(heap) && ending == ReceivedBundles.Deliver(data).ending
      ensures view == ArriveAll(old(view), ReceivedBundles.Deliver(data).messages, host, port)
    {
      hide Valid, Next, ReceivedBundles.Deliver;
      var d := ReceivedBundles.ProcessPacket(data);
      for i := 0 to |d.messages|
        invariant Valid(heap) && view == ArriveAll(old(view), d.messages[..i], host, port)
      {
        ProcessMessage(d.messages[i], host, port, heap);
        assert d.messages[..i + 1][..i] == d.messages[..i];
      }
      assert d.messages[..|d.messages|] == d.messages;
      ending := d.ending;
    }

    /** The message is appended to what the caller's message holds, so a fresh one receives exactly the queued one. */
    method GetNextMessage(message: Message, ghost heap: Heap) returns (r: bool)
      requires Valid(heap) && message in heap.messages && message !in messages
      modifies this, message, heap, messages
      ensures Valid(heap) && r == (old(view.waiting) != [])
      ensures view == Next(old(view), Poll)
      ensures r ==>
        var e := old(view.waiting[0]);
        && message.value == V.Message(e.message.address, old(message.value).args + e.message.args)
        && message.remoteHost == e.host && message.remotePort == e.port
        && heap.messages == old(heap.messages) - {old(messages[0])}
      ensures !r ==> unchanged(this) && unchanged(message) && unchanged(heap)
    {
      if messages == [] {
        return false;
      }
      var source := messages[0];
      message.Copy(source, heap);
      source.Destroy(heap);
      messages := messages[1..];
      view := Next(view, Poll);
      r := true;
    }
  }
}
