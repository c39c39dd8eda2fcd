/**
 The sender: walks a bundle tree and writes it to a packet stream. A packet that is sent is the encoding of the
 bundle's value, and the only way to fail is that this encoding is larger than the buffer.
 */
module OscSender {
  import opened Bytes
  import opened OscWire
  import opened OscObjects
  import opened PacketStream
  import V = OscValues

  const BUNDLE_BUFFER_SIZE: nat := 32768
  const MESSAGE_BUFFER_SIZE: nat := 16384

  datatype SendResult = Sent(packet: bytes) | OutOfBuffer

  lemma {:induction false} RoundUp4Monotone(m: nat, n: nat)
    requires m <= n
    ensures RoundUp4(m) <= RoundUp4(n)
  {
    if m > 4 {
      RoundUp4Monotone(m - 4, n - 4);
    }
  }

  /** The message written so far never needs more room than the whole message. */
  lemma {:induction false} MessageSizeMonotone(m: V.Message, i: nat)
    requires i <= |m.args|
    ensures |Str4(CString(m.address))| + RoundUp4(i + 2) + |ArgsBytes(m.args[..i])| <= |EncodeMessage(m)|
    ensures i == |m.args| ==>
      |Str4(CString(m.address))| + RoundUp4(i + 2) + |ArgsBytes(m.args[..i])| == |EncodeMessage(m)|
  {
    hide CString, RoundUp4, ArgsBytes, Tags;
    RoundUp4Monotone(i + 2, |m.args| + 2);
    ArgsPrefix(m.args, i);
    assert m.args[..|m.args|] == m.args;
  }

  lemma TagsNext(args: seq<V.Arg>, i: nat)
    requires i < |args|
    ensures Tags(args[..i + 1]) == Tags(args[..i]) + [Tag(args[i])]
  {
    hide Tag;
  }

  lemma RoundUp4OfTag()
    ensures RoundUp4(2) == 4
  {
  }

  lemma NoArgs(args: seq<V.Arg>)
    ensures ArgsBytes(args[..0]) == Tags(args[..0]) == []
  {
  }

  lemma WholeMessage(open: seq<bytes>, m: V.Message)
    ensures ExtendTop(open + [Str4(CString(m.address))], Str4([COMMA] + Tags(m.args)) + ArgsBytes(m.args))
         == open + [EncodeMessage(m)]
  {
    var address, tags, args := Str4(CString(m.address)), Str4([COMMA] + Tags(m.args)), ArgsBytes(m.args);
    assert address + (tags + args) == address + tags + args;
  }

  /** getArgType decides which operator << the argument goes to; no other type than the three can occur. */
  method AppendArg(message: Message, i: nat, p: OutboundPacketStream) returns (status: Status)
    requires message.Valid() && i < |message.args| && p.Valid() && p.messageIsInProgress
    modifies p, p.buffer
    ensures p.Appended(status, Tag(message.value.args[i]), ArgBytes(message.value.args[i]))
  {
    hide Layout, SlotOffset, CString, BigEndian32, RoundUp4;
    var argType := message.GetArgType(i);
    if argType == Success(TypeInt32) {
      var r := message.GetArgAsInt32(i, false);
      status := p.PutInt32(r.value);
    } else if argType == Success(TypeFloat) {
      var r := message.GetArgAsFloat(i, false);
      status := p.PutFloat(r.value);
    } else if argType == Success(TypeString) {
      var r := message.GetArgAsString(i);
      status := p.PutString(CString(r.value));
    } else {
      assert false;
    }
  }

  method AppendMessage(message: Message, p: OutboundPacketStream) returns (status: Status)
    requires message.Valid() && p.Valid() && !p.messageIsInProgress && p.NothingStray()
    modifies p, p.buffer
    ensures status == if old(p.messageCursor + p.SlotSize()) + |EncodeMessage(message.value)| <= p.buffer.Length
                      then Ok else OutOfBufferMemory
    ensures status == Ok ==> p.Valid() && !p.messageIsInProgress && p.NothingStray()
    ensures status == Ok ==> p.Closed(old(p.closed), old(p.open) + [EncodeMessage(message.value)])
  {
    hide Layout, SlotOffset, CString, BigEndian32, RoundUp4, ArgsBytes, Tags, ArgBytes, Tag;
    hide OutboundPacketStream.Closed, CloseTop, ExtendTop;
    ghost var m, address, base := message.value, Str4(CString(message.address)), p.messageCursor + p.SlotSize();
    MessageSizeMonotone(m, 0);
    NoArgs(m.args);
    assert RoundUp4(2) == 4 by { RoundUp4OfTag(); }
    status := p.BeginMessage(CString(message.address));
    if status != Ok {
      return;
    }
    Started(p, old(p.closed), old(p.open), address);
    for i := 0 to |message.args|
      invariant p.Valid() && p.messageIsInProgress && status == Ok
      invariant p.closed == old(p.closed) && p.open == old(p.open) + [address]
      invariant p.messageCursor == base + |address|
      invariant p.tags == Tags(m.args[..i]) && p.arguments == ArgsBytes(m.args[..i])
      invariant base + |address| + RoundUp4(i + 2) + |ArgsBytes(m.args[..i])| <= p.buffer.Length
    {
      ArgsNext(m.args, i);
      TagsNext(m.args, i);
      MessageSizeMonotone(m, i + 1);
      status := AppendArg(message, i, p);
      if status != Ok {
        return;
      }
    }
    MessageSizeMonotone(m, |m.args|);
    assert m.args[..|m.args|] == m.args;
    status := p.EndMessage();
    WholeMessage(old(p.open), m);
  }

  /** Where the cursor is once an element has been opened. */
  lemma {:induction false} Started(p: OutboundPacketStream, closed: bytes, open: seq<bytes>, first: bytes)
    requires p.Valid() && p.closed == closed && p.open == open + [first]
    ensures p.messageCursor == |Layout(closed, open)| + (if open == [] then 0 else 4) + |first|
  {
    if open != [] {
      OpenLayout(closed, open, first);
    }
  }

  /** An element that ends inside a bundle is appended to what the bundle holds already. */
  lemma InnerClosed(open: seq<bytes>, done: bytes, e: bytes)
    ensures CloseTop(open + [BUNDLE_HEADER + done] + [e]) == open + [BUNDLE_HEADER + (done + Element(e))]
  {
    var all := open + [BUNDLE_HEADER + done] + [e];
    assert all[..|all| - 1] == open + [BUNDLE_HEADER + done];
    assert (open + [BUNDLE_HEADER + done])[..|open|] == open;
    assert BUNDLE_HEADER + done + Element(e) == BUNDLE_HEADER + (done + Element(e));
  }

  /** Where the contents of the next element will start. */
  ghost function Base(p: OutboundPacketStream): (r: nat)
    reads p, p.buffer
    requires p.Valid() && !p.messageIsInProgress && p.NothingStray()
    ensures r == p.messageCursor + p.SlotSize() == |Layout(p.closed, p.open)| + if p.open == [] then 0 else 4
    ensures p.Size() == p.messageCursor
  {
    p.messageCursor + p.SlotSize()
  }

  /** The state while a bundle is being written and its first k elements are complete. */
  ghost predicate Writing(p: OutboundPacketStream, closed: bytes, open: seq<bytes>, contents: seq<bytes>, k: nat)
    reads p, p.buffer
    requires k <= |contents|
  {
    && p.Valid() && !p.messageIsInProgress && p.NothingStray() && p.SlotSize() == 4 && p.Size() == p.messageCursor
    && p.closed == closed && p.open == open + [BUNDLE_HEADER + Elements(contents[..k])]
    && p.messageCursor == |Layout(closed, open)| + (if open == [] then 0 else 4) + 16 + |Elements(contents[..k])|
  }

  lemma WrittenOne(p: OutboundPacketStream, closed: bytes, open: seq<bytes>, contents: seq<bytes>, k: nat)
    requires k < |contents| && p.Valid() && !p.messageIsInProgress && p.NothingStray()
    requires p.Closed(closed, open + [BUNDLE_HEADER + Elements(contents[..k])] + [contents[k]])
    ensures Writing(p, closed, open, contents, k + 1)
  {
    hide Elements, Layout, Element;
    ElementsNext(contents, k);
    InnerClosed(open, Elements(contents[..k]), contents[k]);
    var first := BUNDLE_HEADER + Elements(contents[..k + 1]);
    assert |first| == 16 + |Elements(contents[..k + 1])|;
    Started(p, closed, open, first);
  }

  method AppendBundle(bundle: Bundle, p: OutboundPacketStream) returns (status: Status)
    requires bundle.Valid() && p.Valid() && !p.messageIsInProgress && p.NothingStray()
    modifies p, p.buffer
    ensures status == if old(p.messageCursor + p.SlotSize()) + |EncodeBundle(bundle.value)| <= p.buffer.Length
                      then Ok else OutOfBufferMemory
    ensures status == Ok ==> p.Valid() && !p.messageIsInProgress && p.NothingStray()
    ensures status == Ok ==> p.Closed(old(p.closed), old(p.open) + [EncodeBundle(bundle.value)])
    decreases bundle.value
  {
    hide Layout, SlotOffset, Elements, Element, Contents, EncodeBundle, EncodeMessage, BigEndian32, RoundUp4;
    hide OutboundPacketStream.Closed, OutboundPacketStream.Shape, CloseTop, ExtendTop;
    hide Message.Valid, Bundle.Separate, OutboundPacketStream.Valid;
    ghost var closed, open, contents := p.closed, p.open, Contents(bundle.value);
    ghost var base := Base(p);
    BundleSize(bundle.value);
    status := p.BeginBundle();
    if status != Ok {
      return;
    }
    BundleStarted(p, closed, open, contents);
    NothingYet(contents);
    for i := 0 to |bundle.bundles|
      invariant status == Ok && Writing(p, closed, open, contents, i)
      invariant base + 16 + |Elements(contents[..i])| <= p.buffer.Length
    {
      ElementsNext(contents, i);
      ElementsPrefix(contents, i + 1);
      status := AppendBundle(bundle.bundles[i], p);
      if status != Ok {
        return;
      }
      WrittenOne(p, closed, open, contents, i);
    }
    for i := 0 to |bundle.messages|
      invariant status == Ok && Writing(p, closed, open, contents, |bundle.bundles| + i)
      invariant base + 16 + |Elements(contents[..|bundle.bundles| + i])| <= p.buffer.Length
    {
      var k := |bundle.bundles| + i;
      ElementsNext(contents, k);
      ElementsPrefix(contents, k + 1);
      status := AppendMessage(bundle.messages[i], p);
      if status != Ok {
        return;
      }
      WrittenOne(p, closed, open, contents, k);
    }
    assert contents[..|contents|] == contents;
    status := p.EndBundle();
  }

  lemma {:induction false} BundleSize(b: V.Bundle)
    ensures EncodeBundle(b) == BUNDLE_HEADER + Elements(Contents(b))
    ensures |EncodeBundle(b)| == 16 + |Elements(Contents(b))|
    ensures |Contents(b)| == |b.bundles| + |b.messages|
    ensures forall i :: 0 <= i < |b.bundles| ==> Contents(b)[i] == EncodeBundle(b.bundles[i])
    ensures forall i :: 0 <= i < |b.messages| ==> Contents(b)[|b.bundles| + i] == EncodeMessage(b.messages[i])
  {
  }

  lemma BundleStarted(p: OutboundPacketStream, closed: bytes, open: seq<bytes>, contents: seq<bytes>)
    requires p.Valid() && !p.messageIsInProgress && p.NothingStray()
    requires p.closed == closed && p.open == open + [BUNDLE_HEADER]
    ensures Writing(p, closed, open, contents, 0)
  {
    Started(p, closed, open, BUNDLE_HEADER);
    assert BUNDLE_HEADER + Elements(contents[..0]) == BUNDLE_HEADER;
  }

  /** The packet sent for a bundle, or nothing because it would not fit the buffer. */
  method SendBundle(bundle: Bundle) returns (r: SendResult)
    requires bundle.Valid()
    ensures var e := EncodeBundle(bundle.value);
            r == if |e| <= BUNDLE_BUFFER_SIZE then Sent(e) else OutOfBuffer
  {
    hide EncodeBundle;
    var p := new OutboundPacketStream(BUNDLE_BUFFER_SIZE);
    assert p.SlotSize() == 0;
    var status := AppendBundle(bundle, p);
    if status != Ok {
      return OutOfBuffer;
    }
    Finished(p, EncodeBundle(bundle.value));
    r := Sent(p.buffer[..p.Size()]);
  }

  lemma SingletonContents(m: V.Message)
    ensures Contents(V.Bundle([], [m])) == [EncodeMessage(m)]
  {
    hide EncodeMessage;
    var b := V.Bundle([], [m]);
    assert b.messages[0] == m;
  }

  /** A message is sent as the only element of a bundle: the same packet as SendBundle makes of that bundle. */
  method SendMessage(message: Message) returns (r: SendResult)
    requires message.Valid()
    ensures var e := EncodeBundle(V.Bundle([], [message.value]));
            r == if |e| <= MESSAGE_BUFFER_SIZE then Sent(e) else OutOfBuffer
  {
    hide Elements, EncodeMessage, Contents, EncodeBundle, Element, Layout, SlotOffset, CloseTop, ExtendTop;
    hide Message.Valid, OutboundPacketStream.Valid, OutboundPacketStream.Shape, OutboundPacketStream.Closed;
    ghost var b, es := V.Bundle([], [message.value]), [EncodeMessage(message.value)];
    BundleSize(b);
    SingletonContents(message.value);
    NothingYet(es);
    ElementsNext(es, 0);
    assert es[..1] == es;
    var p := new OutboundPacketStream(MESSAGE_BUFFER_SIZE);
    NothingOpen(p);
    var status := p.BeginBundle();
    assert [] + [BUNDLE_HEADER] == [BUNDLE_HEADER];
    BundleStarted(p, [], [], es);
    status := AppendMessage(message, p);
    if status != Ok {
      return OutOfBuffer;
    }
    WrittenOne(p, [], [], es, 0);
    assert p.open == [EncodeBundle(b)];
    status := p.EndBundle();
    Finished(p, EncodeBundle(b));
    r := Sent(p.buffer[..p.Size()]);
  }

  lemma NothingOpen(p: OutboundPacketStream)
    requires p.Valid() && p.closed == [] && p.open == [] && !p.messageIsInProgress && p.NothingStray()
    ensures p.typeTagsCurrent <= p.buffer.Length
    ensures p.Size() == p.messageCursor == p.SlotSize() == |Layout([], [])| == 0
  {
  }

  lemma NothingYet(es: seq<bytes>)
    ensures Elements(es[..0]) == []
  {
  }

  lemma Finished(p: OutboundPacketStream, packet: bytes)
    requires p.Valid() && !p.messageIsInProgress && p.NothingStray() && p.Closed([], [packet])
    ensures p.typeTagsCurrent <= p.buffer.Length
    ensures p.Size() == |packet| && p.buffer[..p.Size()] == packet
  {
    assert Layout([] + packet, []) == packet;
  }
}
