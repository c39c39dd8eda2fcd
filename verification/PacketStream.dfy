/**
 The packet writer: one buffer that is filled from the front with bundle and message bytes and from the back
 with the type tags of the message in progress. Sizes of nested elements are patched in when an element ends;
 until then its 4-byte size slot holds the offset of the enclosing element's slot.
 */
module PacketStream {
  import opened Bytes
  import opened OscWire

  datatype Status =
    | Ok
    | OutOfBufferMemory
    | BundleNotInProgress
    | MessageInProgress
    | MessageNotInProgress

  /**
   The bytes in the buffer while the elements `open` (outermost first) are being built after the finished
   bytes `closed`. The outermost element has no size slot.
   */
  ghost function Layout(closed: bytes, open: seq<bytes>): bytes {
    if open == [] then closed
    else if |open| == 1 then closed + open[0]
    else
      var outer := open[..|open| - 1];
      Layout(closed, outer) + HostUInt32(SlotOffset(closed, outer)) + open[|open| - 1]
  }

  /** Where the size slot of the innermost open element is; 0 stands for the outermost element. */
  ghost function SlotOffset(closed: bytes, open: seq<bytes>): nat
    requires open != []
  {
    if |open| == 1 then 0 else |Layout(closed, open[..|open| - 1])|
  }

  ghost function ExtendTop(open: seq<bytes>, more: bytes): seq<bytes>
    requires open != []
  {
    open[..|open| - 1] + [open[|open| - 1] + more]
  }

  /** The open elements once the innermost one has become an element of the one around it. */
  ghost function CloseTop(open: seq<bytes>): seq<bytes>
    requires |open| >= 2
  {
    ExtendTop(open[..|open| - 1], Element(open[|open| - 1]))
  }

  lemma {:induction false} ExtendLayout(closed: bytes, open: seq<bytes>, more: bytes)
    requires open != []
    ensures Layout(closed, ExtendTop(open, more)) == Layout(closed, open) + more
    ensures SlotOffset(closed, ExtendTop(open, more)) == SlotOffset(closed, open)
  {
    var extended := ExtendTop(open, more);
    assert extended[..|extended| - 1] == open[..|open| - 1];
    if |open| == 1 {
      assert closed + (open[0] + more) == closed + open[0] + more;
    } else {
      var before := Layout(closed, open[..|open| - 1]) + HostUInt32(SlotOffset(closed, open[..|open| - 1]));
      assert before + (open[|open| - 1] + more) == before + open[|open| - 1] + more;
    }
  }

  /** Closing replaces the offset in the innermost slot by the size of the element behind it. */
  lemma CloseLayout(closed: bytes, open: seq<bytes>)
    requires |open| >= 2
    ensures var outer, inner := open[..|open| - 1], open[|open| - 1];
            && Layout(closed, open) == Layout(closed, outer) + HostUInt32(SlotOffset(closed, outer)) + inner
            && Layout(closed, CloseTop(open)) == Layout(closed, outer) + BigEndian32(|inner|) + inner
            && SlotOffset(closed, CloseTop(open)) == SlotOffset(closed, outer)
  {
    var outer, inner := open[..|open| - 1], open[|open| - 1];
    ExtendLayout(closed, outer, Element(inner));
    var prefix := Layout(closed, outer);
    assert prefix + (BigEndian32(|inner|) + inner) == prefix + BigEndian32(|inner|) + inner;
  }

  /** The effect on the whole buffer of rewriting the four bytes between a prefix and the bytes behind it. */
  lemma PatchSlot(was: bytes, now: bytes, prefix: bytes, oldSlot: bytes, newSlot: bytes, inner: bytes, end: nat)
    requires |oldSlot| == |newSlot| == 4 && |now| == |was| && end == |prefix| + 4 + |inner| <= |was|
    requires was[..end] == prefix + oldSlot + inner
    requires now[..|prefix|] == was[..|prefix|]
    requires now[|prefix|..|prefix| + 4] == newSlot
    requires now[|prefix| + 4..] == was[|prefix| + 4..]
    ensures now[..end] == prefix + newSlot + inner && now[end..] == was[end..]
  {
    assert now[..|prefix|] == was[..end][..|prefix|] == prefix;
    assert now[|prefix| + 4..end] == now[|prefix| + 4..][..|inner|] == was[|prefix| + 4..][..|inner|]
        == was[..end][|prefix| + 4..] == inner;
    assert now[..end] == now[..|prefix|] + now[|prefix|..|prefix| + 4] + now[|prefix| + 4..end];
    assert now[end..] == now[|prefix| + 4..][|inner|..];
    assert was[end..] == was[|prefix| + 4..][|inner|..];
  }

  /** Reading the slot of the innermost element back out of the buffer gives the enclosing element's slot. */
  lemma ReadSlot(was: bytes, prefix: bytes, oldSlot: bytes, inner: bytes, end: nat)
    requires |oldSlot| == 4 && end == |prefix| + 4 + |inner| <= |was|
    requires was[..end] == prefix + oldSlot + inner
    ensures was[|prefix|..|prefix| + 4] == oldSlot
  {
    assert was[|prefix|..|prefix| + 4] == was[..end][|prefix|..|prefix| + 4];
  }

  /** The buffer after the slot of a new element, if it needs one, and its first bytes have been written. */
  lemma {:induction false} OpenedBuffer(now: bytes, closed: bytes, open: seq<bytes>, inner: bytes,
                                        cursor: nat, start: nat)
    requires cursor <= start && start + |inner| <= |now|
    requires now[..cursor] == Layout(closed, open)
    requires if open == [] then start == cursor
             else start == cursor + 4 && now[cursor..start] == HostUInt32(SlotOffset(closed, open))
    requires now[start..start + |inner|] == inner
    ensures now[..start + |inner|] == Layout(closed, open + [inner])
    ensures SlotOffset(closed, open + [inner]) == if open == [] then 0 else cursor
  {
    assert now[..start + |inner|] == now[..cursor] + now[cursor..start] + now[start..start + |inner|];
    if open != [] {
      OpenLayout(closed, open, inner);
    } else {
      assert now[cursor..start] == [];
    }
  }

  /** The buffer after the innermost open element has grown. */
  lemma {:induction false} ExtendedBuffer(now: bytes, closed: bytes, open: seq<bytes>, more: bytes, cursor: nat)
    requires open != [] && cursor + |more| <= |now|
    requires now[..cursor] == Layout(closed, open)
    requires now[cursor..cursor + |more|] == more
    ensures now[..cursor + |more|] == Layout(closed, ExtendTop(open, more))
    ensures SlotOffset(closed, ExtendTop(open, more)) == SlotOffset(closed, open)
  {
    ExtendLayout(closed, open, more);
    assert now[..cursor + |more|] == now[..cursor] + now[cursor..cursor + |more|];
  }

  /** Writing the type tags in front of arguments that have been moved out of the way leaves those alone. */
  lemma BehindTags(moved: bytes, now: bytes, typeTags: bytes, arguments: bytes, at: nat)
    requires |now| == |moved| && at + |typeTags| + |arguments| <= |now|
    requires moved[at + |typeTags|..at + |typeTags| + |arguments|] == arguments
    requires now[at + |typeTags|..] == moved[at + |typeTags|..]
    requires now[at..at + |typeTags|] == typeTags
    ensures now[at..at + |typeTags + arguments|] == typeTags + arguments
  {
    var mid, end := at + |typeTags|, at + |typeTags| + |arguments|;
    assert now[mid..end] == now[mid..][..|arguments|] == moved[mid..][..|arguments|] == moved[mid..end];
    assert now[at..end] == now[at..mid] + now[mid..end];
  }

  /** What a write at `start` does to the bytes before it, together with those, and to the bytes behind it. */
  lemma WrittenBehind(was: bytes, now: bytes, from: nat, start: nat, more: bytes)
    requires |now| == |was| && from <= start && start + |more| <= |now|
    requires now[..start] == was[..start] && now[start..start + |more|] == more
    requires now[start + |more|..] == was[start + |more|..]
    ensures now[..from] == was[..from]
    ensures now[from..start + |more|] == was[from..start] + more
    ensures forall i :: start + |more| <= i < |now| ==> now[i] == was[i]
  {
    assert now[..from] == now[..start][..from] == was[..start][..from] == was[..from];
    assert now[from..start] == now[..start][from..] == was[..start][from..] == was[from..start];
    assert now[from..start + |more|] == now[from..start] + now[start..start + |more|];
    forall i | start + |more| <= i < |now| ensures now[i] == was[i] {
      assert now[i] == now[start + |more|..][i - (start + |more|)];
    }
  }

  lemma CloseTopNonEmpty(open: seq<bytes>)
    requires |open| >= 2 && forall k :: 0 <= k < |open| ==> |open[k]| > 0
    ensures forall k :: 0 <= k < |CloseTop(open)| ==> |CloseTop(open)[k]| > 0
  {
  }

  lemma {:induction false} SlotBounds(closed: bytes, open: seq<bytes>)
    requires open != [] && forall k :: 0 <= k < |open| ==> |open[k]| > 0
    ensures SlotOffset(closed, open) < |Layout(closed, open)|
    ensures if |open| == 1 then SlotOffset(closed, open) == 0 && Layout(closed, open) == closed + open[0]
            else SlotOffset(closed, open) == |Layout(closed, open[..|open| - 1])| > 0
    ensures forall done :: Layout(done, []) == done
  {
    if |open| >= 2 {
      var outer := open[..|open| - 1];
      SlotBounds(closed, outer);
    }
  }

  lemma {:induction false} OpenLayout(closed: bytes, open: seq<bytes>, inner: bytes)
    requires open != []
    ensures Layout(closed, open + [inner]) == Layout(closed, open) + HostUInt32(SlotOffset(closed, open)) + inner
    ensures SlotOffset(closed, open + [inner]) == |Layout(closed, open)|
  {
    assert (open + [inner])[..|open|] == open;
  }

  class OutboundPacketStream {
    const buffer: array<byte>
    var typeTagsCurrent: nat
    var messageCursor: nat
    var argumentCurrent: nat
    var elementSizePtr: Option<nat>
    var messageIsInProgress: bool

    /** What has been written so far, without slots: finished bytes, open elements, and the current message. */
    ghost var closed: bytes
    ghost var open: seq<bytes>
    ghost var tags: bytes
    ghost var arguments: bytes

    ghost predicate Shape()
      reads this`messageCursor, this`elementSizePtr, this`closed, this`open, buffer
    {
      && buffer.Length < 0x1_0000_0000
      && messageCursor <= buffer.Length
      && buffer[..messageCursor] == Layout(closed, open)
      && elementSizePtr == (if open == [] then None else Some(SlotOffset(closed, open)))
      && (forall k :: 0 <= k < |open| ==> |open[k]| > 0)
    }

    ghost predicate Valid()
      reads this, buffer
    {
      && Shape()
      && messageCursor <= argumentCurrent <= buffer.Length
      && typeTagsCurrent + |tags| == buffer.Length
      && |arguments| == argumentCurrent - messageCursor
      && (messageIsInProgress ==> InMessage())
    }

    /** Between the beginning and the end of a message its tags and arguments are in the buffer. */
    ghost predicate InMessage()
      reads this, buffer
      requires messageCursor <= argumentCurrent <= buffer.Length && typeTagsCurrent + |tags| == buffer.Length
    {
      && open != [] && argumentCurrent + RoundUp4(|tags| + 2) <= buffer.Length
      && buffer[messageCursor..argumentCurrent] == arguments
      && (forall j :: 0 <= j < |tags| ==> buffer[buffer.Length - 1 - j] == tags[j])
      && (|tags| == 0 ==> |arguments| == 0)
    }

    /** Outside of messages: no arguments have been written that belong to none. */
    predicate NothingStray()
      reads this
    {
      argumentCurrent == messageCursor
    }

    constructor (capacity: nat)
      requires capacity < 0x1_0000_0000
      ensures Valid() && fresh(buffer) && buffer.Length == capacity
      ensures closed == [] && open == [] && !messageIsInProgress && NothingStray()
    {
      buffer := new byte[capacity];
      typeTagsCurrent, messageCursor, argumentCurrent := capacity, 0, 0;
      elementSizePtr, messageIsInProgress := None, false;
      closed, open, tags, arguments := [], [], [], [];
    }

    function Size(): nat
      reads this, buffer
      requires typeTagsCurrent <= buffer.Length
    {
      if messageIsInProgress
      then argumentCurrent + RoundUp4(buffer.Length - typeTagsCurrent + 2)
      else argumentCurrent
    }

    function SlotSize(): nat
      reads this
    {
      if elementSizePtr == None then 0 else 4
    }

    method BeginElement(beginPtr: nat) returns (next: nat)
      requires beginPtr + SlotSize() <= buffer.Length
      modifies this`elementSizePtr, buffer
      ensures next == beginPtr + old(SlotSize())
      ensures elementSizePtr == Some(if old(elementSizePtr) == None then 0 else beginPtr)
      ensures buffer[..beginPtr] == old(buffer[..beginPtr])
      ensures old(elementSizePtr) != None ==> buffer[beginPtr..next] == HostUInt32(old(elementSizePtr).value)
    {
      hide HostUInt32;
      if elementSizePtr == None {
        elementSizePtr := Some(0);
        next := beginPtr;
      } else {
        Write(beginPtr, HostUInt32(elementSizePtr.value));
        elementSizePtr := Some(beginPtr);
        next := beginPtr + 4;
      }
    }

    /** memcpy of a constant, or the byte-by-byte store of a number. */
    method Write(at: nat, bs: bytes)
      requires at + |bs| <= buffer.Length
      modifies buffer
      ensures buffer[..at] == old(buffer[..at])
      ensures buffer[at..at + |bs|] == bs
      ensures buffer[at + |bs|..] == old(buffer[at + |bs|..])
    {
      for i := 0 to |bs|
        invariant buffer[at..at + i] == bs[..i]
        invariant forall j :: 0 <= j < at || at + i <= j < buffer.Length ==> buffer[j] == old(buffer[j])
      {
        buffer[at + i] := bs[i];
      }
    }

    /** strcpy of a C string followed by the loop that pads it with NULs to a 4-byte boundary. */
    method WriteString(at: nat, s: bytes) returns (next: nat)
      requires at + RoundUp4(|s| + 1) <= buffer.Length
      modifies buffer
      ensures next == at + RoundUp4(|s| + 1)
      ensures buffer[..at] == old(buffer[..at])
      ensures buffer[at..next] == Str4(s)
      ensures buffer[next..] == old(buffer[next..])
    {
      RoundUp4Aligned(|s| + 1);
      AlignedMod(RoundUp4(|s| + 1));
      Write(at, s + [0]);
      next := at + |s| + 1;
      var i := |s| + 1;
      while i % 4 != 0
        invariant |s| + 1 <= i <= RoundUp4(|s| + 1) && next == at + i
        invariant buffer[..at] == old(buffer[..at])
        invariant buffer[at..next] == s + Zeros(i - |s|)
        invariant forall j :: next <= j < buffer.Length ==> buffer[j] == old(buffer[j])
        decreases RoundUp4(|s| + 1) - i
      {
        buffer[next] := 0;
        next := next + 1;
        i := i + 1;
      }
    }

    /** The innermost of the elements `elements`, which follow the bytes `finished`, has just ended. */
    ghost predicate Closed(finished: bytes, elements: seq<bytes>)
      reads this
      requires elements != []
    {
      if |elements| == 1
      then open == [] && closed == finished + elements[0]
      else open == CloseTop(elements) && closed == finished
    }

    /** Reads the offset kept in a size slot and replaces it by the size of what follows, up to endPtr. */
    method PatchSize(slot: nat, endPtr: nat, ghost prefix: bytes, ghost link: bytes, ghost inner: bytes)
      returns (previousElementSizePtr: nat)
      requires |link| == 4 && slot == |prefix| && endPtr == slot + 4 + |inner| <= buffer.Length
      requires buffer[..endPtr] == prefix + link + inner
      modifies buffer
      ensures previousElementSizePtr == FromHostUInt32(link)
      ensures buffer[..endPtr] == prefix + BigEndian32(|inner|) + inner
      ensures buffer[endPtr..] == old(buffer[endPtr..])
    {
      hide HostUInt32, BigEndian32, FromHostUInt32;
      ghost var was := buffer[..];
      assert was[..endPtr] == buffer[..endPtr];
      ReadSlot(was, prefix, link, inner, endPtr);
      assert was[slot..slot + 4] == buffer[slot..slot + 4];
      previousElementSizePtr := FromHostUInt32(buffer[slot..slot + 4]);
      var elementSize := endPtr - slot - 4;
      Write(slot, BigEndian32(elementSize));
      PatchSlot(was, buffer[..], prefix, link, BigEndian32(|inner|), inner, endPtr);
    }

    method EndElement(endPtr: nat)
      requires Shape() && open != [] && endPtr == messageCursor
      modifies this`elementSizePtr, this`closed, this`open, buffer
      ensures Shape()
      ensures Closed(old(closed), old(open))
      ensures buffer[endPtr..] == old(buffer[endPtr..])
    {
      hide Layout, SlotOffset, HostUInt32, BigEndian32, RoundUp4;
      SlotBounds(closed, open);
      if elementSizePtr.value == 0 {
        elementSizePtr := None;
        closed, open := closed + open[0], [];
      } else {
        ghost var outer, inner := open[..|open| - 1], open[|open| - 1];
        ghost var prefix, link := Layout(closed, outer), HostUInt32(SlotOffset(closed, outer));
        CloseLayout(closed, open);
        SlotBounds(closed, outer);
        HostUInt32RoundTrip(SlotOffset(closed, outer));
        var previousElementSizePtr := PatchSize(elementSizePtr.value, endPtr, prefix, link, inner);
        elementSizePtr := Some(previousElementSizePtr);
        CloseTopNonEmpty(open);
        open := CloseTop(open);
      }
    }

    method BeginBundle() returns (status: Status)
      requires Valid()
      modifies this, buffer
      ensures Valid()
      ensures status == if old(messageIsInProgress) then MessageInProgress
                        else if old(Size() + SlotSize()) + 16 > buffer.Length then OutOfBufferMemory
                        else Ok
      ensures closed == old(closed)
      ensures status == Ok ==> open == old(open) + [BUNDLE_HEADER] && !messageIsInProgress && NothingStray()
      ensures status != Ok ==> unchanged(this) && unchanged(buffer)
    {
      hide Layout, SlotOffset, HostUInt32, BigEndian32, RoundUp4;
      if messageIsInProgress {
        return MessageInProgress;
      }
      if Size() + SlotSize() + 16 > buffer.Length {
        return OutOfBufferMemory;
      }
      ghost var cursor := messageCursor;
      var start := BeginElement(messageCursor);
      assert buffer[..cursor] == old(buffer[..messageCursor]);
      Write(start, BUNDLE_HEADER);
      OpenedBuffer(buffer[..], closed, open, BUNDLE_HEADER, cursor, start);
      messageCursor := start + 16;
      argumentCurrent := messageCursor;
      open := open + [BUNDLE_HEADER];
      arguments := [];
      status := Ok;
    }

    method EndBundle() returns (status: Status)
      requires Valid()
      modifies this, buffer
      ensures Valid()
      ensures status == if old(open) == [] then BundleNotInProgress
                        else if old(messageIsInProgress) then MessageInProgress
                        else Ok
      ensures status == Ok ==> Closed(old(closed), old(open)) && !messageIsInProgress
      ensures old(NothingStray()) ==> NothingStray()
      ensures status != Ok ==> unchanged(this) && unchanged(buffer)
    {
      hide Layout, SlotOffset, HostUInt32, BigEndian32, RoundUp4;
      if elementSizePtr == None {
        return BundleNotInProgress;
      }
      if messageIsInProgress {
        return MessageInProgress;
      }
      EndElement(messageCursor);
      status := Ok;
    }

    method BeginMessage(addressPattern: bytes) returns (status: Status)
      requires Valid() && NulFree(addressPattern)
      modifies this, buffer
      ensures Valid()
      ensures status == if old(messageIsInProgress) then MessageInProgress
                        else if old(Size() + SlotSize()) + |Str4(addressPattern)| + 4 > buffer.Length
                        then OutOfBufferMemory
                        else Ok
      ensures closed == old(closed)
      ensures status == Ok ==> messageIsInProgress && open == old(open) + [Str4(addressPattern)]
      ensures status == Ok ==> tags == [] && arguments == []
      ensures status != Ok ==> unchanged(this) && unchanged(buffer)
    {
      hide Layout, SlotOffset, HostUInt32, BigEndian32;
      if messageIsInProgress {
        return MessageInProgress;
      }
      if Size() + SlotSize() + RoundUp4(|addressPattern| + 1) + 4 > buffer.Length {
        return OutOfBufferMemory;
      }
      OpenMessage(addressPattern);
      argumentCurrent := messageCursor;
      typeTagsCurrent := buffer.Length;
      messageIsInProgress := true;
      tags, arguments := [], [];
      status := Ok;
    }

    /** The address of a new message goes behind the message cursor. */
    method OpenMessage(addressPattern: bytes)
      requires Shape() && NulFree(addressPattern)
      requires messageCursor + SlotSize() + |Str4(addressPattern)| <= buffer.Length
      modifies this`elementSizePtr, this`messageCursor, this`open, buffer
      ensures Shape() && open == old(open) + [Str4(addressPattern)]
      ensures messageCursor == old(messageCursor + SlotSize()) + |Str4(addressPattern)|
    {
      hide Layout, SlotOffset, HostUInt32, BigEndian32, RoundUp4;
      ghost var cursor, address := messageCursor, Str4(addressPattern);
      var start := BeginElement(messageCursor);
      assert buffer[..cursor] == old(buffer[..messageCursor]);
      messageCursor := WriteString(start, addressPattern);
      OpenedBuffer(buffer[..], closed, open, address, cursor, start);
      open := open + [address];
    }

    /** The space test made before an argument of the given length is appended. */
    predicate ArgumentFits(length: nat)
      reads this, buffer
      requires typeTagsCurrent <= buffer.Length
    {
      argumentCurrent + length + RoundUp4(buffer.Length - typeTagsCurrent + 3) <= buffer.Length
    }

    /**
     The argument has been appended, or nothing has happened because it does not fit. Nobody checks that there is a
     message: without one the argument is stored all the same, and the next bundle or message overwrites it.
     */
    twostate predicate Appended(status: Status, tag: byte, argument: bytes)
      reads this, buffer
      requires old(Valid())
    {
      && Valid()
      && open == old(open) && closed == old(closed)
      && (if old(ArgumentFits(|argument|))
          then && status == Ok && messageIsInProgress == old(messageIsInProgress)
               && tags == old(tags) + [tag] && arguments == old(arguments) + argument
          else status == OutOfBufferMemory && unchanged(this) && unchanged(buffer))
    }

    /** *(--typeTagsCurrent_) = tag: the tags of a message are kept in reverse at the end of the buffer. */
    method PushTag(tag: byte)
      requires Valid() && ArgumentFits(0)
      modifies this`typeTagsCurrent, this`tags, buffer
      ensures Valid() && tags == old(tags) + [tag]
      ensures typeTagsCurrent == old(typeTagsCurrent) - 1
    {
      hide Layout, SlotOffset, HostUInt32, BigEndian32, RoundUp4;
      typeTagsCurrent := typeTagsCurrent - 1;
      buffer[typeTagsCurrent] := tag;
      tags := tags + [tag];
      assert buffer[..messageCursor] == old(buffer[..messageCursor]);
      assert buffer[messageCursor..argumentCurrent] == old(buffer[messageCursor..argumentCurrent]);
    }

    method PutNumber(tag: byte, argument: bytes) returns (status: Status)
      requires Valid() && |argument| == 4
      modifies this, buffer
      ensures Appended(status, tag, argument)
    {
      hide Layout, SlotOffset, HostUInt32, BigEndian32, RoundUp4;
      if !ArgumentFits(4) {
        return OutOfBufferMemory;
      }
      PushTag(tag);
      ghost var was, start := buffer[..], argumentCurrent;
      Write(argumentCurrent, argument);
      argumentCurrent := argumentCurrent + 4;
      WrittenBehind(was, buffer[..], messageCursor, start, argument);
      arguments := arguments + argument;
      status := Ok;
    }

    method PutInt32(i: int32) returns (status: Status)
      requires Valid()
      modifies this, buffer
      ensures Appended(status, TAG_INT32, BigEndian32(ToUnsigned(i)))
    {
      status := PutNumber(TAG_INT32, BigEndian32(ToUnsigned(i)));
    }

    method PutFloat(bits: uint32) returns (status: Status)
      requires Valid()
      modifies this, buffer
      ensures Appended(status, TAG_FLOAT, BigEndian32(bits))
    {
      status := PutNumber(TAG_FLOAT, BigEndian32(bits));
    }

    method PutString(s: bytes) returns (status: Status)
      requires Valid() && NulFree(s)
      modifies this, buffer
      ensures Appended(status, TAG_STRING, Str4(s))
    {
      hide Layout, SlotOffset, HostUInt32, BigEndian32, RoundUp4;
      if !ArgumentFits(RoundUp4(|s| + 1)) {
        return OutOfBufferMemory;
      }
      PushTag(TAG_STRING);
      ghost var was, start := buffer[..], argumentCurrent;
      argumentCurrent := WriteString(argumentCurrent, s);
      WrittenBehind(was, buffer[..], messageCursor, start, Str4(s));
      arguments := arguments + Str4(s);
      status := Ok;
    }

    /** memmove: the two ranges may overlap. */
    method Move(to: nat, from: nat, count: nat)
      requires from <= to && to + count <= buffer.Length
      modifies buffer
      ensures buffer[to..to + count] == old(buffer[from..from + count])
      ensures buffer[..to] == old(buffer[..to])
      ensures buffer[to + count..] == old(buffer[to + count..])
    {
      forall i | 0 <= i < count {
        buffer[to + i] := buffer[from + i];
      }
    }

    /** The comma, the tags put back into forward order, and the padding. */
    method WriteTypeTags(at: nat, reversed: bytes, slotSize: nat, ghost forward: bytes)
      requires at + slotSize <= buffer.Length && slotSize == RoundUp4(|reversed| + 2)
      requires |forward| == |reversed|
      requires forall j :: 0 <= j < |forward| ==> forward[j] == reversed[|reversed| - 1 - j]
      modifies buffer
      ensures buffer[..at] == old(buffer[..at])
      ensures buffer[at..at + slotSize] == Str4([COMMA] + forward)
      ensures buffer[at + slotSize..] == old(buffer[at + slotSize..])
    {
      hide RoundUp4;
      var count := |reversed|;
      buffer[at] := COMMA;
      for i := 0 to count
        invariant buffer[at] == COMMA
        invariant forall j :: 0 <= j < i ==> buffer[at + 1 + j] == forward[j]
        invariant forall j :: 0 <= j < at || at + slotSize <= j < buffer.Length ==> buffer[j] == old(buffer[j])
      {
        buffer[at + i + 1] := reversed[count - 1 - i];
      }
      var p := at + 1 + count;
      for i := 0 to slotSize - (count + 1)
        invariant buffer[at..p] == [COMMA] + forward
        invariant forall j :: p <= j < p + i ==> buffer[j] == 0
        invariant forall j :: 0 <= j < at || at + slotSize <= j < buffer.Length ==> buffer[j] == old(buffer[j])
      {
        buffer[p + i] := 0;
      }
      assert buffer[p..at + slotSize] == Zeros(slotSize - (count + 1));
      assert buffer[at..at + slotSize] == buffer[at..p] + buffer[p..at + slotSize];
    }

    method InsertBefore(at: nat, reversed: bytes, argumentsSize: nat, ghost forward: bytes, ghost arguments: bytes)
      requires at + RoundUp4(|reversed| + 2) + argumentsSize <= buffer.Length
      requires |forward| == |reversed|
      requires forall j :: 0 <= j < |forward| ==> forward[j] == reversed[|reversed| - 1 - j]
      requires buffer[at..at + argumentsSize] == arguments
      modifies buffer
      ensures buffer[..at] == old(buffer[..at])
      ensures buffer[at..at + RoundUp4(|reversed| + 2) + argumentsSize] == Str4([COMMA] + forward) + arguments
    {
      hide RoundUp4;
      var typeTagSlotSize := RoundUp4(|reversed| + 2);
      Move(at + typeTagSlotSize, at, argumentsSize);
      assert buffer[..at] == buffer[..at + typeTagSlotSize][..at];
      ghost var moved := buffer[..];
      WriteTypeTags(at, reversed, typeTagSlotSize, forward);
      BehindTags(moved, buffer[..], Str4([COMMA] + forward), arguments, at);
    }

    /** Makes room for the type tag string in front of the arguments and writes it there. */
    method InsertTypeTags()
      requires Valid() && messageIsInProgress
      modifies this`typeTagsCurrent, this`messageCursor, this`open, buffer
      ensures Shape() && typeTagsCurrent == buffer.Length
      ensures open == ExtendTop(old(open), Str4([COMMA] + tags) + arguments)
    {
      hide Layout, SlotOffset, HostUInt32, BigEndian32;
      ghost var cursor, body := messageCursor, Str4([COMMA] + tags) + arguments;
      var typeTagsCount := buffer.Length - typeTagsCurrent;
      if typeTagsCount != 0 {
        var tempTypeTags := buffer[typeTagsCurrent..];
        var argumentsSize := argumentCurrent - messageCursor;
        InsertBefore(messageCursor, tempTypeTags, argumentsSize, tags, arguments);
        typeTagsCurrent := buffer.Length;
        messageCursor := messageCursor + RoundUp4(typeTagsCount + 2) + argumentsSize;
      } else {
        Write(messageCursor, [COMMA, 0, 0, 0]);
        messageCursor := messageCursor + 4;
        assert body == [COMMA, 0, 0, 0];
      }
      ExtendedBuffer(buffer[..], closed, open, body, cursor);
      open := ExtendTop(open, body);
    }

    method EndMessage() returns (status: Status)
      requires Valid()
      modifies this, buffer
      ensures Valid() && !messageIsInProgress
      ensures status == if old(messageIsInProgress) then Ok else MessageNotInProgress
      ensures status == Ok ==> NothingStray()
      ensures status == Ok ==>
        Closed(old(closed), ExtendTop(old(open), Str4([COMMA] + old(tags)) + old(arguments)))
      ensures status != Ok ==> unchanged(this) && unchanged(buffer)
    {
      hide Layout, SlotOffset, HostUInt32, BigEndian32, RoundUp4;
      if !messageIsInProgress {
        return MessageNotInProgress;
      }
      InsertTypeTags();
      Finish();
      status := Ok;
    }

    /** Ends the element and leaves the message mode. */
    method Finish()
      requires Shape() && |open| > 0 && typeTagsCurrent == buffer.Length
      modifies this, buffer
      ensures Valid() && !messageIsInProgress && NothingStray()
      ensures Closed(old(closed), old(open))
    {
      hide Layout, SlotOffset, HostUInt32, BigEndian32;
      argumentCurrent := messageCursor;
      EndElement(messageCursor);
      messageIsInProgress := false;
      tags, arguments := [], [];
    }
  }
}
