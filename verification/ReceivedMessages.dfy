/**
 The reader of messages, on arbitrary bytes. A position in a message is an offset from its first byte; a C string at a
 position is what CString makes of the bytes from there on. What the reader comes to may be a result or one of several
 endings; a read behind the message and a loop that never ends are endings, too.
 */
module ReceivedMessages {
  import opened Bytes
  import opened OscValues
  import opened OscWire

  /**
   How the processing of a packet ends: regularly, with an exception of the packet code, with a failed assertion of the
   listener, with a read behind the end of a message, or not at all.
   */
  datatype Ending = Completed | Refused | Unsupported | Overread | Endless

  datatype Outcome<+T> = Accepted(value: T) | Ended(ending: Ending)

  /** The first 4-byte boundary after the string at p, if the string ends before the end of the message. */
  function Str4End(m: bytes, p: nat): (r: Option<nat>)
    requires p <= |m| && Aligned(|m| - p)
    ensures r.Some? ==> p + 4 <= r.value <= |m| && Aligned(|m| - r.value)
  {
    if p == |m| then None
    else if m[p] == 0 then Some(p + 4)
    else WordEnd(m, p)
  }

  /** The end of the first word at or after p whose last byte is NUL. */
  function WordEnd(m: bytes, p: nat): (r: Option<nat>)
    requires p < |m| && Aligned(|m| - p)
    ensures r.Some? ==> p + 4 <= r.value <= |m| && Aligned(|m| - r.value)
    decreases |m| - p
  {
    if m[p + 3] == 0 then Some(p + 4)
    else if p + 4 == |m| then None
    else WordEnd(m, p + 4)
  }

  method FindStr4End(m: bytes, p: nat) returns (r: Option<nat>)
    requires p <= |m| && Aligned(|m| - p)
    ensures r == Str4End(m, p)
  {
    if p >= |m| {
      return None;
    }
    if m[p] == 0 {
      return Some(p + 4);
    }
    var q, end := p + 3, |m| - 1;
    while q < end && m[q] != 0
      invariant 3 <= q <= end && Aligned(end - q)
      invariant WordEnd(m, p) == WordEnd(m, q - 3)
    {
      q := q + 4;
    }
    r := if m[q] != 0 then None else Some(q + 1);
  }

  /** The variant without an end is only used where the string is known to end inside the message. */
  method FindStr4EndUnchecked(m: bytes, p: nat) returns (r: nat)
    requires p <= |m| && Aligned(|m| - p) && Str4End(m, p).Some?
    ensures Some(r) == Str4End(m, p)
  {
    if m[p] == 0 {
      return p + 4;
    }
    var q := p + 3;
    while m[q] != 0
      invariant 3 <= q < |m| && Aligned(|m| - 1 - q)
      invariant WordEnd(m, q - 3) == WordEnd(m, p)
      decreases |m| - q
    {
      q := q + 4;
    }
    r := q + 1;
  }

  const NO_DATA_TAGS: set<byte> := {84, 70, 78, 73}           // 'T' 'F' 'N' 'I'
  const FOUR_BYTE_TAGS: set<byte> := {105, 102, 99, 114, 109}  // 'i' 'f' 'c' 'r' 'm'
  const EIGHT_BYTE_TAGS: set<byte> := {104, 116, 100}          // 'h' 't' 'd'
  const STRING_TAGS: set<byte> := {115, 83}                    // 's' 'S'
  const TAG_BLOB: byte := 98                                   // 'b'

  /** A position on a 4-byte boundary. Behind a blob it may lie beyond the end of the message. */
  predicate OnGrid(m: bytes, a: nat) {
    a <= |m| ==> Aligned(|m| - a)
  }

  lemma BehindBlob(m: bytes, a: nat, size: nat)
    requires a <= |m| && Aligned(|m| - a)
    ensures OnGrid(m, a + 4 + RoundUp4(size))
  {
    hide RoundUp4;
    RoundUp4Aligned(size);
    if a + 4 + RoundUp4(size) <= |m| {
      AlignedSub(|m| - a - 4, RoundUp4(size));
    }
  }

  /**
   Where the argument after the one at a starts. All types but blobs are checked to lie inside the message. For a blob
   the checks construct their exceptions without throwing them: the size is read wherever it is.
   */
  function Skip(m: bytes, tag: byte, a: nat): (r: Outcome<nat>)
    requires OnGrid(m, a)
    ensures r.Accepted? ==> a <= r.value && OnGrid(m, r.value) && tag != 0
    ensures r.Accepted? && tag !in NO_DATA_TAGS && tag != TAG_BLOB ==> a < r.value <= |m|
    ensures r.Ended? ==> r.ending == Refused || r.ending == Overread
  {
    if tag in NO_DATA_TAGS then Accepted(a)
    else if tag in FOUR_BYTE_TAGS then if a + 4 <= |m| then Accepted(a + 4) else Ended(Refused)
    else if tag in EIGHT_BYTE_TAGS then
      if a + 8 <= |m| then assert Aligned(|m| - (a + 4)); Accepted(a + 8) else Ended(Refused)
    else if tag in STRING_TAGS then
      if a >= |m| then Ended(Refused)
      else match Str4End(m, a) case None => Ended(Refused) case Some(end) => Accepted(end)
    else if tag == TAG_BLOB then
      if a + 4 > |m| then Ended(Overread) else
      var size := FromBigEndian32(m[a..a + 4]);
      BehindBlob(m, a, size);
      Accepted(a + 4 + RoundUp4(size))
    else Ended(Refused)
  }

  /** Where the type tags that start at t end, if every argument they announce, from a on, passes its check. */
  function TagsEnd(m: bytes, t: nat, limit: nat, a: nat): (r: Outcome<nat>)
    requires t < limit <= |m| && limit <= a && OnGrid(m, a) && m[limit - 1] == 0
    ensures r.Accepted? ==> t < r.value < limit && m[r.value] == 0
    ensures r.Ended? ==> r.ending == Refused || r.ending == Overread
    decreases limit - t
  {
    var next := Skip(m, m[t], a);
    if next.Ended? then next
    else if m[t + 1] == 0 then Accepted(t + 1)
    else TagsEnd(m, t + 1, limit, next.value)
  }

  /** Where the type tags begin and where the arguments are, as long as neither has been checked. */
  datatype Head = Bare | Tagged(typeTagsBegin: nat, arguments: nat)

  function HeadOf(m: bytes): (r: Outcome<Head>)
    ensures r.Ended? ==> r.ending == Refused
    ensures r.Accepted? && r.value.Tagged? ==>
      var Tagged(begin, arguments) := r.value;
      0 < begin < arguments <= |m| && Aligned(|m| - arguments) && m[arguments - 1] == 0 && m[begin] != 0
  {
    if m == [] || !Aligned(|m|) then Ended(Refused) else
    var typeTags := Str4End(m, 0);
    if typeTags == None then Ended(Refused)
    else if typeTags.value == |m| then Accepted(Bare)
    else if m[typeTags.value] != COMMA then Ended(Refused)
    else if m[typeTags.value + 1] == 0 then Accepted(Bare)
    else
      var arguments := Str4End(m, typeTags.value);
      if arguments == None then Ended(Refused) else
      Str4EndIsNul(m, typeTags.value);
      Accepted(Tagged(typeTags.value + 1, arguments.value))
  }

  /** A message that has been checked: where its type tags begin and end and where its arguments are. */
  datatype ReceivedMessage =
    | NoArguments
    | Arguments(typeTagsBegin: nat, typeTagsEnd: nat, arguments: nat)

  function Opened(m: bytes): Outcome<ReceivedMessage> {
    match HeadOf(m)
    case Ended(ending) => Ended(ending)
    case Accepted(Bare) => Accepted(NoArguments)
    case Accepted(Tagged(begin, arguments)) =>
      match TagsEnd(m, begin, arguments, arguments)
      case Ended(ending) => Ended(ending)
      case Accepted(end) => Accepted(Arguments(begin, end, arguments))
  }

  lemma Str4EndIsNul(m: bytes, p: nat)
    requires p <= |m| && Aligned(|m| - p) && Str4End(m, p).Some?
    ensures p < |m| && m[p] != 0 ==> m[Str4End(m, p).value - 1] == 0
  {
    if p < |m| && m[p] != 0 {
      WordEndIsNul(m, p);
    }
  }

  lemma {:induction false} WordEndIsNul(m: bytes, p: nat)
    requires p < |m| && Aligned(|m| - p) && WordEnd(m, p).Some?
    ensures m[WordEnd(m, p).value - 1] == 0
    decreases |m| - p
  {
    if m[p + 3] != 0 {
      WordEndIsNul(m, p + 4);
    }
  }

  /** ReceivedMessage::Init. The type tag loop looks at a tag before it tests for the end. */
  method Init(m: bytes) returns (r: Outcome<ReceivedMessage>)
    ensures r == Opened(m)
  {
    hide Str4End, WordEnd, Skip;
    AlignedMod(|m|);
    if |m| == 0 || |m| % 4 != 0 {
      return Ended(Refused);
    }
    var typeTagsBegin := FindStr4End(m, 0);
    if typeTagsBegin == None {
      return Ended(Refused);
    }
    if typeTagsBegin.value == |m| {
      return Accepted(NoArguments);
    }
    if m[typeTagsBegin.value] != COMMA {
      return Ended(Refused);
    }
    if m[typeTagsBegin.value + 1] == 0 {
      return Accepted(NoArguments);
    }
    var arguments := FindStr4End(m, typeTagsBegin.value);
    if arguments == None {
      return Ended(Refused);
    }
    Str4EndIsNul(m, typeTagsBegin.value);
    var end := CheckArguments(m, typeTagsBegin.value + 1, arguments.value);
    r := if end.Ended? then Ended(end.ending)
         else Accepted(Arguments(typeTagsBegin.value + 1, end.value, arguments.value));
  }

  /** The loop over the type tags. */
  method CheckArguments(m: bytes, first: nat, arguments: nat) returns (r: Outcome<nat>)
    requires first < arguments <= |m| && Aligned(|m| - arguments) && m[arguments - 1] == 0
    ensures r == TagsEnd(m, first, arguments, arguments)
  {
    hide Skip;
    var typeTag, argument := first, arguments;
    var more := true;
    while more
      invariant first <= typeTag < arguments <= argument && OnGrid(m, argument)
      invariant more ==> TagsEnd(m, typeTag, arguments, argument) == TagsEnd(m, first, arguments, arguments)
      invariant !more ==> TagsEnd(m, first, arguments, arguments) == Accepted(typeTag)
      decreases arguments - typeTag, more
    {
      var next := CheckArgument(m, m[typeTag], argument);
      if next.Ended? {
        return next;
      }
      argument := next.value;
      typeTag := typeTag + 1;
      more := m[typeTag] != 0;
    }
    r := Accepted(typeTag);
  }

  /** The switch over the type tags. Reading the size of a blob is the one read that is not checked. */
  method CheckArgument(m: bytes, tag: byte, argument: nat) returns (r: Outcome<nat>)
    requires OnGrid(m, argument)
    ensures r == Skip(m, tag, argument)
  {
    match tag {
      case 84 | 70 | 78 | 73 =>  // 'T' 'F' 'N' 'I'
        return Accepted(argument);
      case 105 | 102 | 99 | 114 | 109 =>  // 'i' 'f' 'c' 'r' 'm'
        return if argument + 4 > |m| then Ended(Refused) else Accepted(argument + 4);
      case 104 | 116 | 100 =>  // 'h' 't' 'd'
        return if argument + 8 > |m| then Ended(Refused) else Accepted(argument + 8);
      case 115 | 83 =>  // 's' 'S'
        if argument >= |m| {
          return Ended(Refused);
        }
        var end := FindStr4End(m, argument);
        r := if end == None then Ended(Refused) else Accepted(end.value);
      case 98 =>  // 'b'
        if argument + 4 > |m| {
          return Ended(Overread);
        }
        r := Accepted(argument + 4 + RoundUp4(FromBigEndian32(m[argument..argument + 4])));
      case _ =>
        return Ended(Refused);
    }
  }

  // ----- from the bytes to a message

  /** The three types the platform handles; at any other one the listener's assertion fails. */
  function ArgumentAt(m: bytes, tag: byte, a: nat): Option<Arg>
    requires OnGrid(m, a) && Skip(m, tag, a).Accepted?
  {
    if tag == TAG_INT32 then Some(Int32(ToSigned(FromBigEndian32(m[a..a + 4]))))
    else if tag == TAG_FLOAT then Some(Float(FromBigEndian32(m[a..a + 4])))
    else if tag == TAG_STRING then Some(Str(CString(m[a..])))
    else None
  }

  function Prepend(args: seq<Arg>, rest: Outcome<seq<Arg>>): Outcome<seq<Arg>> {
    if rest.Ended? then rest else Accepted(args + rest.value)
  }

  function Collect(m: bytes, t: nat, end: nat, a: nat): (r: Outcome<seq<Arg>>)
    requires t <= end <= |m| && OnGrid(m, a)
    ensures r.Ended? ==> r.ending != Completed
    decreases end - t
  {
    if t == end then Accepted([]) else
    var next := Skip(m, m[t], a);
    if next.Ended? then Ended(next.ending) else
    var arg := ArgumentAt(m, m[t], a);
    if arg == None then Ended(Unsupported) else Prepend([arg.value], Collect(m, t + 1, end, next.value))
  }

  /** The message the listener builds, if the packet code accepts the bytes and the listener all argument types. */
  function ParseMessage(m: bytes): Outcome<Message> {
    match Opened(m)
    case Ended(ending) => Ended(ending)
    case Accepted(NoArguments) => Accepted(Message(CString(m), []))
    case Accepted(Arguments(begin, end, arguments)) =>
      OpenedTags(m);
      match Collect(m, begin, end, arguments)
      case Ended(ending) => Ended(ending)
      case Accepted(args) => Accepted(Message(CString(m), args))
  }

  lemma {:induction false} OpenedTags(m: bytes)
    ensures Opened(m).Accepted? && Opened(m).value.Arguments? ==>
      var Arguments(begin, end, arguments) := Opened(m).value;
      && begin < end < arguments <= |m| && Aligned(|m| - arguments) && m[arguments - 1] == 0
      && TagsEnd(m, begin, arguments, arguments) == Accepted(end)
  {
  }

  /** ReceivedMessageArgumentIterator::Advance, for the tags that pass the check made when the message was opened. */
  method Advance(m: bytes, tag: byte, argument: nat) returns (r: nat)
    requires OnGrid(m, argument) && Skip(m, tag, argument).Accepted?
    ensures Accepted(r) == Skip(m, tag, argument)
  {
    if tag in FOUR_BYTE_TAGS {
      return argument + 4;
    } else if tag in EIGHT_BYTE_TAGS {
      return argument + 8;
    } else if tag in STRING_TAGS {
      r := FindStr4EndUnchecked(m, argument);
    } else if tag == TAG_BLOB {
      r := argument + 4 + RoundUp4(FromBigEndian32(m[argument..argument + 4]));
    } else {
      return argument;
    }
  }

  /** Opening a message has made the same steps as the iteration over its arguments makes. */
  lemma {:induction false} Checked(m: bytes, t: nat, limit: nat, a: nat, end: nat)
    requires t < limit <= |m| && limit <= a && OnGrid(m, a) && m[limit - 1] == 0
    requires TagsEnd(m, t, limit, a) == Accepted(end)
    ensures t < end && Skip(m, m[t], a).Accepted?
    ensures t + 1 < end ==> TagsEnd(m, t + 1, limit, Skip(m, m[t], a).value) == Accepted(end)
  {
  }

  /** OscListener::ProcessMessage up to the point where the message is handed on. */
  method BuildMessage(m: bytes) returns (r: Outcome<Message>)
    ensures r == ParseMessage(m)
  {
    hide Opened, Collect, TagsEnd;
    OpenedTags(m);
    var received := Init(m);
    if received.Ended? {
      return Ended(received.ending);
    }
    if received.value.NoArguments? {
      return Accepted(Message(CString(m), []));
    }
    var Arguments(begin, end, arguments) := received.value;
    var args := CollectArguments(m, begin, end, arguments);
    r := if args.Ended? then Ended(args.ending) else Accepted(Message(CString(m), args.value));
  }

  method ReadArgument(m: bytes, tag: byte, argument: nat) returns (r: Option<Arg>)
    requires OnGrid(m, argument) && Skip(m, tag, argument).Accepted?
    ensures r == ArgumentAt(m, tag, argument)
  {
    if tag == TAG_INT32 {
      r := Some(Int32(ToSigned(FromBigEndian32(m[argument..argument + 4]))));
    } else if tag == TAG_FLOAT {
      r := Some(Float(FromBigEndian32(m[argument..argument + 4])));
    } else if tag == TAG_STRING {
      r := Some(Str(CString(m[argument..])));
    } else {
      r := None;
    }
  }

  /** The loop over the arguments, stepping with the unchecked Advance. */
  method CollectArguments(m: bytes, begin: nat, end: nat, arguments: nat) returns (r: Outcome<seq<Arg>>)
    requires begin < end < arguments <= |m| && Aligned(|m| - arguments) && m[arguments - 1] == 0
    requires TagsEnd(m, begin, arguments, arguments) == Accepted(end)
    ensures r == Collect(m, begin, end, arguments)
  {
    hide Skip, Str4End, CString, ArgumentAt;
    var typeTag, argument, args := begin, arguments, [];
    PrependNothing(Collect(m, begin, end, arguments));
    while typeTag != end
      invariant begin <= typeTag <= end && arguments <= argument && OnGrid(m, argument)
      invariant typeTag < end ==> TagsEnd(m, typeTag, arguments, argument) == Accepted(end)
      invariant Collect(m, begin, end, arguments) == Prepend(args, Collect(m, typeTag, end, argument))
      decreases end - typeTag
    {
      Checked(m, typeTag, arguments, argument, end);
      var arg := ReadArgument(m, m[typeTag], argument);
      if arg == None {
        return Ended(Unsupported);
      }
      ghost var before := args;
      args := args + [arg.value];
      argument := Advance(m, m[typeTag], argument);
      typeTag := typeTag + 1;
      PrependAssociates(before, [arg.value], Collect(m, typeTag, end, argument));
    }
    assert args + [] == args;
    r := Accepted(args);
  }

  lemma PrependNothing(rest: Outcome<seq<Arg>>)
    ensures Prepend([], rest) == rest
  {
    if rest.Accepted? {
      assert [] + rest.value == rest.value;
    }
  }

  lemma PrependAssociates(front: seq<Arg>, mid: seq<Arg>, rest: Outcome<seq<Arg>>)
    ensures Prepend(front + mid, rest) == Prepend(front, Prepend(mid, rest))
  {
    if rest.Accepted? {
      assert front + mid + rest.value == front + (mid + rest.value);
    }
  }
}
