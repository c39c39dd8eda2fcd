/**
 What the reader makes of a packet, place by place: which message is built from which bytes, which one is not, and
 what the elements of a bundle come to.
 */
module ReadPackets {
  import opened Bytes
  import opened OscValues
  import opened OscWire
  import opened ReceivedMessages
  import opened ReceivedBundles
  import opened AcceptedMessages
  import opened WireFormat

  lemma LastDigit(n: nat, b: byte)
    ensures (n * 0x100 + b) / 0x100 == n && (n * 0x100 + b) % 0x100 == b
  {
  }

  lemma {:induction false} Redigits(b: bytes)
    requires |b| == 4
    ensures BigEndian32(FromBigEndian32(b)) == b
  {
    var u: nat, n2: nat := FromBigEndian32(b), b[0] as int * 0x100 + b[1];
    var n3: nat := n2 * 0x100 + b[2];
    assert u == n3 * 0x100 + b[3];
    LastDigit(n3, b[3]);
    LastDigit(n2, b[2]);
    LastDigit(b[0], b[1]);
    assert u / 0x1_0000 == u / 0x100 / 0x100 && u / 0x100_0000 == u / 0x100 / 0x100 / 0x100;
    assert b == [b[0], b[1], b[2], b[3]];
  }

  lemma {:induction false} NumberRead(m: bytes, p: nat, u: uint32)
    requires p + 4 <= |m|
    ensures FromBigEndian32(m[p..p + 4]) == u <==> IsNumber(m, p, u)
  {
    hide BigEndian32, FromBigEndian32, Pow256;
    var b := m[p..p + 4];
    Redigits(b);
    if FromBigEndian32(b) == u {
      NumberAt(m, p, u);
    }
    if IsNumber(m, p, u) {
      forall k | 0 <= k < 4 ensures b[k] == BigEndian32(u)[k] {
        BigEndian32At(u, k);
        assert b[k] == m[p + k];
      }
      assert b == BigEndian32(u);
      BigEndian32RoundTrip(u);
    }
  }

  // ----- from the bytes to a message

  /** The bytes from p on are the string, which the next NUL ends. */
  predicate IsString(m: bytes, p: nat, s: bytes) {
    p + |s| < |m| && m[p..p + |s|] == s && NulFree(s) && m[p + |s|] == 0
  }

  /** The argument of this value stands at p, behind a tag of its type. */
  predicate Holds(m: bytes, tag: byte, p: nat, a: Arg) {
    match a
    case Int32(i) => tag == 105 && IsNumber(m, p, i as int % 0x1_0000_0000)
    case Float(bits) => tag == 102 && IsNumber(m, p, bits)
    case Str(s) => tag == 115 && IsString(m, p, s)
  }

  lemma {:induction false} StringRead(m: bytes, p: nat, s: bytes)
    requires p <= |m| && Aligned(|m| - p) && Str4End(m, p).Some?
    ensures CString(m[p..]) == s <==> IsString(m, p, s)
  {
    hide CString;
    Str4EndIsNul(m, p);
    var c := CString(m[p..]);
    assert |c| < |m[p..]| by { HasNul(m, p); }
    assert m[p..][|c|] == m[p + |c|];
    assert m[p..][..|c|] == m[p..p + |c|];
    if IsString(m, p, s) {
      assert m[p..][..|s|] == m[p..p + |s|];
      CStringUnique(m[p..], s);
    }
  }

  lemma {:induction false} HasNul(m: bytes, p: nat)
    requires p <= |m| && Aligned(|m| - p) && Str4End(m, p).Some?
    ensures !NulFree(m[p..])
  {
    Str4EndIsNul(m, p);
    assert m[p..][0] == m[p];
    var q := if m[p] == 0 then p else Str4End(m, p).value - 1;
    assert m[p..][q - p] == 0;
  }

  lemma ArgumentRead(m: bytes, tag: byte, a: nat, x: Arg)
    requires OnGrid(m, a) && Skip(m, tag, a).Accepted?
    ensures ArgumentAt(m, tag, a) == Some(x) <==> Holds(m, tag, a, x)
    ensures ArgumentAt(m, tag, a) == None <==> tag !in {105, 102, 115}
  {
    hide CString, FromBigEndian32, IsNumber, Str4End, IsString;
    if tag == 105 || tag == 102 {
      match x
      case Int32(i) => NumberRead(m, a, ToUnsigned(i));
      case Float(bits) => NumberRead(m, a, bits);
      case Str(_) =>
    } else if tag == 115 && x.Str? {
      StringRead(m, a, x.s);
    }
  }

  /** The arguments lie one behind the other from a on, each of its type and value. */
  ghost predicate Reads(m: bytes, t: nat, end: nat, a: nat, args: seq<Arg>) {
    exists to: nat, ps: seq<nat> :: ReadsAt(m, t, end, a, to, ps, args)
  }

  predicate ReadsAt(m: bytes, t: nat, end: nat, a: nat, to: nat, ps: seq<nat>, args: seq<Arg>) {
    && SpansAt(m, t, end, a, to, ps) && |args| == end - t
    && forall i :: t <= i < end ==> Holds(m, m[i], ps[i - t], args[i - t])
  }

  lemma ReadsCons(m: bytes, t: nat, end: nat, a: nat, next: nat, x: Arg, rest: seq<Arg>)
    requires t < end <= |m| && Span(m, m[t], a, next) && Holds(m, m[t], a, x) && Reads(m, t + 1, end, next, rest)
    ensures Reads(m, t, end, a, [x] + rest)
  {
    hide Span, Holds;
    var to: nat, ps: seq<nat> :| ReadsAt(m, t + 1, end, next, to, ps, rest);
    var all, args := [a] + ps, [x] + rest;
    forall i | t <= i < end
      ensures Span(m, m[i], all[i - t], all[i - t + 1]) && Holds(m, m[i], all[i - t], args[i - t])
    {
      if i != t {
        assert all[i - t] == ps[i - (t + 1)] && all[i - t + 1] == ps[i - (t + 1) + 1];
        assert args[i - t] == rest[i - (t + 1)];
      }
    }
    assert ReadsAt(m, t, end, a, to, all, args);
  }

  lemma ReadsTail(m: bytes, t: nat, end: nat, a: nat, args: seq<Arg>) returns (next: nat)
    requires t < end <= |m| && Reads(m, t, end, a, args)
    ensures args != [] && Span(m, m[t], a, next) && Holds(m, m[t], a, args[0]) && Reads(m, t + 1, end, next, args[1..])
  {
    hide Span, Holds;
    var to: nat, ps: seq<nat> :| ReadsAt(m, t, end, a, to, ps, args);
    next := ps[1];
    var rest := ps[1..];
    forall i | t + 1 <= i < end
      ensures Span(m, m[i], rest[i - (t + 1)], rest[i - (t + 1) + 1])
      ensures Holds(m, m[i], rest[i - (t + 1)], args[1..][i - (t + 1)])
    {
      assert rest[i - (t + 1)] == ps[i - t] && rest[i - (t + 1) + 1] == ps[i - t + 1];
      assert args[1..][i - (t + 1)] == args[i - t];
    }
    assert Span(m, m[t], ps[t - t], ps[t - t + 1]) && Holds(m, m[t], ps[t - t], args[t - t]);
    assert ReadsAt(m, t + 1, end, next, to, rest, args[1..]);
  }

  lemma NoReads(m: bytes, t: nat, a: nat, args: seq<Arg>)
    requires t <= |m|
    ensures Reads(m, t, t, a, args) <==> args == []
  {
    assert SpansAt(m, t, t, a, a, [a]);
    assert args == [] ==> ReadsAt(m, t, t, a, a, [a], args);
  }

  lemma {:induction false} CollectExactly(m: bytes, t: nat, end: nat, a: nat, args: seq<Arg>)
    requires t <= end <= |m| && OnGrid(m, a)
    ensures Collect(m, t, end, a) == Accepted(args) <==> Reads(m, t, end, a, args)
    decreases end - t
  {
    hide Skip, Span, Reads, ArgumentAt, Holds;
    if t == end {
      NoReads(m, t, a, args);
    } else if Reads(m, t, end, a, args) {
      var behind := ReadsTail(m, t, end, a, args);
      SkipExactly(m, m[t], a, behind);
      ArgumentRead(m, m[t], a, args[0]);
      CollectExactly(m, t + 1, end, behind, args[1..]);
      assert args == [args[0]] + args[1..];
    } else if Collect(m, t, end, a) == Accepted(args) {
      var next := Skip(m, m[t], a).value;
      SkipExactly(m, m[t], a, next);
      var x := ArgumentAt(m, m[t], a).value;
      ArgumentRead(m, m[t], a, x);
      var rest := Collect(m, t + 1, end, next).value;
      CollectExactly(m, t + 1, end, next, rest);
      ReadsCons(m, t, end, a, next, x, rest);
    }
  }

  /** Some tag is none of those of the three types that the platform handles. */
  predicate OtherTag(m: bytes, t: nat, end: nat) {
    end <= |m| && exists i :: t <= i < end && m[i] !in {105, 102, 115}
  }

  lemma {:induction false} CollectEnds(m: bytes, t: nat, end: nat, a: nat)
    requires t <= end <= |m| && OnGrid(m, a) && exists to :: Spans(m, t, end, a, to)
    ensures if OtherTag(m, t, end) then Collect(m, t, end, a) == Ended(Unsupported) else Collect(m, t, end, a).Accepted?
    decreases end - t
  {
    hide Skip, Span, Spans, ArgumentAt, Holds;
    if t < end {
      var to :| Spans(m, t, end, a, to);
      var next := SpansTail(m, t, end, a, to);
      SkipExactly(m, m[t], a, next);
      ArgumentRead(m, m[t], a, Str([]));
      CollectEnds(m, t + 1, end, next);
    }
  }

  lemma ReadsSpans(m: bytes, t: nat, end: nat, a: nat, args: seq<Arg>)
    requires Reads(m, t, end, a, args)
    ensures exists to :: Spans(m, t, end, a, to)
  {
    var to: nat, ps: seq<nat> :| ReadsAt(m, t, end, a, to, ps, args);
    assert Spans(m, t, end, a, to);
  }

  /** The parts of a message with the arguments that are read from it. */
  ghost predicate BuiltFrom(m: bytes, begin: nat, end: nat, arguments: nat, args: seq<Arg>) {
    HeadParts(m, begin, arguments) && TagsUpTo(m, begin, end, arguments) && Reads(m, begin, end, arguments, args)
  }

  /**
   Exactly which message is built from which bytes: the address is the C string at their start, and the arguments, if
   there are any, are those that the tags announce, of the three types, with the values that stand at their places.
   */
  lemma {:induction false} BuiltExactly(m: bytes, message: Message)
    ensures ParseMessage(m) == Accepted(message) <==>
            && message.address == CString(m)
            && ((WithoutArguments(m) && message.args == [])
                || exists begin: nat, end: nat, arguments: nat :: BuiltFrom(m, begin, end, arguments, message.args))
  {
    hide Opened, Collect, Reads, Spans, HeadParts, TagsUpTo, WithoutArguments, CString;
    var args := message.args;
    OpenedTags(m);
    OpenedExactly(m, 0, 0, 0);
    if begin: nat, end: nat, arguments: nat :| BuiltFrom(m, begin, end, arguments, args) {
      ReadsSpans(m, begin, end, arguments, args);
      OpenedExactly(m, begin, end, arguments);
      CollectExactly(m, begin, end, arguments, args);
    }
    if Opened(m).Accepted? && Opened(m).value.Arguments? {
      var Arguments(begin, end, arguments) := Opened(m).value;
      OpenedExactly(m, begin, end, arguments);
      CollectExactly(m, begin, end, arguments, args);
      assert Collect(m, begin, end, arguments) == Accepted(args) <==> BuiltFrom(m, begin, end, arguments, args);
    }
  }

  /** The listener's assertion fails exactly at a message that is accepted and has an argument of another type. */
  lemma {:induction false} UnsupportedExactly(m: bytes)
    ensures ParseMessage(m) == Ended(Unsupported) <==>
            exists begin: nat, end: nat, arguments: nat ::
              WithArguments(m, begin, end, arguments) && OtherTag(m, begin, end)
  {
    hide Opened, Collect, Spans, HeadParts, TagsUpTo, WithoutArguments, CString, OtherTag;
    OpenedTags(m);
    OpenedNotUnsupported(m);
    if begin: nat, end: nat, arguments: nat :| WithArguments(m, begin, end, arguments) && OtherTag(m, begin, end) {
      OpenedExactly(m, begin, end, arguments);
      CollectEnds(m, begin, end, arguments);
    }
    if Opened(m).Accepted? && Opened(m).value.Arguments? {
      var Arguments(begin, end, arguments) := Opened(m).value;
      OpenedExactly(m, begin, end, arguments);
      CollectEnds(m, begin, end, arguments);
    }
  }

  lemma OpenedNotUnsupported(m: bytes)
    ensures Opened(m) != Ended(Unsupported)
  {
  }

  // ----- the elements of a bundle

  /** The elements of a bundle lie between these places, each behind its size; only the last place is the end. */
  predicate Frames(e: bytes, p: nat, ps: seq<nat>) {
    && ps != [] && ps[0] == p && ps[|ps| - 1] == |e|
    && forall k :: 0 <= k < |ps| - 1 ==> IsFrame(e, ps[k], ps[k + 1])
  }

  predicate IsFrame(e: bytes, from: nat, to: nat) {
    && from + 4 <= to <= |e| && to - from - 4 < 0xFFFF_FFFC && Aligned(to - from - 4)
    && IsNumber(e, from, to - from - 4)
  }

  lemma FrameRead(e: bytes, p: nat, next: nat)
    requires p + 4 <= |e|
    ensures IsFrame(e, p, next) <==>
            var size := FromBigEndian32(e[p..p + 4]);
            Aligned(size) && e[p..p + 4] != STUCK_SIZE && next == p + 4 + size && next <= |e|
  {
    hide IsNumber, Aligned, FromBigEndian32, BigEndian32;
    var b := e[p..p + 4];
    if p + 4 <= next && next - p - 4 < 0x1_0000_0000 {
      NumberRead(e, p, next - p - 4);
    }
    if Aligned(FromBigEndian32(b)) {
      Largest(b);
    }
  }

  lemma Largest(b: bytes)
    requires |b| == 4 && Aligned(FromBigEndian32(b))
    ensures b != STUCK_SIZE <==> FromBigEndian32(b) < 0xFFFF_FFFC
  {
    hide Aligned;
    AlignedMod(FromBigEndian32(b));
    assert b == [b[0], b[1], b[2], b[3]];
  }

  /** The element sizes fit exactly if the bundle can be divided in this way, and then in only one. */
  lemma {:induction false} FramedExactly(e: bytes, p: nat)
    requires p <= |e|
    ensures Framed(e, p) <==> exists ps :: Frames(e, p, ps)
    decreases |e| - p
  {
    hide IsFrame, Aligned, FromBigEndian32;
    if p == |e| {
      assert Frames(e, p, [p]);
    } else if p + 4 <= |e| {
      var next := p + 4 + FromBigEndian32(e[p..p + 4]);
      FrameRead(e, p, next);
      if next <= |e| {
        FramedExactly(e, next);
      }
      if Framed(e, p) {
        var ps :| Frames(e, next, ps);
        FramesCons(e, p, next, ps);
      }
      if ps :| Frames(e, p, ps) {
        FramesTail(e, p, ps);
        FrameRead(e, p, ps[1]);
      }
    } else {
      if ps :| Frames(e, p, ps) {
        FramesTail(e, p, ps);
      }
    }
  }

  lemma FramesCons(e: bytes, p: nat, next: nat, ps: seq<nat>)
    requires IsFrame(e, p, next) && Frames(e, next, ps)
    ensures Frames(e, p, [p] + ps)
  {
    hide IsFrame;
    var all := [p] + ps;
    forall k | 0 <= k < |all| - 1 ensures IsFrame(e, all[k], all[k + 1]) {
      if k > 0 {
        assert all[k] == ps[k - 1] && all[k + 1] == ps[k - 1 + 1];
      }
    }
  }

  lemma FramesTail(e: bytes, p: nat, ps: seq<nat>)
    requires Frames(e, p, ps) && p != |e|
    ensures |ps| > 1 && IsFrame(e, p, ps[1]) && p + 4 <= ps[1] <= |e| && Frames(e, ps[1], ps[1..])
  {
    assert IsFrame(e, ps[0], ps[0 + 1]);
    forall k | 0 <= k < |ps[1..]| - 1 ensures IsFrame(e, ps[1..][k], ps[1..][k + 1]) {
      assert ps[1..][k] == ps[k + 1] && ps[1..][k + 1] == ps[k + 1 + 1];
    }
  }

  /** Element k, without its size. */
  function ElementOf(e: bytes, ps: seq<nat>, k: nat): bytes
    requires k + 1 < |ps| && IsFrame(e, ps[k], ps[k + 1])
  {
    e[ps[k] + 4..ps[k + 1]]
  }

  /** The messages of the first n elements, in order. */
  function MessagesOf(e: bytes, p: nat, ps: seq<nat>, n: nat): seq<Message>
    requires Frames(e, p, ps) && n < |ps|
  {
    if n == 0 then [] else
    assert IsFrame(e, ps[n - 1], ps[n - 1 + 1]);
    MessagesOf(e, p, ps, n - 1) + Deliver(ElementOf(e, ps, n - 1)).messages
  }

  /** All elements up to number n are processed to their ends, and it is not, or there is none. */
  predicate StopsAt(e: bytes, p: nat, ps: seq<nat>, n: nat)
    requires Frames(e, p, ps) && n < |ps|
  {
    && (forall k :: 0 <= k < n && IsFrame(e, ps[k], ps[k + 1]) ==> Deliver(ElementOf(e, ps, k)).ending == Completed)
    && (n < |ps| - 1 && IsFrame(e, ps[n], ps[n + 1]) ==> Deliver(ElementOf(e, ps, n)).ending != Completed)
  }

  lemma {:induction false} MessagesTail(e: bytes, p: nat, ps: seq<nat>, n: nat)
    requires Frames(e, p, ps) && p != |e| && 0 < n < |ps|
    ensures |ps| > 1 && Frames(e, ps[1], ps[1..]) && IsFrame(e, ps[0], ps[1])
    ensures MessagesOf(e, p, ps, n) == Deliver(ElementOf(e, ps, 0)).messages + MessagesOf(e, ps[1], ps[1..], n - 1)
    decreases n
  {
    hide IsFrame, Deliver;
    FramesTail(e, p, ps);
    if n > 1 {
      MessagesTail(e, p, ps, n - 1);
      assert IsFrame(e, ps[n - 1], ps[n - 1 + 1]);
      assert ElementOf(e, ps[1..], n - 2) == ElementOf(e, ps, n - 1);
    }
  }

  lemma {:induction false} ElementsFrom(e: bytes, p: nat, ps: seq<nat>, n: nat)
    requires 16 <= p <= |e| && Frames(e, p, ps) && n < |ps| && StopsAt(e, p, ps, n) && Framed(e, p)
    ensures var d := DeliverElements(e, p);
            if n == |ps| - 1 then d == Delivery(MessagesOf(e, p, ps, n), Completed)
            else && IsFrame(e, ps[n], ps[n + 1])
                 && d.ending == Deliver(ElementOf(e, ps, n)).ending
                 && d.messages == MessagesOf(e, p, ps, n + 1)
    decreases n
  {
    hide IsFrame, Deliver, FromBigEndian32, Aligned;
    if p == |e| {
      FramesEnd(e, ps);
    } else {
      FramesTail(e, p, ps);
      FrameRead(e, p, ps[1]);
      var first := Deliver(ElementOf(e, ps, 0));
      if n == 0 {
        assert MessagesOf(e, p, ps, 1) == MessagesOf(e, p, ps, 0) + first.messages == first.messages;
      } else {
        assert ElementOf(e, ps, 0) == e[p + 4..ps[1]] && first.ending == Completed;
        StopsTail(e, p, ps, n);
        ElementsFrom(e, ps[1], ps[1..], n - 1);
        MessagesTail(e, p, ps, n);
        if n < |ps| - 1 {
          MessagesTail(e, p, ps, n + 1);
          assert IsFrame(e, ps[n], ps[n + 1]) && ElementOf(e, ps[1..], n - 1) == ElementOf(e, ps, n);
        }
      }
    }
  }

  lemma FrameFits(e: bytes, from: nat, to: nat)
    requires IsFrame(e, from, to)
    ensures from < |e|
  {
  }

  lemma FramesEnd(e: bytes, ps: seq<nat>)
    requires Frames(e, |e|, ps)
    ensures |ps| == 1
  {
    hide IsFrame;
    if |ps| > 1 {
      FrameFits(e, ps[0], ps[0 + 1]);
    }
  }

  lemma StopsTail(e: bytes, p: nat, ps: seq<nat>, n: nat)
    requires Frames(e, p, ps) && p != |e| && 0 < n < |ps| && StopsAt(e, p, ps, n)
    ensures |ps| > 1 && Frames(e, ps[1], ps[1..]) && StopsAt(e, ps[1], ps[1..], n - 1)
  {
    hide IsFrame, Deliver;
    FramesTail(e, p, ps);
    var rest := ps[1..];
    forall k | 0 <= k < |rest| - 1 && IsFrame(e, rest[k], rest[k + 1])
      ensures IsFrame(e, ps[k + 1], ps[k + 1 + 1]) && ElementOf(e, rest, k) == ElementOf(e, ps, k + 1)
    {
    }
  }

  /**
   A bundle is accepted exactly if its elements can be laid out behind their sizes from byte 16 to the end. They are
   then processed in order, up to the first one that does not come to a regular end, and with it: its ending is that
   of the bundle, and its messages are the last ones.
   */
  lemma {:induction false} BundleDelivered(e: bytes, ps: seq<nat>, n: nat)
    requires IsBundle(e)
    ensures CheckBundle(e) == Completed <==>
            |e| >= 16 && Aligned(|e|) && e[..8] == BUNDLE_MARK && exists places :: Frames(e, 16, places)
    ensures CheckBundle(e) != Completed ==> Deliver(e) == Delivery([], CheckBundle(e))
    ensures CheckBundle(e) == Completed && Frames(e, 16, ps) && n < |ps| && StopsAt(e, 16, ps, n) ==>
              var d := Deliver(e);
              if n == |ps| - 1 then d == Delivery(MessagesOf(e, 16, ps, n), Completed)
              else && IsFrame(e, ps[n], ps[n + 1])
                   && d.ending == Deliver(ElementOf(e, ps, n)).ending
                   && d.messages == MessagesOf(e, 16, ps, n + 1)
  {
    hide CheckBundle, Frames, Framed, StopsAt, IsFrame, MessagesOf;
    BundleChecked(e);
    if |e| >= 16 {
      FramedExactly(e, 16);
      if BundleOk(e) && Frames(e, 16, ps) && n < |ps| && StopsAt(e, 16, ps, n) {
        ElementsFrom(e, 16, ps, n);
      }
    }
  }
}
