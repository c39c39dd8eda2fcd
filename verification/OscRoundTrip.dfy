/** Reading back what the sender wrote: which bundles arrive unchanged, and what happens to all others. */
module OscRoundTrip {
  import opened Bytes
  import opened OscValues
  import opened OscWire
  import opened ReceivedBundles
  import opened ReceivedMessages

  /** Strings are handed over with c_str(), so an argument and an address arrive up to their first NUL. */
  function WireArg(a: Arg): Arg {
    if a.Str? then Str(CString(a.s)) else a
  }

  function WireArgs(args: seq<Arg>): (r: seq<Arg>)
    ensures |r| == |args| && forall i :: 0 <= i < |args| ==> r[i] == WireArg(args[i])
  {
    seq(|args|, i requires 0 <= i < |args| => WireArg(args[i]))
  }

  function WireMessage(m: Message): Message {
    Message(CString(m.address), WireArgs(m.args))
  }

  function WireMessages(ms: seq<Message>): (r: seq<Message>)
    ensures |r| == |ms| && forall i :: 0 <= i < |ms| ==> r[i] == WireMessage(ms[i])
  {
    seq(|ms|, i requires 0 <= i < |ms| => WireMessage(ms[i]))
  }

  /** All messages of a bundle in the order in which they arrive: depth first, sub-bundles before messages. */
  function Flatten(b: Bundle): seq<Message>
    decreases b, 1
  {
    FlattenAll(b, |b.bundles|) + b.messages
  }

  function FlattenAll(b: Bundle, n: nat): seq<Message>
    requires n <= |b.bundles|
    decreases b, 0, n
  {
    if n == 0 then [] else FlattenAll(b, n - 1) + Flatten(b.bundles[n - 1])
  }

  // ----- strings and arguments

  lemma {:induction false} Str4EndOf(m: bytes, p: nat, s: bytes)
    requires NulFree(s) && p + |Str4(s)| <= |m| && Aligned(|m| - p)
    requires m[p..p + |Str4(s)|] == Str4(s)
    ensures Str4End(m, p) == Some(p + |Str4(s)|)
    ensures CString(m[p..]) == s
  {
    hide RoundUp4, Aligned, CString, WordEnd;
    var here := Str4(s);
    assert forall i :: p <= i < p + |here| ==> m[i] == m[p..p + |here|][i - p];
    CStringUnique(m[p..], s);
    WordEndOf(m, p, |s|);
    if s == [] {
      assert RoundUp4(1) == 4 by { OneWord(); }
    }
  }

  lemma OneWord()
    ensures RoundUp4(1) == 4
  {
  }

  lemma {:induction false} WordEndOf(m: bytes, p: nat, n: nat)
    requires p + RoundUp4(n + 1) <= |m| && Aligned(|m| - p)
    requires forall i :: p <= i < p + n ==> m[i] != 0
    requires forall i :: p + n <= i < p + RoundUp4(n + 1) ==> m[i] == 0
    ensures WordEnd(m, p) == Some(p + RoundUp4(n + 1))
    decreases n
  {
    if n > 3 {
      WordEndOf(m, p + 4, n - 4);
    }
  }

  /** Where argument k of a message starts whose arguments take up the bytes from a on. */
  function ArgOffset(a: nat, args: seq<Arg>, k: nat): nat
    requires k <= |args|
  {
    a + |ArgsBytes(args[..k])|
  }

  ghost predicate Laid(m: bytes, a: nat, args: seq<Arg>) {
    a <= |m| && Aligned(|m| - a) && m[a..] == ArgsBytes(args)
  }

  lemma {:induction false} ArgLaid(m: bytes, a: nat, args: seq<Arg>, k: nat)
    requires Laid(m, a, args) && k < |args|
    ensures var from, to := ArgOffset(a, args, k), ArgOffset(a, args, k + 1);
            && a <= from && to == from + |ArgBytes(args[k])| && to <= |m| && m[from..to] == ArgBytes(args[k])
            && Aligned(|m| - from)
  {
    hide ArgsBytes, ArgBytes;
    ArgsPrefix(args, k + 1);
    ArgsNext(args, k);
    Placed(m, a, ArgsBytes(args[..k]), ArgBytes(args[k]));
    AlignedRest(m, a, args, k);
  }

  /** Where a part lies that follows a front. */
  lemma Placed(m: bytes, a: nat, front: bytes, part: bytes)
    requires a <= |m| && front + part <= m[a..]
    ensures a + |front| + |part| <= |m| && m[a + |front|..a + |front| + |part|] == part
  {
    assert m[a + |front|..a + |front| + |part|] == m[a..][|front|..|front| + |part|];
  }

  lemma {:induction false} AlignedRest(m: bytes, a: nat, args: seq<Arg>, k: nat)
    requires Laid(m, a, args) && k <= |args|
    ensures ArgOffset(a, args, k) <= |m| && Aligned(|m| - ArgOffset(a, args, k))
  {
    hide ArgsBytes;
    ArgsPrefix(args, k);
    assert |m[a..]| == |m| - a;
    ArgsAligned(args[..k]);
    AlignedSub(|m| - a, |ArgsBytes(args[..k])|);
  }

  lemma {:induction false} NumberRead(m: bytes, tag: byte, from: nat, u: uint32)
    requires tag in {TAG_INT32, TAG_FLOAT} && from + 4 <= |m| && Aligned(|m| - from)
    requires m[from..from + 4] == BigEndian32(u)
    ensures Skip(m, tag, from) == Accepted(from + 4)
    ensures ArgumentAt(m, tag, from) == Some(if tag == TAG_INT32 then Int32(ToSigned(u)) else Float(u))
  {
    hide BigEndian32, FromBigEndian32, Str4End;
    BigEndian32RoundTrip(u);
  }

  lemma {:induction false} StringRead(m: bytes, from: nat, s: bytes)
    requires NulFree(s) && from + |Str4(s)| <= |m| && Aligned(|m| - from)
    requires m[from..from + |Str4(s)|] == Str4(s)
    ensures Skip(m, TAG_STRING, from) == Accepted(from + |Str4(s)|)
    ensures ArgumentAt(m, TAG_STRING, from) == Some(Str(s))
  {
    hide Str4End, Str4, CString;
    Str4EndOf(m, from, s);
  }

  /** The reader skips and reads every argument as the writer wrote it. */
  lemma {:induction false} ArgRead(m: bytes, a: nat, args: seq<Arg>, k: nat)
    requires Laid(m, a, args) && k < |args|
    ensures var from, to := ArgOffset(a, args, k), ArgOffset(a, args, k + 1);
            && from <= |m| && Aligned(|m| - from)
            && Skip(m, Tag(args[k]), from) == Accepted(to)
            && ArgumentAt(m, Tag(args[k]), from) == Some(WireArg(args[k]))
  {
    hide ArgsBytes, Skip, ArgumentAt, Str4, BigEndian32, CString, Laid;
    ArgLaid(m, a, args, k);
    var from := ArgOffset(a, args, k);
    match args[k]
    case Int32(i) => NumberRead(m, TAG_INT32, from, ToUnsigned(i));
    case Float(bits) => NumberRead(m, TAG_FLOAT, from, bits);
    case Str(s) => StringRead(m, from, CString(s));
  }

  // ----- messages

  /** The tags of the arguments, from t on, with the NUL that ends them. */
  ghost predicate TagsLaid(m: bytes, t: nat, args: seq<Arg>) {
    && t + |args| < |m|
    && (forall j :: 0 <= j < |args| ==> m[t + j] == Tag(args[j]))
    && m[t + |args|] == 0
  }

  lemma {:induction false} TagsEndOf(m: bytes, t: nat, a: nat, args: seq<Arg>, k: nat)
    requires Laid(m, a, args) && TagsLaid(m, t, args) && k < |args| && t + |args| < a && m[a - 1] == 0
    ensures ArgOffset(a, args, k) <= |m| && Aligned(|m| - ArgOffset(a, args, k))
    ensures TagsEnd(m, t + k, a, ArgOffset(a, args, k)) == Accepted(t + |args|)
    decreases |args| - k
  {
    hide Skip, ArgsBytes, Laid, Aligned;
    ArgRead(m, a, args, k);
    if k + 1 < |args| {
      TagsEndOf(m, t, a, args, k + 1);
      assert m[t + (k + 1)] == Tag(args[k + 1]) != 0;
    }
  }

  lemma {:induction false} CollectOf(m: bytes, t: nat, a: nat, args: seq<Arg>, k: nat)
    requires Laid(m, a, args) && TagsLaid(m, t, args) && k <= |args| && t + |args| < a
    ensures ArgOffset(a, args, k) <= |m| && Aligned(|m| - ArgOffset(a, args, k))
    ensures Collect(m, t + k, t + |args|, ArgOffset(a, args, k)) == Accepted(WireArgs(args[k..]))
    decreases |args| - k
  {
    hide Skip, ArgsBytes, Laid, Aligned, ArgumentAt, WireArg;
    AlignedRest(m, a, args, k);
    if k < |args| {
      ArgRead(m, a, args, k);
      CollectOf(m, t, a, args, k + 1);
      assert WireArgs(args[k..]) == [WireArg(args[k])] + WireArgs(args[k + 1..]);
    }
  }

  /** The parts of an encoded message, as the reader finds them. */
  lemma MessageParts(m: Message)
    ensures var e, address, tags := EncodeMessage(m), Str4(CString(m.address)), Str4([COMMA] + Tags(m.args));
            && |address| + |tags| <= |e|
            && e[..|address|] == address && e[|address|..|address| + |tags|] == tags
            && e[|address| + |tags|..] == ArgsBytes(m.args)
            && Aligned(|e|) && Aligned(|address|) && Aligned(|tags|)
            && Aligned(|e| - |address|) && Aligned(|e| - (|address| + |tags|))
  {
    hide ArgsBytes, CString, Tags, Aligned;
    MessageAligned(m);
    RoundUp4Aligned(|CString(m.address)| + 1);
    RoundUp4Aligned(|m.args| + 2);
    AlignedSub(|EncodeMessage(m)|, |Str4(CString(m.address))|);
    ArgsAligned(m.args);
  }

  /** The type tag string as the reader sees it: a comma, the tags, at least one NUL. */
  lemma TypeTagsPlaced(m: bytes, t: nat, args: seq<Arg>)
    requires var s := Str4([COMMA] + Tags(args)); t + |s| <= |m| && m[t..t + |s|] == s
    ensures m[t] == COMMA && TagsLaid(m, t + 1, args)
    ensures m[t + |Str4([COMMA] + Tags(args))| - 1] == 0
    ensures m[t + 1] == 0 <==> args == []
    ensures NulFree([COMMA] + Tags(args))
  {
    hide RoundUp4;
    var s := Str4([COMMA] + Tags(args));
    assert forall i :: t <= i < t + |s| ==> m[i] == m[t..t + |s|][i - t];
    assert s[0] == COMMA && forall j :: 0 <= j < |args| ==> s[1 + j] == Tag(args[j]);
    assert s[|s| - 1] == 0 && s[1 + |args|] == 0;
    assert forall i :: t + 1 <= i < t + 1 + |args| ==> m[i] == Tag(args[i - (t + 1)]);
  }

  lemma OpenedOf(m: Message)
    ensures var e, t := EncodeMessage(m), |Str4(CString(m.address))|;
            && CString(e) == CString(m.address)
            && Opened(e) == Accepted(if m.args == [] then NoArguments
                                 else Arguments(t + 1, t + 1 + |m.args|, t + |Str4([COMMA] + Tags(m.args))|))
  {
    hide ArgsBytes, CString, Str4End, EncodeMessage, RoundUp4, TagsEnd, Str4, Tags;
    var e, address, typeTags := EncodeMessage(m), Str4(CString(m.address)), Str4([COMMA] + Tags(m.args));
    var t, a := |address|, |address| + |typeTags|;
    MessageParts(m);
    assert e[0..] == e;
    Str4EndOf(e, 0, CString(m.address));
    TypeTagsPlaced(e, t, m.args);
    if m.args != [] {
      Str4EndOf(e, t, [COMMA] + Tags(m.args));
      FirstArgument(a, m.args);
      TagsEndOf(e, t + 1, a, m.args, 0);
    }
  }

  lemma FirstArgument(a: nat, args: seq<Arg>)
    ensures ArgOffset(a, args, 0) == a
  {
  }

  /** Every message is read back with its strings cut at their first NUL and everything else unchanged. */
  lemma MessageRoundTrip(m: Message)
    ensures ParseMessage(EncodeMessage(m)) == Accepted(WireMessage(m))
  {
    hide ArgsBytes, CString, EncodeMessage, Opened, Collect, Str4, Tags, WireArgs;
    var e, address, typeTags := EncodeMessage(m), Str4(CString(m.address)), Str4([COMMA] + Tags(m.args));
    var t, a := |address|, |address| + |typeTags|;
    OpenedOf(m);
    MessageParts(m);
    TypeTagsPlaced(e, t, m.args);
    if m.args == [] {
      NothingToCut();
    } else {
      FirstArgument(a, m.args);
      CollectOf(e, t + 1, a, m.args, 0);
      assert m.args[0..] == m.args;
    }
  }

  lemma NothingToCut()
    ensures WireArgs([]) == []
  {
  }

  // ----- bundles

  predicate HashAddress(m: Message) {
    m.address != [] && m.address[0] == HASH
  }

  /** No message has an address that starts with '#'. */
  predicate NoHash(ms: seq<Message>) {
    forall m :: m in ms ==> !HashAddress(m)
  }

  lemma MessageIsBundle(m: Message)
    ensures IsBundle(EncodeMessage(m)) <==> HashAddress(m)
  {
    hide ArgsBytes, RoundUp4;
    var e, s := EncodeMessage(m), CString(m.address);
    assert e[0] == Str4(s)[0];
  }

  lemma {:induction false} BundleIsBundle(b: Bundle)
    ensures IsBundle(EncodeBundle(b)) && EncodeBundle(b)[..8] == BUNDLE_MARK
  {
    hide Elements, Contents;
    assert EncodeBundle(b)[..8] == BUNDLE_HEADER[..8];
  }

  /** The messages that elements k, k + 1, ... of the bundle's contents stand for. */
  ghost function ReceivedFrom(b: Bundle, k: nat): seq<Message>
    requires k <= |b.bundles| + |b.messages|
    decreases |b.bundles| + |b.messages| - k
  {
    if k == |b.bundles| + |b.messages| then []
    else if k < |b.bundles| then Flatten(b.bundles[k]) + ReceivedFrom(b, k + 1)
    else [b.messages[k - |b.bundles|]] + ReceivedFrom(b, k + 1)
  }

  lemma {:induction false} ReceivedFromMessages(b: Bundle, j: nat)
    requires j <= |b.messages|
    ensures ReceivedFrom(b, |b.bundles| + j) == b.messages[j..]
    decreases |b.messages| - j
  {
    if j < |b.messages| {
      ReceivedFromMessages(b, j + 1);
    }
  }

  lemma {:induction false} ReceivedFromBundles(b: Bundle, k: nat)
    requires k <= |b.bundles|
    ensures Flatten(b) == FlattenAll(b, k) + ReceivedFrom(b, k)
    decreases |b.bundles| - k
  {
    if k == |b.bundles| {
      ReceivedFromMessages(b, 0);
      assert b.messages[0..] == b.messages;
    } else {
      ReceivedFromBundles(b, k + 1);
      assert FlattenAll(b, k) + Flatten(b.bundles[k]) + ReceivedFrom(b, k + 1)
          == FlattenAll(b, k) + (Flatten(b.bundles[k]) + ReceivedFrom(b, k + 1));
    }
  }

  lemma {:induction false} FlattenFromStart(b: Bundle)
    ensures Flatten(b) == ReceivedFrom(b, 0)
  {
    hide Flatten, ReceivedFrom;
    ReceivedFromBundles(b, 0);
    assert [] + ReceivedFrom(b, 0) == ReceivedFrom(b, 0);
  }

  lemma WireMessagesConcat(a: seq<Message>, b: seq<Message>)
    ensures WireMessages(a + b) == WireMessages(a) + WireMessages(b)
  {
    hide WireMessage;
  }

  /** Element k of a bundle's contents, behind the elements before it. */
  lemma ElementPlaced(e: bytes, es: seq<bytes>, k: nat)
    requires k < |es| && |e| < 0x1_0000_0000 && e == BUNDLE_HEADER + Elements(es)
    ensures var p := 16 + |Elements(es[..k])|;
            && p + 4 + |es[k]| <= |e| && p + 4 + |es[k]| == 16 + |Elements(es[..k + 1])|
            && e[p..p + 4] == BigEndian32(|es[k]|)
            && FromBigEndian32(e[p..p + 4]) == |es[k]| && e[p..p + 4] != STUCK_SIZE
            && e[p + 4..p + 4 + |es[k]|] == es[k]
  {
    hide FromBigEndian32, BigEndian32, Elements;
    var p := 16 + |Elements(es[..k])|;
    ElementsPrefix(es, k + 1);
    ElementsNext(es, k);
    assert |BUNDLE_HEADER| == 16;
    var front, size := BUNDLE_HEADER + Elements(es[..k]), BigEndian32(|es[k]|);
    assert front + size + es[k] == BUNDLE_HEADER + Elements(es[..k + 1]);
    Placed(e, 0, front, size);
    Placed(e, 0, front + size, es[k]);
    BigEndian32RoundTrip(|es[k]|);
    NotStuck(e[p..p + 4]);
  }

  /** What is delivered for one element, given what sub-bundles lead to. */
  lemma ElementDelivered(b: Bundle, k: nat)
    requires k < |b.bundles| + |b.messages| && NoHash(ReceivedFrom(b, k))
    requires k < |b.bundles| ==>
      DeliverBundle(EncodeBundle(b.bundles[k])) == Delivery(WireMessages(Flatten(b.bundles[k])), Completed)
    ensures NoHash(ReceivedFrom(b, k + 1))
    ensures Deliver(Contents(b)[k]).ending == Completed
    ensures Deliver(Contents(b)[k]).messages + WireMessages(ReceivedFrom(b, k + 1)) == WireMessages(ReceivedFrom(b, k))
  {
    hide EncodeBundle, EncodeMessage, ParseMessage, DeliverBundle, WireMessages, WireMessage, Flatten;
    hide HashAddress, IsBundle;
    var rest := ReceivedFrom(b, k + 1);
    assert forall m :: m in rest ==> m in ReceivedFrom(b, k);
    if k < |b.bundles| {
      BundleIsBundle(b.bundles[k]);
      WireMessagesConcat(Flatten(b.bundles[k]), rest);
    } else {
      var m := b.messages[k - |b.bundles|];
      assert m in ReceivedFrom(b, k);
      MessageIsBundle(m);
      MessageRoundTrip(m);
      WireMessagesConcat([m], rest);
      WireSingle(m);
    }
  }

  lemma WireSingle(m: Message)
    ensures WireMessages([m]) == [WireMessage(m)]
  {
  }

  lemma {:induction false} ElementsRoundTrip(b: Bundle, k: nat)
    requires k <= |b.bundles| + |b.messages| && NoHash(ReceivedFrom(b, k))
    requires |EncodeBundle(b)| < 0x1_0000_0000
    ensures var e, p := EncodeBundle(b), 16 + |Elements(Contents(b)[..k])|;
            && p <= |e| && Framed(e, p)
            && DeliverElements(e, p) == Delivery(WireMessages(ReceivedFrom(b, k)), Completed)
    decreases b, 0, |b.bundles| + |b.messages| - k
  {
    hide Elements, Contents, ReceivedFrom, WireMessages, NoHash, Deliver, DeliverBundle, FromBigEndian32, Aligned;
    var e, es := EncodeBundle(b), Contents(b);
    ContentsOf(b);
    if k == |es| {
      assert es[..k] == es;
      NothingLeft(b);
    } else {
      ElementPlaced(e, es, k);
      ContentsAligned(b);
      if k < |b.bundles| {
        SubBundle(b, k);
        BundleRoundTrip(b.bundles[k]);
      }
      ElementDelivered(b, k);
      ElementsRoundTrip(b, k + 1);
    }
  }

  lemma {:induction false} NothingLeft(b: Bundle)
    ensures WireMessages(ReceivedFrom(b, |b.bundles| + |b.messages|)) == []
  {
  }

  lemma {:induction false} ContentsOf(b: Bundle)
    ensures |Contents(b)| == |b.bundles| + |b.messages|
    ensures forall k :: 0 <= k < |b.bundles| ==> Contents(b)[k] == EncodeBundle(b.bundles[k])
    ensures EncodeBundle(b) == BUNDLE_HEADER + Elements(Contents(b))
    ensures |EncodeBundle(b)| == 16 + |Elements(Contents(b))|
  {
    hide EncodeMessage, Elements;
  }

  lemma {:induction false} SubBundle(b: Bundle, k: nat)
    requires k < |b.bundles| && NoHash(ReceivedFrom(b, k))
    ensures NoHash(Flatten(b.bundles[k]))
  {
    hide Flatten, HashAddress;
    assert forall m :: m in Flatten(b.bundles[k]) ==> m in ReceivedFrom(b, k);
  }

  /** A bundle of any depth arrives as its messages in order, cut at NULs, if no address starts with '#'. */
  lemma {:induction false} BundleRoundTrip(b: Bundle)
    requires NoHash(Flatten(b)) && |EncodeBundle(b)| < 0x1_0000_0000
    ensures DeliverBundle(EncodeBundle(b)) == Delivery(WireMessages(Flatten(b)), Completed)
    decreases b, 1
  {
    hide Elements, Contents, ReceivedFrom, WireMessages, NoHash, Flatten;
    hide DeliverElements, EncodeBundle, Framed, Aligned;
    FlattenFromStart(b);
    ElementsRoundTrip(b, 0);
    NoElements(Contents(b));
    BundleAligned(b);
    BundleIsBundle(b);
  }

  lemma NoElements(es: seq<bytes>)
    ensures Elements(es[..0]) == []
  {
  }

  // ----- which bundles do not arrive

  /** Whatever the bytes are, no message is handed on whose address starts with '#'. */
  lemma {:induction false} DeliveredNoHash(e: bytes)
    ensures NoHash(Deliver(e).messages)
    decreases |e|, 1, 0
  {
    hide Opened, Collect;
    if IsBundle(e) {
      if BundleOk(e) {
        ElementsNoHash(e, 16);
      }
    }
  }

  lemma {:induction false} ElementsNoHash(e: bytes, p: nat)
    requires 16 <= p <= |e| && Framed(e, p)
    ensures NoHash(DeliverElements(e, p).messages)
    decreases |e|, 0, |e| - p
  {
    hide Deliver, HashAddress;
    if p != |e| {
      var next := p + 4 + FromBigEndian32(e[p..p + 4]);
      DeliveredNoHash(e[p + 4..next]);
      ElementsNoHash(e, next);
    }
  }

  lemma WireNoHash(ms: seq<Message>)
    ensures NoHash(WireMessages(ms)) <==> NoHash(ms)
  {
    hide WireArgs, CString;
    forall m | m in ms ensures WireMessage(m) in WireMessages(ms) {
      var i :| 0 <= i < |ms| && ms[i] == m;
      assert WireMessages(ms)[i] == WireMessage(m);
    }
    forall m ensures HashAddress(WireMessage(m)) <==> HashAddress(m) {
      CutStart(m.address);
    }
  }

  lemma {:induction false} CutStart(s: bytes)
    ensures CString(s) != [] && CString(s)[0] == HASH <==> s != [] && s[0] == HASH
  {
  }

  /** A packet that fits the receive buffer is delivered completely exactly if no address starts with '#'. */
  lemma {:induction false} ArrivesCut(b: Bundle)
    requires |EncodeBundle(b)| < 0x1_0000_0000
    ensures Deliver(EncodeBundle(b)) == Delivery(WireMessages(Flatten(b)), Completed) <==> NoHash(Flatten(b))
  {
    hide EncodeBundle, Flatten, WireMessages, DeliverBundle, NoHash;
    BundleIsBundle(b);
    DeliveredNoHash(EncodeBundle(b));
    WireNoHash(Flatten(b));
    if NoHash(Flatten(b)) {
      BundleRoundTrip(b);
    }
  }

  predicate NulFreeArg(a: Arg) {
    a.Str? ==> NulFree(a.s)
  }

  predicate NulFreeMessage(m: Message) {
    NulFree(m.address) && forall a :: a in m.args ==> NulFreeArg(a)
  }

  predicate NulFreeMessages(ms: seq<Message>) {
    forall m :: m in ms ==> NulFreeMessage(m)
  }

  lemma WireMessageUnchanged(m: Message)
    ensures WireMessage(m) == m <==> NulFreeMessage(m)
  {
    CStringWhole(m.address);
    forall a: Arg ensures WireArg(a) == a <==> NulFreeArg(a) {
      if a.Str? {
        CStringWhole(a.s);
      }
    }
    if NulFreeMessage(m) {
      assert WireArgs(m.args) == m.args;
    }
  }

  lemma WireMessagesUnchanged(ms: seq<Message>)
    ensures WireMessages(ms) == ms <==> NulFreeMessages(ms)
  {
    hide WireMessage, NulFreeMessage;
    forall m: Message ensures WireMessage(m) == m <==> NulFreeMessage(m) {
      WireMessageUnchanged(m);
    }
    if NulFreeMessages(ms) {
      assert WireMessages(ms) == ms;
    } else {
      var m :| m in ms && !NulFreeMessage(m);
      var i :| 0 <= i < |ms| && ms[i] == m;
      assert WireMessages(ms)[i] == WireMessage(m);
    }
  }

  /** The size of the buffer the receiving loop reads packets into; a longer packet is cut off. */
  const RECEIVE_BUFFER_SIZE: nat := 4098

  /** What the receiving loop does with a packet; an empty one is skipped. */
  function Received(packet: bytes): Delivery {
    if packet == [] then Delivery([], Completed)
    else Deliver(if |packet| > RECEIVE_BUFFER_SIZE then packet[..RECEIVE_BUFFER_SIZE] else packet)
  }

  /** 4098 is not a multiple of four, so of a packet that has been cut off nothing at all is delivered. */
  lemma {:induction false} LongPacketLost(b: Bundle)
    requires |EncodeBundle(b)| > RECEIVE_BUFFER_SIZE
    ensures Received(EncodeBundle(b)) == Delivery([], Refused)
  {
    hide EncodeBundle, Framed;
    BundleIsBundle(b);
    var cut := EncodeBundle(b)[..RECEIVE_BUFFER_SIZE];
    assert cut[0] == EncodeBundle(b)[0];
    AlignedMod(|cut|);
    assert |cut| % 4 == 2;
    assert IsBundle(cut) && !BundleOk(cut);
    assert Deliver(cut) == DeliverBundle(cut);
  }

  /**
   The three conditions under which a bundle that can be sent arrives as its messages, in order and unchanged:
   the packet fits the receive buffer, no address starts with '#', and no string contains a NUL.
   */
  lemma {:induction false} ArrivesUnchanged(b: Bundle)
    requires |EncodeBundle(b)| < 0x1_0000_0000
    ensures Received(EncodeBundle(b)) == Delivery(Flatten(b), Completed) <==>
            && |EncodeBundle(b)| <= RECEIVE_BUFFER_SIZE
            && NoHash(Flatten(b))
            && NulFreeMessages(Flatten(b))
  {
    hide EncodeBundle, Flatten, WireMessages, DeliverBundle, NoHash, NulFreeMessages;
    var e := EncodeBundle(b);
    if |e| > RECEIVE_BUFFER_SIZE {
      LongPacketLost(b);
    } else {
      BundleIsBundle(b);
      DeliveredNoHash(e);
      WireMessagesUnchanged(Flatten(b));
      if NoHash(Flatten(b)) {
        BundleRoundTrip(b);
      }
    }
  }

  /** For instance, a one-integer message to "#bundle" is the packet form of an empty bundle: it vanishes unnoticed. */
  lemma HashMessageVanishes(i: int32)
    ensures Deliver(EncodeMessage(Message(BUNDLE_MARK[..7], [Int32(i)]))) == Delivery([], Completed)
  {
    hide BigEndian32, ParseMessage;
    var name, m := BUNDLE_MARK[..7], Message(BUNDLE_MARK[..7], [Int32(i)]);
    var e := EncodeMessage(m);
    CStringWhole(name);
    assert |name| == 7 && RoundUp4(8) == 8;
    assert Str4(name) == BUNDLE_MARK;
    assert Tags(m.args) == [TAG_INT32] && |Str4([COMMA, TAG_INT32])| == 4;
    OneArgument(m.args[0]);
    assert |e| == 16;
    EmptyBundle(e);
  }

  lemma {:induction false} EmptyBundle(e: bytes)
    requires |e| == 16 && e[..8] == BUNDLE_MARK
    ensures Deliver(e) == Delivery([], Completed)
  {
    assert e[0] == e[..8][0];
    assert Aligned(16) && Framed(e, 16);
    assert BundleOk(e) && IsBundle(e);
    assert DeliverElements(e, 16) == Delivery([], Completed);
    assert Deliver(e) == DeliverBundle(e);
  }

  lemma OneArgument(a: Arg)
    ensures ArgsBytes([a]) == ArgBytes(a)
  {
    hide ArgBytes;
    assert [a][..0] == [];
    assert ArgsBytes([]) == [];
  }

  /** For instance, a message with a string of 4096 bytes can be sent but is never received. */
  lemma LongStringLost(s: bytes)
    requires |s| == 4096 && NulFree(s)
    ensures var e := EncodeBundle(Bundle([], [Message([], [Str(s)])]));
            |e| < 16384 && Received(e) == Delivery([], Refused)
  {
    hide CString, RoundUp4, Received, Tags;
    var m := Message([], [Str(s)]);
    var b := Bundle([], [m]);
    CStringWhole(s);
    OneArgument(m.args[0]);
    assert |EncodeMessage(m)| >= 4097;
    OneMessage(m);
    LongPacketLost(b);
  }

  lemma OneMessage(m: Message)
    ensures |EncodeBundle(Bundle([], [m]))| == 20 + |EncodeMessage(m)|
  {
    hide EncodeMessage;
    var b := Bundle([], [m]);
    ContentsOf(b);
    assert b.messages[0] == m;
    assert Contents(b) == [EncodeMessage(m)];
    ElementsNext(Contents(b), 0);
    assert Contents(b)[..1] == Contents(b) && Elements(Contents(b)[..0]) == [];
  }
}
