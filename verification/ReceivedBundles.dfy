/** The reader of bundles and packets, on arbitrary bytes, down to the messages that are handed on. */
module ReceivedBundles {
  import opened Bytes
  import opened OscValues
  import opened OscWire
  import opened ReceivedMessages

  // ----- the element sizes of a bundle

  /** 4 + elementSize, in 32 bits. */
  function Advanced(size: uint32): (r: uint32)
    ensures r == (4 + size as int) % 0x1_0000_0000
  {
    if size + 4 < 0x1_0000_0000 then size + 4 else size + 4 - 0x1_0000_0000
  }

  /** The one whole number of words for which the sum wraps around, to zero. */
  const STUCK_SIZE: bytes := [0xFF, 0xFF, 0xFF, 0xFC]

  lemma StuckSize(b: bytes)
    requires |b| == 4 && Aligned(FromBigEndian32(b))
    ensures b == STUCK_SIZE <==> Advanced(FromBigEndian32(b)) == 0
    ensures b != STUCK_SIZE ==> Advanced(FromBigEndian32(b)) == FromBigEndian32(b) + 4
  {
    hide Aligned;
    AlignedMod(FromBigEndian32(b));
    assert b == [b[0], b[1], b[2], b[3]];
  }

  lemma NotStuck(b: bytes)
    requires |b| == 4 && FromBigEndian32(b) < 0xFFFF_FFFC
    ensures b != STUCK_SIZE
  {
  }

  /** Where the walk over the element sizes is, or how it has ended. */
  datatype Walk = At(position: nat) | Over(ending: Ending)

  /** The test of the loop, and its body. */
  function Round(e: bytes, p: nat): (r: Walk)
    requires p <= |e|
    ensures r.At? ==> p <= r.position <= |e| && p + 4 <= |e|
  {
    if p == |e| then Over(Completed)
    else if p + 4 > |e| then Over(Refused)
    else
      var size := FromBigEndian32(e[p..p + 4]);
      if !Aligned(size) || p + Advanced(size) > |e| then Over(Refused) else At(p + Advanced(size))
  }

  function WalkAfter(e: bytes, n: nat): (r: Walk)
    requires 16 <= |e|
    ensures r.At? ==> 16 <= r.position <= |e|
  {
    if n == 0 then At(16) else
    match WalkAfter(e, n - 1)
    case At(p) => Round(e, p)
    case Over(ending) => Over(ending)
  }

  /** What the walk from p on comes to. If a round leads back to where it started, so do all that follow. */
  function WalkEnding(e: bytes, p: nat): Ending
    requires p <= |e|
    decreases |e| - p
  {
    match Round(e, p)
    case Over(ending) => ending
    case At(next) => if next == p then Endless else WalkEnding(e, next)
  }

  /** The walk is at a size field that keeps it where it is. */
  predicate Stuck(e: bytes, w: Walk) {
    w.At? && w.position + 4 <= |e| && e[w.position..w.position + 4] == STUCK_SIZE
  }

  lemma StuckRound(e: bytes, p: nat)
    requires p <= |e|
    ensures Stuck(e, At(p)) <==> Round(e, p) == At(p)
  {
    hide FromBigEndian32, Aligned;
    if p + 4 <= |e| {
      var b := e[p..p + 4];
      if b == STUCK_SIZE {
        StuckAligned();
        StuckSize(b);
      } else if Aligned(FromBigEndian32(b)) {
        StuckSize(b);
      }
    }
  }

  lemma StuckAligned()
    ensures Aligned(FromBigEndian32(STUCK_SIZE))
  {
    hide Aligned;
    AlignedMod(0xFFFF_FFFC);
  }

  /** The walk gets to where its ending shows: it is over, or at a size field that keeps it there. */
  lemma {:induction false} WalkGets(e: bytes, n: nat) returns (k: nat)
    requires 16 <= |e| && WalkAfter(e, n).At?
    ensures n <= k
    ensures var ending := WalkEnding(e, WalkAfter(e, n).position);
            if ending == Endless then Stuck(e, WalkAfter(e, k)) else WalkAfter(e, k) == Over(ending)
    decreases |e| - WalkAfter(e, n).position
  {
    hide Round, Stuck;
    var p := WalkAfter(e, n).position;
    StuckRound(e, p);
    match WalkAfter(e, n + 1)
    case Over(_) => k := n + 1; RoundNotEndless(e, p);
    case At(next) =>
      if next == p {
        k := n;
      } else {
        k := WalkGets(e, n + 1);
      }
  }

  lemma RoundNotEndless(e: bytes, p: nat)
    requires p <= |e|
    ensures Round(e, p) != Over(Endless)
  {
  }

  /** Neither an end nor a standstill is ever left. */
  lemma {:induction false} WalkStays(e: bytes, n: nat, k: nat)
    requires 16 <= |e| && n <= k && (WalkAfter(e, n).Over? || Stuck(e, WalkAfter(e, n)))
    ensures WalkAfter(e, k) == WalkAfter(e, n)
  {
    hide Round, Stuck;
    if n < k {
      WalkStays(e, n, k - 1);
      if WalkAfter(e, n).At? {
        StuckRound(e, WalkAfter(e, n).position);
      }
    }
  }

  /**
   The walk over the element sizes ends exactly if none of the size fields it gets to is 0xFFFFFFFC; and it is
   endless exactly if the reader's loop would go round for ever.
   */
  lemma {:induction false} WalkEnds(e: bytes)
    requires 16 <= |e|
    ensures (exists n :: WalkAfter(e, n).Over?) <==> (forall n :: !Stuck(e, WalkAfter(e, n)))
    ensures (exists n :: WalkAfter(e, n).Over?) <==> WalkEnding(e, 16) != Endless
  {
    hide Round, WalkEnding, Stuck, WalkAfter;
    WalkStarts(e);
    var k := WalkGets(e, 0);
    if WalkEnding(e, 16) == Endless {
      forall n ensures WalkAfter(e, n).At? {
        if k <= n {
          WalkStays(e, k, n);
        } else if WalkAfter(e, n).Over? {
          WalkStays(e, n, k);
        }
      }
    } else {
      forall n ensures !Stuck(e, WalkAfter(e, n)) {
        if k <= n {
          WalkStays(e, k, n);
        } else if Stuck(e, WalkAfter(e, n)) {
          WalkStays(e, n, k);
        }
      }
    }
  }

  lemma {:induction false} WalkStarts(e: bytes)
    requires 16 <= |e|
    ensures WalkAfter(e, 0) == At(16)
    ensures forall w :: Stuck(e, w) ==> w.At?
  {
  }

  /** The element sizes from p on are multiples of four and add up to the end of the bundle. */
  predicate Framed(e: bytes, p: nat)
    requires p <= |e|
    decreases |e| - p
  {
    p == |e| ||
    (p + 4 <= |e| &&
     var size := FromBigEndian32(e[p..p + 4]);
     && Aligned(size) && e[p..p + 4] != STUCK_SIZE
     && p + 4 + size <= |e| && Framed(e, p + 4 + size))
  }

  lemma {:induction false} WalkCompletes(e: bytes, p: nat)
    requires p <= |e|
    ensures WalkEnding(e, p) == Completed <==> Framed(e, p)
    decreases |e| - p
  {
    hide FromBigEndian32, Aligned;
    if p + 4 <= |e| && Aligned(FromBigEndian32(e[p..p + 4])) {
      StuckSize(e[p..p + 4]);
      var next := p + Advanced(FromBigEndian32(e[p..p + 4]));
      if p < next <= |e| {
        WalkCompletes(e, next);
      }
    }
  }

  function CheckBundle(e: bytes): Ending {
    if |e| < 16 || !Aligned(|e|) || e[..8] != BUNDLE_MARK then Refused else WalkEnding(e, 16)
  }

  predicate BundleOk(e: bytes) {
    |e| >= 16 && Aligned(|e|) && e[..8] == BUNDLE_MARK && Framed(e, 16)
  }

  lemma BundleChecked(e: bytes)
    ensures CheckBundle(e) == Completed <==> BundleOk(e)
  {
    hide WalkEnding, Framed;
    if |e| >= 16 {
      WalkCompletes(e, 16);
    }
  }

  /**
   ReceivedBundle::Init. Nothing changes in a round that leaves the position where it is, so that the loop, which
   would go on with the same round, is left here with the answer that it is endless.
   */
  method InitBundle(e: bytes) returns (r: Ending)
    ensures r == CheckBundle(e)
  {
    AlignedMod(|e|);
    if |e| < 16 || |e| % 4 != 0 {
      return Refused;
    }
    if e[..8] != BUNDLE_MARK {
      return Refused;
    }
    var p := 16;
    while p < |e|
      invariant 16 <= p <= |e| && WalkEnding(e, p) == WalkEnding(e, 16)
      decreases |e| - p
    {
      if p + 4 > |e| {
        return Refused;
      }
      var elementSize := FromBigEndian32(e[p..p + 4]);
      AlignedMod(elementSize);
      if elementSize % 4 != 0 {
        return Refused;
      }
      var next := p + Advanced(elementSize);
      if next > |e| {
        return Refused;
      }
      if next == p {
        return Endless;
      }
      p := next;
    }
    r := Completed;
  }

  // ----- packets

  /** What a packet leads to: the messages handed on, in order, and how its processing ends. */
  datatype Delivery = Delivery(messages: seq<Message>, ending: Ending)

  function Then(first: Delivery, second: Delivery): Delivery {
    Delivery(first.messages + second.messages, second.ending)
  }

  /** A packet, and an element of a bundle, is taken for a bundle if its first byte is '#'. */
  predicate IsBundle(e: bytes) {
    e != [] && e[0] == HASH
  }

  function DeliverMessage(e: bytes): Delivery {
    match ParseMessage(e)
    case Ended(ending) => Delivery([], ending)
    case Accepted(m) => Delivery([m], Completed)
  }

  function Deliver(e: bytes): Delivery
    decreases |e|, 1, 0
  {
    if IsBundle(e) then DeliverBundle(e) else DeliverMessage(e)
  }

  function DeliverBundle(e: bytes): Delivery
    decreases |e|, 0, |e|
  {
    if BundleOk(e) then DeliverElements(e, 16) else Delivery([], CheckBundle(e))
  }

  function DeliverElements(e: bytes, p: nat): Delivery
    requires 16 <= p <= |e| && Framed(e, p)
    decreases |e|, 0, |e| - p
  {
    if p == |e| then Delivery([], Completed) else
    var next := p + 4 + FromBigEndian32(e[p..p + 4]);
    var first := Deliver(e[p + 4..next]);
    if first.ending != Completed then first else Then(first, DeliverElements(e, next))
  }

  lemma ThenAssociates(a: Delivery, b: Delivery, c: Delivery)
    ensures Then(Then(a, b), c) == Then(a, Then(b, c))
    ensures Then(Delivery([], Completed), a) == a
  {
    assert a.messages + b.messages + c.messages == a.messages + (b.messages + c.messages);
    assert [] + a.messages == a.messages;
  }

  /** OscPacketListener::ProcessPacket: the messages that reach ProcessMessage, in order. */
  method ProcessPacket(data: bytes) returns (d: Delivery)
    ensures d == Deliver(data)
    decreases |data|, 1
  {
    if IsBundle(data) {
      d := ProcessBundle(data);
    } else {
      var m := BuildMessage(data);
      d := if m.Ended? then Delivery([], m.ending) else Delivery([m.value], Completed);
    }
  }

  method ProcessBundle(e: bytes) returns (d: Delivery)
    ensures d == DeliverBundle(e)
    decreases |e|, 0
  {
    hide Deliver, CheckBundle;
    BundleChecked(e);
    var check := InitBundle(e);
    if check != Completed {
      return Delivery([], check);
    }
    d := Delivery([], Completed);
    var p := 16;
    ThenAssociates(DeliverElements(e, 16), d, d);
    while p != |e|
      invariant 16 <= p <= |e| && Framed(e, p) && d.ending == Completed
      invariant DeliverElements(e, 16) == Then(d, DeliverElements(e, p))
      decreases |e| - p
    {
      var next := p + 4 + FromBigEndian32(e[p..p + 4]);
      var element := ProcessPacket(e[p + 4..next]);
      ThenAssociates(d, element, if element.ending == Completed then DeliverElements(e, next) else element);
      d := Then(d, element);
      if d.ending != Completed {
        return;
      }
      p := next;
    }
    assert d.messages + [] == d.messages;
  }

  /** For instance, a bundle of which the only element has the size 0xFFFFFFFC. */
  lemma {:induction false} StuckPacket(e: bytes)
    requires |e| == 20 && e[..8] == BUNDLE_MARK && e[16..] == STUCK_SIZE
    ensures Deliver(e) == Delivery([], Endless)
    ensures forall n :: WalkAfter(e, n) == At(16)
  {
    hide Stuck, Round, WalkAfter;
    WalkStarts(e);
    StuckFirst(e);
    StuckRound(e, 16);
    forall n ensures WalkAfter(e, n) == At(16) {
      WalkStays(e, 0, n);
    }
    BundleChecked(e);
    assert Aligned(20);
    assert e[0] == e[..8][0];
  }

  lemma StuckFirst(e: bytes)
    requires |e| == 20 && e[16..] == STUCK_SIZE
    ensures Stuck(e, At(16))
  {
    assert e[16..20] == e[16..];
  }
}
