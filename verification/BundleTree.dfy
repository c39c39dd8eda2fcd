/** The inverse of the sender on whole trees: a packet stands for one tree of bundles and messages only. */
module BundleTree {
  import opened Bytes
  import opened OscValues
  import opened OscWire
  import opened OscRoundTrip
  import opened ReceivedBundles
  import opened ReceivedMessages

  /** The tree that a packet describes: every element becomes a sub-bundle or a message, as the reader takes it. */
  function ParseBundle(e: bytes): Option<Bundle>
    decreases |e|, 1, 0
  {
    if BundleOk(e) then ParseElements(e, 16) else None
  }

  function ParseElements(e: bytes, p: nat): Option<Bundle>
    requires 16 <= p <= |e| && Framed(e, p)
    decreases |e|, 0, |e| - p
  {
    if p == |e| then Some(Bundle([], [])) else
    var next := p + 4 + FromBigEndian32(e[p..p + 4]);
    AddElement(e[p + 4..next], if IsBundle(e[p + 4..next]) then ParseBundle(e[p + 4..next]) else None,
               ParseElements(e, next))
  }

  /** One element in front of the others; `tree` is what it stands for if it is a bundle. */
  function AddElement(element: bytes, tree: Option<Bundle>, rest: Option<Bundle>): Option<Bundle> {
    if rest == None then None
    else if IsBundle(element) then
      if tree == None then None else Some(Bundle([tree.value] + rest.value.bundles, rest.value.messages))
    else
      var m := ParseMessage(element);
      if m.Ended? then None else Some(Bundle(rest.value.bundles, [m.value] + rest.value.messages))
  }

  /** The tree with all strings cut at their first NUL. */
  function WireBundle(b: Bundle): Bundle {
    Bundle(WireBundles(b.bundles), WireMessages(b.messages))
  }

  function WireBundles(bs: seq<Bundle>): (r: seq<Bundle>)
    ensures |r| == |bs|
  {
    seq(|bs|, i requires 0 <= i < |bs| => WireBundle(bs[i]))
  }

  predicate HashFree(b: Bundle) {
    NoHash(b.messages) && forall i :: 0 <= i < |b.bundles| ==> HashFree(b.bundles[i])
  }

  predicate NulFreeTree(b: Bundle) {
    NulFreeMessages(b.messages) && forall i :: 0 <= i < |b.bundles| ==> NulFreeTree(b.bundles[i])
  }

  // ----- trees and their flattening

  lemma {:induction false} FlattenedFrom(b: Bundle, n: nat, m: Message)
    requires n <= |b.bundles|
    ensures m in FlattenAll(b, n) <==> exists i :: 0 <= i < n && m in Flatten(b.bundles[i])
  {
    hide Flatten;
    if n != 0 {
      FlattenedFrom(b, n - 1, m);
    }
  }

  lemma {:induction false} FlattenMembers(b: Bundle, m: Message)
    ensures m in Flatten(b) <==> m in b.messages || exists i :: 0 <= i < |b.bundles| && m in Flatten(b.bundles[i])
  {
    FlattenedFrom(b, |b.bundles|, m);
  }

  lemma {:induction false} HashFreeFlatten(b: Bundle)
    ensures HashFree(b) <==> NoHash(Flatten(b))
  {
    hide Flatten, HashAddress;
    forall m ensures m in Flatten(b) <==>
        m in b.messages || exists i :: 0 <= i < |b.bundles| && m in Flatten(b.bundles[i]) {
      FlattenMembers(b, m);
    }
    forall i | 0 <= i < |b.bundles| ensures HashFree(b.bundles[i]) <==> NoHash(Flatten(b.bundles[i])) {
      HashFreeFlatten(b.bundles[i]);
    }
  }

  lemma {:induction false} NulFreeFlatten(b: Bundle)
    ensures NulFreeTree(b) <==> NulFreeMessages(Flatten(b))
  {
    hide Flatten, NulFreeMessage;
    forall m ensures m in Flatten(b) <==>
        m in b.messages || exists i :: 0 <= i < |b.bundles| && m in Flatten(b.bundles[i]) {
      FlattenMembers(b, m);
    }
    forall i | 0 <= i < |b.bundles| ensures NulFreeTree(b.bundles[i]) <==> NulFreeMessages(Flatten(b.bundles[i])) {
      NulFreeFlatten(b.bundles[i]);
    }
  }

  lemma {:induction false} WireHashFree(b: Bundle)
    ensures HashFree(WireBundle(b)) <==> HashFree(b)
  {
    hide NoHash, WireMessages;
    WireNoHash(b.messages);
    forall i | 0 <= i < |b.bundles| ensures HashFree(WireBundle(b).bundles[i]) <==> HashFree(b.bundles[i]) {
      WireHashFree(b.bundles[i]);
    }
  }

  lemma {:induction false} WireBundleUnchanged(b: Bundle)
    ensures WireBundle(b) == b <==> NulFreeTree(b)
  {
    hide NulFreeMessages, WireMessages;
    WireMessagesUnchanged(b.messages);
    forall i | 0 <= i < |b.bundles| ensures WireBundle(b.bundles[i]) == b.bundles[i] <==> NulFreeTree(b.bundles[i]) {
      WireBundleUnchanged(b.bundles[i]);
    }
    if NulFreeTree(b) {
      assert WireBundles(b.bundles) == b.bundles;
    }
  }

  // ----- parsing undoes printing

  /** What is left of a tree from element k on. */
  function Rest(b: Bundle, k: nat): Bundle
    requires k <= |b.bundles| + |b.messages|
  {
    if k <= |b.bundles| then Bundle(b.bundles[k..], b.messages) else Bundle([], b.messages[k - |b.bundles|..])
  }

  lemma {:induction false} ElementParsed(b: Bundle, k: nat)
    requires k < |b.bundles| + |b.messages| && HashFree(b)
    requires k < |b.bundles| ==> ParseBundle(EncodeBundle(b.bundles[k])) == Some(WireBundle(b.bundles[k]))
    ensures var e := Contents(b)[k];
            var tree := if IsBundle(e) then ParseBundle(e) else None;
            AddElement(e, tree, Some(WireBundle(Rest(b, k + 1)))) == Some(WireBundle(Rest(b, k)))
  {
    hide EncodeBundle, EncodeMessage, ParseMessage, ParseBundle, WireMessage, HashAddress, IsBundle, Contents;
    ContentsOf(b);
    if k < |b.bundles| {
      BundleIsBundle(b.bundles[k]);
      assert WireBundles(b.bundles[k..]) == [WireBundle(b.bundles[k])] + WireBundles(b.bundles[k + 1..]);
    } else {
      var j := k - |b.bundles|;
      var m := b.messages[j];
      MessageContents(b, j);
      MessageIsBundle(m);
      MessageRoundTrip(m);
      assert WireMessages(b.messages[j..]) == [WireMessage(m)] + WireMessages(b.messages[j + 1..]);
      if j == 0 {
        assert b.bundles[k..] == [] && b.messages[0..] == b.messages;
      }
    }
  }

  lemma {:induction false} MessageContents(b: Bundle, j: nat)
    requires j < |b.messages|
    ensures |Contents(b)| == |b.bundles| + |b.messages| && Contents(b)[|b.bundles| + j] == EncodeMessage(b.messages[j])
  {
    hide EncodeMessage, EncodeBundle;
  }

  lemma {:induction false} ElementsParsed(b: Bundle, k: nat)
    requires k <= |b.bundles| + |b.messages| && HashFree(b) && |EncodeBundle(b)| < 0x1_0000_0000
    ensures var e, p := EncodeBundle(b), 16 + |Elements(Contents(b)[..k])|;
            p <= |e| && Framed(e, p) && ParseElements(e, p) == Some(WireBundle(Rest(b, k)))
    decreases b, 0, |b.bundles| + |b.messages| - k
  {
    hide Elements, Contents, ParseBundle, FromBigEndian32, Aligned, WireBundle;
    hide AddElement, Rest, IsBundle, EncodeBundle;
    var e, es := EncodeBundle(b), Contents(b);
    ContentsOf(b);
    if k == |es| {
      assert es[..k] == es;
      NothingParsed(b);
    } else {
      ElementPlaced(e, es, k);
      ContentsAligned(b);
      if k < |b.bundles| {
        TreeParsed(b.bundles[k]);
      }
      ElementsParsed(b, k + 1);
      ElementParsed(b, k);
    }
  }

  lemma {:induction false} NothingParsed(b: Bundle)
    ensures WireBundle(Rest(b, |b.bundles| + |b.messages|)) == Bundle([], [])
  {
  }

  lemma {:induction false} TreeParsed(b: Bundle)
    requires HashFree(b) && |EncodeBundle(b)| < 0x1_0000_0000
    ensures ParseBundle(EncodeBundle(b)) == Some(WireBundle(b))
    decreases b, 1
  {
    hide Elements, Contents, WireBundle, HashFree, ParseElements, EncodeBundle, Framed, Aligned;
    ElementsParsed(b, 0);
    NoElements(Contents(b));
    BundleAligned(b);
    BundleIsBundle(b);
    assert Rest(b, 0) == b;
  }

  /** Whatever the bytes are, no message in the tree has an address that starts with '#'. */
  lemma {:induction false} ParsedHashFree(e: bytes)
    ensures ParseBundle(e).Some? ==> HashFree(ParseBundle(e).value)
    decreases |e|, 1, 0
  {
    hide HashFree;
    if BundleOk(e) {
      ElementsHashFree(e, 16);
    }
  }

  lemma {:induction false} ElementsHashFree(e: bytes, p: nat)
    requires 16 <= p <= |e| && Framed(e, p)
    ensures ParseElements(e, p).Some? ==> HashFree(ParseElements(e, p).value)
    decreases |e|, 0, |e| - p
  {
    hide ParseBundle, HashAddress, ParseMessage, IsBundle;
    if p != |e| {
      var next := p + 4 + FromBigEndian32(e[p..p + 4]);
      var element := e[p + 4..next];
      ElementsHashFree(e, next);
      ParsedHashFree(element);
      ParsedNoHash(element);
    }
  }

  lemma {:induction false} ParsedNoHash(e: bytes)
    ensures !IsBundle(e) && ParseMessage(e).Accepted? ==> !HashAddress(ParseMessage(e).value)
  {
    hide Opened, Collect;
  }

  /**
   Parsing undoes printing, for every tree of any depth: the same tree comes back, with its strings cut at NULs, if
   and only if no address starts with '#'.
   */
  lemma {:induction false} TreeRoundTrip(b: Bundle)
    requires |EncodeBundle(b)| < 0x1_0000_0000
    ensures ParseBundle(EncodeBundle(b)) == Some(WireBundle(b)) <==> NoHash(Flatten(b))
    ensures ParseBundle(EncodeBundle(b)) == Some(b) <==> NoHash(Flatten(b)) && NulFreeMessages(Flatten(b))
  {
    hide EncodeBundle, ParseBundle, WireBundle, HashFree, NoHash, Flatten, NulFreeTree, NulFreeMessages;
    HashFreeFlatten(b);
    NulFreeFlatten(b);
    WireHashFree(b);
    WireBundleUnchanged(b);
    ParsedHashFree(EncodeBundle(b));
    if HashFree(b) {
      TreeParsed(b);
    }
  }

  /** A packet describes a tree exactly if all its elements are processed to the end. */
  lemma {:induction false} ParsedIfDelivered(e: bytes)
    ensures ParseBundle(e).Some? <==> DeliverBundle(e).ending == Completed
    decreases |e|, 1, 0
  {
    hide Framed;
    BundleChecked(e);
    if BundleOk(e) {
      ElementsIfDelivered(e, 16);
    }
  }

  lemma {:induction false} ElementsIfDelivered(e: bytes, p: nat)
    requires 16 <= p <= |e| && Framed(e, p)
    ensures ParseElements(e, p).Some? <==> DeliverElements(e, p).ending == Completed
    decreases |e|, 0, |e| - p
  {
    hide ParseBundle, DeliverBundle, IsBundle, ParseMessage;
    if p != |e| {
      var next := p + 4 + FromBigEndian32(e[p..p + 4]);
      ParsedIfDelivered(e[p + 4..next]);
      MessageEnding(e[p + 4..next]);
      ElementsIfDelivered(e, next);
    }
  }

  lemma {:induction false} MessageEnding(e: bytes)
    ensures DeliverMessage(e).ending == Completed <==> ParseMessage(e).Accepted?
  {
  }

  /** Two different trees with whole strings and without '#' addresses never make the same packet. */
  lemma {:induction false} PacketsDiffer(a: Bundle, b: Bundle)
    requires |EncodeBundle(a)| < 0x1_0000_0000
    requires NoHash(Flatten(a)) && NulFreeMessages(Flatten(a)) && NoHash(Flatten(b)) && NulFreeMessages(Flatten(b))
    ensures EncodeBundle(a) == EncodeBundle(b) ==> a == b
  {
    hide EncodeBundle, ParseBundle, NoHash, Flatten, NulFreeMessages;
    TreeRoundTrip(a);
    if EncodeBundle(a) == EncodeBundle(b) {
      TreeRoundTrip(b);
    }
  }
}
