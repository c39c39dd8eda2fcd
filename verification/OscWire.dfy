/** The packet layout: what the sender is meant to put on the wire, as a recursive function of the value. */
module OscWire {
  import opened Bytes
  import opened OscValues

  const COMMA: byte := 44
  const HASH: byte := 35
  const TAG_INT32: byte := 105
  const TAG_FLOAT: byte := 102
  const TAG_STRING: byte := 115

  /** "#bundle" with its terminator. */
  const BUNDLE_MARK: bytes := [35, 98, 117, 110, 100, 108, 101, 0]
  /** The bundle mark and the "immediately" time tag, a big-endian 64-bit 1. */
  const BUNDLE_HEADER: bytes := BUNDLE_MARK + [0, 0, 0, 0, 0, 0, 0, 1]

  function Tag(a: Arg): byte {
    match a
    case Int32(_) => TAG_INT32
    case Float(_) => TAG_FLOAT
    case Str(_) => TAG_STRING
  }

  function ArgBytes(a: Arg): bytes {
    match a
    case Int32(i) => BigEndian32(ToUnsigned(i))
    case Float(bits) => BigEndian32(bits)
    case Str(s) => Str4(CString(s))
  }

  function Tags(args: seq<Arg>): (r: bytes)
    ensures |r| == |args|
  {
    seq(|args|, i requires 0 <= i < |args| => Tag(args[i]))
  }

  function ArgsBytes(args: seq<Arg>): bytes {
    if args == [] then [] else ArgsBytes(args[..|args| - 1]) + ArgBytes(args[|args| - 1])
  }

  function EncodeMessage(m: Message): bytes {
    Str4(CString(m.address)) + Str4([COMMA] + Tags(m.args)) + ArgsBytes(m.args)
  }

  /** A bundle element: its size, then its contents. */
  function Element(e: bytes): bytes {
    BigEndian32(|e|) + e
  }

  function Elements(es: seq<bytes>): bytes {
    if es == [] then [] else Elements(es[..|es| - 1]) + Element(es[|es| - 1])
  }

  /** The contents of a bundle in sending order: sub-bundles first, then messages. */
  function Contents(b: Bundle): (r: seq<bytes>)
    ensures |r| == |b.bundles| + |b.messages|
    decreases b, 0
  {
    seq(|b.bundles|, i requires 0 <= i < |b.bundles| => EncodeBundle(b.bundles[i])) +
    seq(|b.messages|, i requires 0 <= i < |b.messages| => EncodeMessage(b.messages[i]))
  }

  function EncodeBundle(b: Bundle): bytes
    decreases b, 1
  {
    BUNDLE_HEADER + Elements(Contents(b))
  }

  lemma ArgsNext(args: seq<Arg>, k: nat)
    requires k < |args|
    ensures ArgsBytes(args[..k + 1]) == ArgsBytes(args[..k]) + ArgBytes(args[k])
  {
    hide ArgBytes;
    assert args[..k + 1][..k] == args[..k];
  }

  lemma {:induction false} ArgsPrefix(args: seq<Arg>, k: nat)
    requires k <= |args|
    ensures ArgsBytes(args[..k]) <= ArgsBytes(args)
  {
    if k < |args| {
      ArgsPrefix(args[..|args| - 1], k);
      assert args[..|args| - 1][..k] == args[..k];
    } else {
      assert args[..k] == args;
    }
  }

  lemma ElementsNext(es: seq<bytes>, k: nat)
    requires k < |es|
    ensures Elements(es[..k + 1]) == Elements(es[..k]) + Element(es[k])
    ensures |Elements(es[..k + 1])| == |Elements(es[..k])| + 4 + |es[k]|
  {
    hide BigEndian32;
    assert es[..k + 1][..k] == es[..k];
  }

  lemma {:induction false} ElementsPrefix(es: seq<bytes>, k: nat)
    requires k <= |es|
    ensures Elements(es[..k]) <= Elements(es)
  {
    if k < |es| {
      ElementsPrefix(es[..|es| - 1], k);
      assert es[..|es| - 1][..k] == es[..k];
    } else {
      assert es[..k] == es;
    }
  }

  lemma ArgAligned(a: Arg)
    ensures Aligned(|ArgBytes(a)|)
  {
    match a
    case Int32(_) =>
    case Float(_) =>
    case Str(s) => RoundUp4Aligned(|CString(s)| + 1);
  }

  lemma {:induction false} ArgsAligned(args: seq<Arg>)
    ensures Aligned(|ArgsBytes(args)|)
  {
    if args != [] {
      var front, last := args[..|args| - 1], args[|args| - 1];
      ArgsAligned(front);
      ArgAligned(last);
      AlignedAdd(|ArgsBytes(front)|, |ArgBytes(last)|);
    }
  }

  lemma MessageAligned(m: Message)
    ensures Aligned(|EncodeMessage(m)|) && |EncodeMessage(m)| >= 8
  {
    hide CString, ArgsBytes, Tags;
    var address, tags := |CString(m.address)| + 1, |m.args| + 2;
    RoundUp4Aligned(address);
    RoundUp4Aligned(tags);
    ArgsAligned(m.args);
    AlignedAdd(RoundUp4(address), RoundUp4(tags));
    AlignedAdd(RoundUp4(address) + RoundUp4(tags), |ArgsBytes(m.args)|);
  }

  lemma {:induction false} ElementsAligned(es: seq<bytes>)
    requires forall i :: 0 <= i < |es| ==> Aligned(|es[i]|)
    ensures Aligned(|Elements(es)|)
  {
    hide BigEndian32;
    if es != [] {
      var n := |es| - 1;
      ElementsAligned(es[..n]);
      AlignedAdd(4, |es[n]|);
      AlignedAdd(|Elements(es[..n])|, 4 + |es[n]|);
    }
  }

  lemma {:induction false} ContentsAligned(b: Bundle)
    ensures forall i :: 0 <= i < |Contents(b)| ==> Aligned(|Contents(b)[i]|)
    decreases b, 0
  {
    hide EncodeBundle, EncodeMessage;
    forall i | 0 <= i < |Contents(b)| ensures Aligned(|Contents(b)[i]|) {
      if i < |b.bundles| {
        BundleAligned(b.bundles[i]);
      } else {
        MessageAligned(b.messages[i - |b.bundles|]);
      }
    }
  }

  /** Every packet is a whole number of 4-byte words. */
  lemma {:induction false} BundleAligned(b: Bundle)
    ensures Aligned(|EncodeBundle(b)|) && |EncodeBundle(b)| >= 16
    decreases b, 1
  {
    hide Elements, Contents;
    ContentsAligned(b);
    ElementsAligned(Contents(b));
    AlignedAdd(16, |Elements(Contents(b))|);
    assert |BUNDLE_HEADER| == 16;
  }
}
