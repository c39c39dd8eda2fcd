/** Which bytes a packet consists of, place by place, without the functions that put them together. */
module WireFormat {
  import opened Bytes
  import opened OscRoundTrip
  import opened OscValues
  import opened OscWire

  /** The four bytes from p on are a number, the most significant byte first. */
  predicate IsNumber(e: bytes, p: nat, u: nat) {
    p + 4 <= |e| && forall i :: p <= i < p + 4 ==> e[i] as int == u / Pow256(p + 3 - i) % 0x100
  }

  lemma {:induction false} NumberAt(e: bytes, p: nat, u: uint32)
    requires p + 4 <= |e| && e[p..p + 4] == BigEndian32(u)
    ensures IsNumber(e, p, u)
  {
    hide BigEndian32, Pow256;
    forall i | p <= i < p + 4 ensures e[i] as int == u / Pow256(p + 3 - i) % 0x100 {
      BigEndian32At(u, i - p);
      assert e[i] == e[p..p + 4][i - p];
    }
  }

  /** Where argument k of a message starts. */
  function ArgumentPlace(m: Message, k: nat): nat
    requires k <= |m.args|
  {
    ArgOffset(|Str4(CString(m.address))| + |Str4([COMMA] + Tags(m.args))|, m.args, k)
  }

  /** The bytes of an argument: an integer in two's complement, the pattern of a float, or a padded C string. */
  predicate IsArgument(e: bytes, p: nat, a: Arg) {
    match a
    case Int32(i) => IsNumber(e, p, i as int % 0x1_0000_0000)
    case Float(bits) => IsNumber(e, p, bits)
    case Str(s) =>
      && p + RoundUp4(|CString(s)| + 1) <= |e|
      && CString(s) <= e[p..]
      && forall i :: p + |CString(s)| <= i < p + RoundUp4(|CString(s)| + 1) ==> e[i] == 0
  }

  lemma {:induction false} ArgumentsOnWire(m: Message, k: nat)
    requires k < |m.args|
    ensures IsArgument(EncodeMessage(m), ArgumentPlace(m, k), m.args[k])
  {
    hide EncodeMessage, CString, Tags, ArgsBytes, BigEndian32, RoundUp4;
    var e, a := EncodeMessage(m), |Str4(CString(m.address))| + |Str4([COMMA] + Tags(m.args))|;
    MessageParts(m);
    assert Laid(e, a, m.args);
    ArgLaid(e, a, m.args, k);
    var p := ArgumentPlace(m, k);
    match m.args[k]
    case Int32(i) => NumberAt(e, p, ToUnsigned(i));
    case Float(bits) => NumberAt(e, p, bits);
    case Str(s) => StringAt(e, p, CString(s));
  }

  lemma {:induction false} StringAt(e: bytes, p: nat, s: bytes)
    requires p + |Str4(s)| <= |e| && e[p..p + |Str4(s)|] == Str4(s)
    ensures s <= e[p..]
    ensures forall i :: p + |s| <= i < p + |Str4(s)| ==> e[i] == 0
  {
    hide RoundUp4;
    forall i | p <= i < p + |Str4(s)| ensures e[i] == Str4(s)[i - p] {
      assert e[i] == e[p..p + |Str4(s)|][i - p];
    }
  }

  /** Where element k of a bundle starts with its size field. */
  function ElementPlace(b: Bundle, k: nat): nat
    requires k <= |Contents(b)|
  {
    16 + |Elements(Contents(b)[..k])|
  }

  /** Every element is preceded by its size, and the next one follows directly. */
  lemma {:induction false} ElementsOnWire(b: Bundle, k: nat)
    requires k < |Contents(b)| && |EncodeBundle(b)| < 0x1_0000_0000
    ensures var e, p, element := EncodeBundle(b), ElementPlace(b, k), Contents(b)[k];
            && IsNumber(e, p, |element|)
            && p + 4 + |element| <= |e| && e[p + 4..p + 4 + |element|] == element
            && ElementPlace(b, k + 1) == p + 4 + |element|
  {
    hide EncodeBundle, Contents, Elements, BigEndian32;
    ContentsOf(b);
    ElementPlaced(EncodeBundle(b), Contents(b), k);
    NumberAt(EncodeBundle(b), ElementPlace(b, k), |Contents(b)[k]|);
  }

  // ----- whole packets

  lemma {:induction false} StringBytes()
    ensures Str4(CString([47, 97])) == [47, 97, 0, 0] && Str4(CString([47, 98])) == [47, 98, 0, 0]
    ensures Str4(CString([104, 105])) == [104, 105, 0, 0]
    ensures Str4([COMMA]) == [44, 0, 0, 0] && Str4([COMMA, 105, 105, 102, 115]) == [44, 105, 105, 102, 115, 0, 0, 0]
  {
    CStringWhole([47, 97]);
    CStringWhole([47, 98]);
    CStringWhole([104, 105]);
    assert RoundUp4(3) == 4 && RoundUp4(2) == 4 && RoundUp4(6) == 8;
  }

  /** "/b" without arguments, and "/a" with 256, -2, 1.0 and "hi". */
  const EMPTY_MESSAGE: Message := Message([47, 98], [])
  const FULL_MESSAGE: Message := Message([47, 97], [Int32(256), Int32(-2), Float(0x3F80_0000), Str([104, 105])])

  lemma {:induction false} EmptyMessageBytes()
    ensures EncodeMessage(EMPTY_MESSAGE) == [47, 98, 0, 0, 44, 0, 0, 0]
  {
    hide CString, Str4;
    StringBytes();
    assert [COMMA] + Tags([]) == [COMMA];
    assert ArgsBytes([]) == [];
  }

  lemma {:induction false} FourArguments(args: seq<Arg>)
    requires |args| == 4
    ensures ArgsBytes(args) == ArgBytes(args[0]) + ArgBytes(args[1]) + ArgBytes(args[2]) + ArgBytes(args[3])
  {
    NothingBefore(args);
    hide ArgBytes, ArgsBytes;
    ArgsNext(args, 0);
    ArgsNext(args, 1);
    ArgsNext(args, 2);
    ArgsNext(args, 3);
    assert args[..4] == args;
  }

  lemma NothingBefore(args: seq<Arg>)
    ensures ArgsBytes(args[..0]) == []
  {
  }

  const FULL_BYTES: bytes :=
    [47, 97, 0, 0] + [44, 105, 105, 102, 115, 0, 0, 0]
    + ([0, 0, 1, 0] + [255, 255, 255, 254] + [63, 128, 0, 0] + [104, 105, 0, 0])

  lemma {:induction false} FullMessageBytes()
    ensures EncodeMessage(FULL_MESSAGE) == FULL_BYTES
  {
    hide CString, Str4, ArgsBytes;
    StringBytes();
    FourArguments(FULL_MESSAGE.args);
    assert BigEndian32(256) == [0, 0, 1, 0] && BigEndian32(0xFFFF_FFFE) == [255, 255, 255, 254];
    assert BigEndian32(0x3F80_0000) == [63, 128, 0, 0];
    assert [COMMA] + Tags(FULL_MESSAGE.args) == [COMMA, 105, 105, 102, 115];
  }

  /** "#bundle" and the time tag 1. */
  const HEADER_BYTES: bytes := [35, 98, 117, 110, 100, 108, 101, 0, 0, 0, 0, 0, 0, 0, 0, 1]

  const SUB_BUNDLE: Bundle := Bundle([], [EMPTY_MESSAGE])
  const SUB_BYTES: bytes := HEADER_BYTES + ([0, 0, 0, 8] + [47, 98, 0, 0, 44, 0, 0, 0])

  const WHOLE_BUNDLE: Bundle := Bundle([SUB_BUNDLE], [FULL_MESSAGE])
  const WHOLE_BYTES: bytes := HEADER_BYTES + (([0, 0, 0, 28] + SUB_BYTES) + ([0, 0, 0, 28] + FULL_BYTES))

  lemma {:induction false} OneElement(es: seq<bytes>)
    requires |es| == 1
    ensures Elements(es) == Element(es[0])
  {
    hide Element;
    ElementsNext(es, 0);
    NoElements(es);
    assert es[..1] == es;
  }

  lemma {:induction false} TwoElements(es: seq<bytes>)
    requires |es| == 2
    ensures Elements(es) == Element(es[0]) + Element(es[1])
  {
    OneElement(es[..1]);
    hide Element, Elements;
    ElementsNext(es, 1);
    assert es[..2] == es;
  }

  lemma HeaderBytes()
    ensures BUNDLE_HEADER == HEADER_BYTES
  {
  }

  lemma {:induction false} SubBundleBytes()
    ensures EncodeBundle(SUB_BUNDLE) == SUB_BYTES
  {
    hide EncodeMessage, Elements;
    HeaderBytes();
    EmptyMessageBytes();
    assert Contents(SUB_BUNDLE) == [EncodeMessage(EMPTY_MESSAGE)];
    assert BigEndian32(8) == [0, 0, 0, 8];
    OneElement(Contents(SUB_BUNDLE));
  }

  lemma {:induction false} WholeContents()
    ensures Contents(WHOLE_BUNDLE) == [EncodeBundle(SUB_BUNDLE), EncodeMessage(FULL_MESSAGE)]
  {
    hide EncodeMessage, EncodeBundle;
  }

  /** A whole packet, byte by byte: the sub-bundle first, then the message, each behind its size. */
  lemma {:induction false} WholeBundleBytes()
    ensures EncodeBundle(WHOLE_BUNDLE) == WHOLE_BYTES
  {
    HeaderBytes();
    SubBundleBytes();
    FullMessageBytes();
    WholeContents();
    assert BigEndian32(28) == [0, 0, 0, 28] && |SUB_BYTES| == |FULL_BYTES| == 28;
    hide EncodeMessage, Contents, Elements, BigEndian32;
    ContentsOf(WHOLE_BUNDLE);
    hide EncodeBundle;
    TwoElements(Contents(WHOLE_BUNDLE));
  }
}
