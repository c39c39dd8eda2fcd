/**
 Bytes, C strings and the 32-bit number layouts of the OSC packet code.
 Numbers are unbounded in Dafny, so the truncation to 32 bits is written out.
 */
module Bytes {

  datatype Option<+T> = None | Some(value: T)

  type byte = x: int | 0 <= x < 0x100
  type bytes = seq<byte>
  type int32 = x: int | -0x8000_0000 <= x < 0x8000_0000
  type uint32 = x: int | 0 <= x < 0x1_0000_0000

  /** The size of a slot that holds n bytes and starts and ends on a 4-byte boundary. */
  function RoundUp4(n: nat): (r: nat)
    ensures n <= r < n + 4
  {
    if n == 0 then 0 else if n <= 4 then 4 else 4 + RoundUp4(n - 4)
  }

  /** A whole number of 4-byte words. */
  predicate Aligned(n: nat) {
    n == 0 || (4 <= n && Aligned(n - 4))
  }

  lemma {:induction false} AlignedMod(n: nat)
    ensures Aligned(n) <==> n % 4 == 0
  {
    if 4 <= n {
      AlignedMod(n - 4);
    }
  }

  lemma {:induction false} AlignedAdd(m: nat, n: nat)
    requires Aligned(m) && Aligned(n)
    ensures Aligned(m + n)
  {
    if m != 0 {
      AlignedAdd(m - 4, n);
    }
  }

  lemma {:induction false} AlignedSub(m: nat, n: nat)
    requires Aligned(m) && Aligned(n) && n <= m
    ensures Aligned(m - n)
  {
    if n != 0 {
      AlignedSub(m - 4, n - 4);
    }
  }

  lemma {:induction false} RoundUp4Aligned(n: nat)
    ensures Aligned(RoundUp4(n))
  {
    if n > 4 {
      RoundUp4Aligned(n - 4);
    }
  }

  function Zeros(n: nat): (r: bytes)
    ensures |r| == n && forall i :: 0 <= i < n ==> r[i] == 0
  {
    seq(n, _ => 0)
  }

  predicate NulFree(s: bytes) {
    forall i :: 0 <= i < |s| ==> s[i] != 0
  }

  /** What a C function sees of a byte string handed over with c_str(): everything before the first NUL. */
  function CString(s: bytes): (r: bytes)
    ensures r <= s && NulFree(r)
    ensures |r| < |s| ==> s[|r|] == 0
  {
    if s == [] || s[0] == 0 then [] else [s[0]] + CString(s[1..])
  }

  /** The C string prefix is the only prefix with these three properties. */
  lemma {:induction false} CStringUnique(s: bytes, r: bytes)
    requires r <= s && NulFree(r) && (|r| < |s| ==> s[|r|] == 0)
    ensures r == CString(s)
  {
    if r != [] {
      CStringUnique(s[1..], r[1..]);
    }
  }

  lemma {:induction false} CStringWhole(s: bytes)
    ensures CString(s) == s <==> NulFree(s)
  {
    if NulFree(s) {
      CStringUnique(s, s);
    }
  }

  /** A string with its terminator, zero-padded to a 4-byte boundary. */
  function Str4(s: bytes): (r: bytes)
    ensures |r| == RoundUp4(|s| + 1) && s <= r
    ensures forall i :: |s| <= i < |r| ==> r[i] == 0
  {
    s + Zeros(RoundUp4(|s| + 1) - |s|)
  }

  /** Big-endian, as FromUInt32 stores its argument: only the low 32 bits survive. */
  function BigEndian32(u: nat): (r: bytes)
    ensures |r| == 4
  {
    [u / 0x100_0000 % 0x100, u / 0x1_0000 % 0x100, u / 0x100 % 0x100, u % 0x100]
  }

  function FromBigEndian32(b: bytes): uint32
    requires |b| == 4
  {
    b[0] as int * 0x100_0000 + b[1] as int * 0x1_0000 + b[2] as int * 0x100 + b[3]
  }

  lemma Digits(u: uint32)
    ensures u == u / 0x100_0000 % 0x100 * 0x100_0000 + u / 0x1_0000 % 0x100 * 0x1_0000 +
                 u / 0x100 % 0x100 * 0x100 + u % 0x100
  {
    var u1, u2, u3 := u / 0x100, u / 0x1_0000, u / 0x100_0000;
    assert u == u1 * 0x100 + u % 0x100;
    assert u2 == u1 / 0x100 && u1 == u2 * 0x100 + u1 % 0x100;
    assert u3 == u2 / 0x100 && u2 == u3 * 0x100 + u2 % 0x100;
    assert u3 % 0x100 == u3;
  }

  function Pow256(k: nat): (r: nat)
    ensures 1 <= r
  {
    if k == 0 then 1 else 0x100 * Pow256(k - 1)
  }

  /** The most significant byte comes first: at every place stands the digit, to the base 256, of its weight. */
  lemma {:induction false} BigEndian32At(u: uint32, k: nat)
    requires k < 4
    ensures BigEndian32(u)[k] == u / Pow256(3 - k) % 0x100
  {
    assert Pow256(0) == 1 && Pow256(1) == 0x100 && Pow256(2) == 0x1_0000 && Pow256(3) == 0x100_0000;
  }

  /** Bytes compared from the left, as they arrive. */
  predicate Precedes(a: bytes, b: bytes)
    requires |a| == |b|
  {
    a != [] && (a[0] < b[0] || (a[0] == b[0] && Precedes(a[1..], b[1..])))
  }

  /** The bytes of numbers are in the order of the numbers. */
  lemma {:induction false} BigEndian32Order(u: uint32, v: uint32)
    ensures Precedes(BigEndian32(u), BigEndian32(v)) <==> u < v
  {
    hide Precedes;
    Digits(u);
    Digits(v);
    PrecedesFour(BigEndian32(u), BigEndian32(v));
  }

  lemma {:induction false} PrecedesFour(a: bytes, b: bytes)
    requires |a| == |b| == 4
    ensures Precedes(a, b) <==> FromBigEndian32(a) < FromBigEndian32(b)
  {
    assert a[1..][1..] == a[2..] && a[1..][1..][1..] == a[3..] && a[1..][1..][1..][1..] == [];
    assert b[1..][1..] == b[2..] && b[1..][1..][1..] == b[3..] && b[1..][1..][1..][1..] == [];
    assert a[1..][0] == a[1] && a[2..][0] == a[2] && a[3..][0] == a[3];
    assert b[1..][0] == b[1] && b[2..][0] == b[2] && b[3..][0] == b[3];
    assert Precedes(a[3..], b[3..]) <==> a[3] < b[3];
    assert Precedes(a[2..], b[2..]) <==> a[2] < b[2] || (a[2] == b[2] && a[3] < b[3]);
    assert Precedes(a[1..], b[1..]) <==>
      a[1] < b[1] || (a[1] == b[1] && (a[2] < b[2] || (a[2] == b[2] && a[3] < b[3])));
  }

  lemma BigEndian32RoundTrip(u: uint32)
    ensures FromBigEndian32(BigEndian32(u)) == u
  {
    Digits(u);
  }

  /** The byte order of the (little-endian) host, used for the offsets kept inside size slots. */
  function HostUInt32(u: nat): (r: bytes)
    ensures |r| == 4
  {
    [u % 0x100, u / 0x100 % 0x100, u / 0x1_0000 % 0x100, u / 0x100_0000 % 0x100]
  }

  function FromHostUInt32(b: bytes): uint32
    requires |b| == 4
  {
    b[3] as int * 0x100_0000 + b[2] as int * 0x1_0000 + b[1] as int * 0x100 + b[0]
  }

  lemma HostUInt32RoundTrip(u: uint32)
    ensures FromHostUInt32(HostUInt32(u)) == u
  {
    Digits(u);
  }

  /** Two's complement, in both directions. */
  function ToUnsigned(i: int32): (u: uint32)
    ensures u == i % 0x1_0000_0000
  {
    if i < 0 then i + 0x1_0000_0000 else i
  }

  function ToSigned(u: uint32): (i: int32)
    ensures ToUnsigned(i) == u
  {
    if u < 0x8000_0000 then u else u - 0x1_0000_0000
  }
}
