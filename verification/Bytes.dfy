/** Bytes, C strings and the little-endian numbers of the on-disk format. */
module Bytes {
  /** An unsigned 8-bit value. Nibbles and masks are written with / and %. */
  type byte = x: int | 0 <= x < 256

  type bytes = seq<byte>

  const SLASH: byte := 0x2F
  const COLON: byte := 0x3A
  const CR: byte := 0x0D
  const LF: byte := 0x0A

  datatype Option<+T> = None | Some(value: T)

  function U16(s: bytes, at: nat): (n: nat)
    requires at + 1 < |s|
    ensures n < 0x10000
  {
    var low: int, high: int := s[at], s[at + 1];
    high * 0x100 + low
  }

  function U24(s: bytes, at: nat): (n: nat)
    requires at + 2 < |s|
    ensures n < 0x100_0000
  {
    var low: int, middle: int, high: int := s[at], s[at + 1], s[at + 2];
    high * 0x1_0000 + middle * 0x100 + low
  }

  function Zeros(n: nat): (z: bytes)
    ensures |z| == n && forall i :: 0 <= i < n ==> z[i] == 0
  {
    seq(n, i => 0)
  }

  /** The n bytes of `s` from position `from` on. (Written out rather than as a slice:
      the solver copes better with many of these.) */
  function Part(s: bytes, from: nat, n: nat): (b: bytes)
    requires from + n <= |s|
    ensures |b| == n && forall i :: 0 <= i < n ==> b[i] == s[from + i]
  {
    seq(n, i requires 0 <= i < n => s[from + i])
  }

  function Min(a: int, b: int): (m: int) {
    if a < b then a else b
  }

  // ----- characters, in the "C" locale -----

  predicate IsUpper(c: byte) { 0x41 <= c <= 0x5A }

  predicate IsLower(c: byte) { 0x61 <= c <= 0x7A }

  predicate IsAlpha(c: byte) { IsUpper(c) || IsLower(c) }

  predicate IsAlnum(c: byte) { IsAlpha(c) || 0x30 <= c <= 0x39 }

  function ToUpper(c: byte): byte {
    if IsLower(c) then c - 0x20 else c
  }

  function Upper(s: bytes): (u: bytes)
    ensures |u| == |s|
  {
    seq(|s|, i requires 0 <= i < |s| => ToUpper(s[i]))
  }

  /** The position of the first NUL at or after `from`, or the length. */
  function NulAt(s: bytes, from: nat): (n: nat)
    requires from <= |s|
    ensures from <= n <= |s| && (n < |s| ==> s[n] == 0)
    ensures forall i :: from <= i < n ==> s[i] != 0
    decreases |s| - from
  {
    if from == |s| || s[from] == 0 then from else NulAt(s, from + 1)
  }

  /** What a C function sees of a byte string: everything before its first NUL. */
  function CStr(s: bytes): bytes {
    Part(s, 0, NulAt(s, 0))
  }

  lemma CStrOfNulFree(s: bytes)
    requires 0 !in s
    ensures CStr(s) == s
  {
    assert forall k :: 0 <= k < |s| ==> s[k] != 0;
  }

  lemma {:induction false} NulAtIs(s: bytes, from: nat, n: nat)
    requires from <= n <= |s| && (n < |s| ==> s[n] == 0) && forall i :: from <= i < n ==> s[i] != 0
    ensures NulAt(s, from) == n
    decreases n - from
  {
    if from < n {
      NulAtIs(s, from + 1, n);
    }
  }

  /** A NUL in the first part hides the second one. */
  lemma CStrOfConcat(a: bytes, b: bytes)
    ensures CStr(a + b) == if 0 in a then CStr(a) else a + CStr(b)
  {
    var n := NulAt(a, 0);
    if n < |a| {
      NulAtIs(a + b, 0, n);
    } else {
      NulAtIs(a + b, 0, |a| + NulAt(b, 0));
      assert 0 !in a;
    }
  }

  lemma CStrTwice(s: bytes)
    ensures 0 !in CStr(s) && CStr(CStr(s)) == CStr(s)
  {
    CStrOfNulFree(CStr(s));
  }

  /** strcasecmp(a, b) == 0 */
  predicate SameIgnoringCase(a: bytes, b: bytes) {
    Upper(CStr(a)) == Upper(CStr(b))
  }

  // ----- exclusive or -----

  function XorBits(a: nat, b: nat, width: nat): (x: nat)
    decreases width, a, b
  {
    if width == 0 then 0 else
      2 * XorBits(a / 2, b / 2, width - 1) + (if a % 2 != b % 2 then 1 else 0)
  }

  lemma {:induction false} XorBitsProperties(a: nat, b: nat, width: nat)
    requires a < Power2(width) && b < Power2(width)
    ensures XorBits(a, b, width) < Power2(width)
    ensures XorBits(XorBits(a, b, width), b, width) == a
    decreases width
  {
    if width > 0 {
      XorBitsProperties(a / 2, b / 2, width - 1);
      var half := XorBits(a / 2, b / 2, width - 1);
      var x := XorBits(a, b, width);
      assert x / 2 == half && x % 2 == if a % 2 != b % 2 then 1 else 0;
    }
  }

  function Power2(n: nat): nat {
    if n == 0 then 1 else 2 * Power2(n - 1)
  }

  function Xor(a: byte, b: byte): (x: byte)
  {
    assert Power2(8) == 256 by {
      assert Power2(4) == 16;
    }
    XorBitsProperties(a, b, 8);
    XorBits(a, b, 8)
  }

  /** Exclusive or with the same byte twice is the identity. */
  lemma XorTwice(a: byte, b: byte)
    ensures Xor(Xor(a, b), b) == a
  {
    assert Power2(8) == 256 by {
      assert Power2(4) == 16;
    }
    XorBitsProperties(a, b, 8);
  }
}
