/** What the character functions of the C library do, letter by letter, and exclusive or,
    bit by bit. */
module Characters {
  import opened Bytes
  import opened Arithmetic
  import opened Layout

  const LOWER := "abcdefghijklmnopqrstuvwxyz"
  const UPPER := "ABCDEFGHIJKLMNOPQRSTUVWXYZ"
  const DIGITS := "0123456789"

  // ----- letters -----

  /** c is the k-th character of `alphabet`. */
  predicate IsAt(c: byte, alphabet: string, k: nat) {
    k < |alphabet| && c == alphabet[k] as int
  }

  ghost predicate IsIn(c: byte, alphabet: string) {
    exists k: nat :: IsAt(c, alphabet, k)
  }

  lemma Alphabets(k: nat)
    requires k < 26
    ensures |LOWER| == |UPPER| == 26 && LOWER[k] as int == 0x61 + k && UPPER[k] as int == 0x41 + k
  {
  }

  lemma Digits(k: nat)
    requires k < 10
    ensures |DIGITS| == 10 && DIGITS[k] as int == 0x30 + k
  {
  }

  /** An alphabet that begins at `first` and goes on without gaps. */
  lemma {:induction false} RangeOf(c: byte, alphabet: string, first: nat)
    requires forall k {:trigger alphabet[k]} :: 0 <= k < |alphabet| ==> alphabet[k] as int == first + k
    ensures IsIn(c, alphabet) <==> first <= c < first + |alphabet|
  {
    if first <= c < first + |alphabet| {
      assert IsAt(c, alphabet, c - first);
    }
  }

  lemma WhatLettersAre(c: byte)
    ensures IsIn(c, LOWER) <==> 0x61 <= c <= 0x7A
    ensures IsIn(c, UPPER) <==> 0x41 <= c <= 0x5A
    ensures IsIn(c, DIGITS) <==> 0x30 <= c <= 0x39
  {
    forall k {:trigger LOWER[k]} {:trigger UPPER[k]} | 0 <= k < 26
      ensures LOWER[k] as int == 0x61 + k && UPPER[k] as int == 0x41 + k
    {
      Alphabets(k);
    }
    forall k {:trigger DIGITS[k]} | 0 <= k < 10 ensures DIGITS[k] as int == 0x30 + k {
      Digits(k);
    }
    Alphabets(0);
    Digits(0);
    RangeOf(c, LOWER, 0x61);
    RangeOf(c, UPPER, 0x41);
    RangeOf(c, DIGITS, 0x30);
  }

  /** toupper takes every small letter to its capital and leaves everything else. */
  lemma CapitalLetters(c: byte)
    ensures forall k: nat {:trigger IsAt(c, LOWER, k)} :: IsAt(c, LOWER, k) ==> ToUpper(c) == UPPER[k] as int
    ensures !IsIn(c, LOWER) ==> ToUpper(c) == c
  {
    WhatLettersAre(c);
    forall k: nat {:trigger IsAt(c, LOWER, k)} | IsAt(c, LOWER, k) ensures ToUpper(c) == UPPER[k] as int {
      Alphabets(k);
    }
  }

  lemma WhatUpperIs(s: bytes)
    ensures |Upper(s)| == |s|
    ensures forall i :: 0 <= i < |s| ==> Upper(s)[i] == if 0x61 <= s[i] <= 0x7A then s[i] - 0x20 else s[i]
  {
  }

  /** Equal, or the two cases of one letter. */
  ghost predicate SameLetter(c: byte, d: byte) {
    c == d || exists k: nat :: (IsAt(c, LOWER, k) && IsAt(d, UPPER, k)) || (IsAt(c, UPPER, k) && IsAt(d, LOWER, k))
  }

  lemma SameLetterIff(c: byte, d: byte)
    ensures SameLetter(c, d) <==> ToUpper(c) == ToUpper(d)
  {
    if k: nat :| (IsAt(c, LOWER, k) && IsAt(d, UPPER, k)) || (IsAt(c, UPPER, k) && IsAt(d, LOWER, k)) {
      Alphabets(k);
    }
    if ToUpper(c) == ToUpper(d) && c != d {
      var k := if c < d then c - 0x41 else d - 0x41;
      Alphabets(k);
      assert (IsAt(c, LOWER, k) && IsAt(d, UPPER, k)) || (IsAt(c, UPPER, k) && IsAt(d, LOWER, k));
    }
  }

  /** Names match, whatever their case, exactly if they do letter by letter. */
  lemma SameIgnoringCaseIff(a: bytes, b: bytes)
    requires 0 !in a && 0 !in b
    ensures SameIgnoringCase(a, b) <==> |a| == |b| && forall i :: 0 <= i < |a| ==> SameLetter(a[i], b[i])
  {
    CStrOfNulFree(a);
    CStrOfNulFree(b);
    forall i | 0 <= i < |a| && i < |b| ensures SameLetter(a[i], b[i]) <==> Upper(a)[i] == Upper(b)[i] {
      SameLetterIff(a[i], b[i]);
    }
    assert |Upper(a)| == |a| && |Upper(b)| == |b|;
    if |a| == |b| && forall i :: 0 <= i < |a| ==> SameLetter(a[i], b[i]) {
      assert Upper(a) == Upper(b);
    }
  }

  /** A name is legal exactly if it is a letter and then up to 14 letters, digits and dots. */
  lemma LegalNames(name: bytes)
    ensures LegalName(name) <==>
      1 <= |name| <= 15 && (IsIn(name[0], LOWER) || IsIn(name[0], UPPER)) &&
      forall i :: 1 <= i < |name| ==>
        IsIn(name[i], LOWER) || IsIn(name[i], UPPER) || IsIn(name[i], DIGITS) || name[i] == '.' as int
  {
    forall i | 0 <= i < |name|
      ensures IsAlpha(name[i]) <==> IsIn(name[i], LOWER) || IsIn(name[i], UPPER)
      ensures IsAlnum(name[i]) <==> IsIn(name[i], LOWER) || IsIn(name[i], UPPER) || IsIn(name[i], DIGITS)
    {
      WhatLettersAre(name[i]);
    }
  }

  // ----- exclusive or -----

  /** x / 2, k times. */
  function Halved(x: nat, k: nat): nat
    decreases k, x
  {
    if k == 0 then x else Halved(x / 2, k - 1)
  }

  lemma {:induction false} XorBitsAt(a: nat, b: nat, width: nat, k: nat)
    requires k < width
    ensures Halved(XorBits(a, b, width), k) % 2 == if Halved(a, k) % 2 != Halved(b, k) % 2 then 1 else 0
    decreases k
  {
    var x := XorBits(a, b, width);
    assert x / 2 == XorBits(a / 2, b / 2, width - 1);
    if k > 0 {
      XorBitsAt(a / 2, b / 2, width - 1, k - 1);
    }
  }

  /** Bit k of a byte, the least significant one being bit 0. */
  function BitOf(x: byte, k: nat): nat
    requires k < 8
  {
    match k
    case 0 => x % 2
    case 1 => x / 2 % 2
    case 2 => x / 4 % 2
    case 3 => x / 8 % 2
    case 4 => x / 16 % 2
    case 5 => x / 32 % 2
    case 6 => x / 64 % 2
    case 7 => x / 128 % 2
  }

  lemma {:induction false} HalvedTwice(x: nat, k: nat)
    ensures Halved(x, k + 1) == Halved(x, k) / 2
    decreases k
  {
    if k > 0 {
      HalvedTwice(x / 2, k - 1);
    }
  }

  lemma HalvedIsQuotient(x: nat, k: nat, d: nat)
    requires k < 8 && d == [1, 2, 4, 8, 16, 32, 64, 128][k]
    ensures Halved(x, k) == x / d
    decreases k
  {
    if k == 0 {
      assert Halved(x, 0) == x;
    } else {
      HalvedIsQuotient(x, k - 1, d / 2);
      HalvedTwice(x, k - 1);
      HalfQuotient(x, d / 2);
    }
  }

  lemma BitOfHalved(x: byte, k: nat)
    requires k < 8
    ensures BitOf(x, k) == Halved(x, k) % 2
  {
    HalvedIsQuotient(x, k, [1, 2, 4, 8, 16, 32, 64, 128][k]);
  }

  /** Exclusive or flips exactly the bits of a that are set in b. */
  lemma XorFlips(a: byte, b: byte, k: nat)
    requires k < 8
    ensures BitOf(Xor(a, b), k) != BitOf(a, k) <==> BitOf(b, k) == 1
  {
    XorBitsAt(a, b, 8, k);
    BitOfHalved(Xor(a, b), k);
    BitOfHalved(a, k);
    BitOfHalved(b, k);
  }

  lemma NextBit(x: byte, k: nat)
    requires k < 8
    ensures Halved(x, k) == 2 * Halved(x, k + 1) + BitOf(x, k)
  {
    BitOfHalved(x, k);
    HalvedTwice(x, k);
  }

  lemma FourBits(x: byte, k: nat)
    requires k <= 4
    ensures Halved(x, k) ==
      BitOf(x, k) + 2 * BitOf(x, k + 1) + 4 * BitOf(x, k + 2) + 8 * BitOf(x, k + 3) + 16 * Halved(x, k + 4)
  {
    NextBit(x, k);
    NextBit(x, k + 1);
    NextBit(x, k + 2);
    NextBit(x, k + 3);
  }

  lemma NothingLeft(x: byte)
    ensures Halved(x, 0) == x && Halved(x, 8) == 0
  {
    HalvedIsQuotient(x, 7, 128);
    HalvedTwice(x, 7);
  }

  function Bits(x: byte): (bits: seq<nat>)
    ensures |bits| == 8 && forall k :: 0 <= k < 8 ==> bits[k] == BitOf(x, k)
  {
    seq<nat>(8, k requires 0 <= k < 8 => BitOf(x, k))
  }

  function FromBits(bits: seq<nat>): nat
    requires |bits| == 8
  {
    bits[0] + 2 * bits[1] + 4 * bits[2] + 8 * bits[3] + 16 * bits[4] + 32 * bits[5] + 64 * bits[6] + 128 * bits[7]
  }

  /** The bits make up the byte, so XorFlips says all about it. */
  lemma BitsMakeByte(x: byte)
    ensures FromBits(Bits(x)) == x
  {
    FourBits(x, 0);
    FourBits(x, 4);
    NothingLeft(x);
  }

  lemma SameBits(x: byte, y: byte)
    requires Bits(x) == Bits(y)
    ensures x == y
  {
    BitsMakeByte(x);
    BitsMakeByte(y);
  }

  lemma XorBit(a: byte, b: byte, k: nat)
    requires k < 8
    ensures BitOf(Xor(a, b), k) == (BitOf(a, k) + BitOf(b, k)) % 2
  {
    XorFlips(a, b, k);
  }

  lemma XorIs(a: byte, b: byte, x: byte)
    requires forall k: nat {:trigger BitOf(x, k)} :: k < 8 ==> BitOf(x, k) == (BitOf(a, k) + BitOf(b, k)) % 2
    ensures Xor(a, b) == x
  {
    ghost var y :| y == Xor(a, b);
    forall k | 0 <= k < 8 ensures Bits(y)[k] == Bits(x)[k] {
      XorBit(a, b, k);
    }
    assert Bits(y) == Bits(x);
    SameBits(x, y);
  }
}
