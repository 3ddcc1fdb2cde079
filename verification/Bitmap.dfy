/** Counting the blocks in use (CountBlocksUsed in source/volume.cxx). A set bit of the
    volume bitmap marks a free block. */
module Bitmap {
  import opened Bytes
  import opened Characters

  /** __builtin_popcount */
  function PopCount(b: nat): nat {
    if b == 0 then 0 else b % 2 + PopCount(b / 2)
  }

  /** b >> k */
  function Shifted(b: nat, k: nat): nat
    decreases k, b
  {
    if k == 0 then b else Shifted(b, k - 1) / 2
  }

  /** Bit k of a byte, the most significant bit being bit 0. */
  function BitOfByte(b: nat, k: nat): nat
    requires k < 8
  {
    Shifted(b, 7 - k) % 2
  }

  /** The sum of the popcounts of the first n bytes. */
  function PopSum(bits: bytes, n: nat): nat
    requires n <= |bits|
  {
    if n == 0 then 0 else PopSum(bits, n - 1) + PopCount(bits[n - 1])
  }

  /** Bit j of the bitmap stands for block j. */
  function Bit(bits: bytes, j: nat): nat
    requires j < 8 * |bits|
  {
    BitOfByte(bits[j / 8], j % 8)
  }

  /** The number of set bits among bits from .. end - 1. */
  function SetBits(bits: bytes, from: nat, end: nat): nat
    requires from <= end <= 8 * |bits|
    decreases end - from, |bits|
  {
    if from == end then 0 else SetBits(bits, from, end - 1) + Bit(bits, end - 1)
  }

  /** The number of clear bits among the first n. */
  function ClearBits(bits: bytes, n: nat): nat
    requires n <= 8 * |bits|
  {
    if n == 0 then 0 else ClearBits(bits, n - 1) + 1 - Bit(bits, n - 1)
  }

  lemma ByteShiftedOut(b: byte)
    ensures Shifted(b, 8) == 0
  {
    assert Shifted(b, 1) < 128;
    assert Shifted(b, 3) < 32;
    assert Shifted(b, 5) < 8;
    assert Shifted(b, 7) < 2;
  }

  lemma BitAt(bits: bytes, i: nat, k: nat)
    requires i < |bits| && k < 8
    ensures Bit(bits, 8 * i + k) == Shifted(bits[i], 7 - k) % 2
  {
  }

  lemma PopStep(x: nat)
    ensures PopCount(x) == x % 2 + PopCount(x / 2)
  {
  }

  lemma ShiftStep(b: nat, k: nat)
    ensures Shifted(b, k + 1) == Shifted(b, k) / 2
  {
  }

  lemma {:induction false} ShiftedIsHalved(b: nat, k: nat)
    ensures Shifted(b, k) == Halved(b, k)
    decreases k
  {
    if k > 0 {
      ShiftedIsHalved(b, k - 1);
      HalvedTwice(b, k - 1);
    }
  }

  /** Block j's bit is in byte j / 8; the most significant bit is the first block's. */
  lemma BitOrder(bits: bytes, j: nat)
    requires j < 8 * |bits|
    ensures Bit(bits, j) == BitOf(bits[j / 8], 7 - j % 8)
  {
    ShiftedIsHalved(bits[j / 8], 7 - j % 8);
    BitOfHalved(bits[j / 8], 7 - j % 8);
  }

  /** The first k bits of byte i: those of its value without the 8 - k low bits. */
  lemma {:induction false} ByteBits(bits: bytes, i: nat, k: nat, before: nat)
    requires i < |bits| && k <= 8 && before == SetBits(bits, 0, 8 * i)
    ensures SetBits(bits, 0, 8 * i + k) == before + PopCount(Shifted(bits[i], 8 - k))
    decreases k
  {
    if k == 0 {
      ByteShiftedOut(bits[i]);
    } else {
      ByteBits(bits, i, k - 1, before);
      BitAt(bits, i, k - 1);
      ShiftStep(bits[i], 8 - k);
      PopStep(Shifted(bits[i], 8 - k));
    }
  }

  lemma ByteIsEightBits(bits: bytes, i: nat)
    requires i < |bits|
    ensures SetBits(bits, 0, 8 * i + 8) == SetBits(bits, 0, 8 * i) + PopCount(bits[i])
  {
    ByteBits(bits, i, 8, SetBits(bits, 0, 8 * i));
  }

  lemma {:induction false} PopSumCountsBits(bits: bytes, n: nat)
    requires n <= |bits|
    ensures PopSum(bits, n) == SetBits(bits, 0, 8 * n)
  {
    if n > 0 {
      PopSumCountsBits(bits, n - 1);
      ByteIsEightBits(bits, n - 1);
    }
  }

  lemma {:induction false} SetBitsSplit(bits: bytes, at: nat, end: nat)
    requires at <= end <= 8 * |bits|
    ensures SetBits(bits, 0, end) == SetBits(bits, 0, at) + SetBits(bits, at, end)
    decreases end - at
  {
    if at < end {
      SetBitsSplit(bits, at, end - 1);
    }
  }

  lemma {:induction false} ClearAndSet(bits: bytes, n: nat)
    requires n <= 8 * |bits|
    ensures ClearBits(bits, n) + SetBits(bits, 0, n) == n
  {
    if n > 0 {
      ClearAndSet(bits, n - 1);
    }
  }

  /** No bit from .. end - 1 is set. */
  predicate AllClear(bits: bytes, from: nat, end: nat)
    requires from <= end <= 8 * |bits|
  {
    forall j :: from <= j < end ==> Bit(bits, j) == 0
  }

  lemma {:induction false} NoSetBits(bits: bytes, from: nat, end: nat)
    requires from <= end <= 8 * |bits|
    ensures SetBits(bits, from, end) == 0 <==> AllClear(bits, from, end)
    decreases end - from
  {
    if from < end {
      NoSetBits(bits, from, end - 1);
      assert AllClear(bits, from, end) <==> AllClear(bits, from, end - 1) && Bit(bits, end - 1) == 0;
    }
  }

  /** The loop adds 1 - popcount for each of n bytes where it means to add up n bits. What
      it returns is the number of clear bits among the first n exactly if none of the
      other bits it visits is set, and falls short by the number of those otherwise. */
  lemma CountIsRightIffRestClear(bits: bytes, n: nat)
    requires n <= |bits|
    ensures n - PopSum(bits, n) == ClearBits(bits, n) - SetBits(bits, n, 8 * n)
    ensures n - PopSum(bits, n) == ClearBits(bits, n) <==> AllClear(bits, n, 8 * n)
  {
    PopSumCountsBits(bits, n);
    SetBitsSplit(bits, n, 8 * n);
    ClearAndSet(bits, n);
    NoSetBits(bits, n, 8 * n);
  }
}
