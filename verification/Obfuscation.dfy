/** Recovering an obfuscated volume directory block (S_Deobfuscate in source/volume.cxx).
    What `read` returned for the password file is a parameter; None when it could not
    be read. */
module Obfuscation {
  import opened Bytes
  import opened Arithmetic

  /** The zero-filled password buffer once the file was read and a final newline dropped,
      or None when the password is unusable. */
  function KeyBuffer(password: Option<bytes>): (buffer: Option<bytes>)
    requires password.Some? ==> |password.value| < 32
    ensures buffer.Some? ==> IsKeyBuffer(buffer.value)
  {
    if password.None? || password.value == [] then None else
      var raw := password.value;
      var key := if raw[|raw| - 1] == LF then raw[..|raw| - 1] else raw;
      if |key| < 2 then None else Some(key + Zeros(32 - |key|))
  }

  predicate IsKeyBuffer(buffer: bytes) {
    |buffer| == 32 && buffer[32 - 1] == 0
  }

  /** The first NUL at or after `from`. */
  function FirstNul(buffer: bytes, from: nat): (at: nat)
    requires IsKeyBuffer(buffer) && from < 32
    ensures from <= at < 32 && buffer[at] == 0
    ensures forall i :: from <= i < at ==> buffer[i] != 0
    decreases 32 - from
  {
    if buffer[from] == 0 then from else FirstNul(buffer, from + 1)
  }

  /** How many password characters are used before the first is used again. */
  function Period(buffer: bytes): (n: nat)
    requires IsKeyBuffer(buffer)
    ensures 1 <= n < 32 - 1
  {
    FirstNul(buffer, 2) - 1
  }

  /** The keystream depends on the position alone. */
  function KeyByte(buffer: bytes, i: nat): byte
    requires IsKeyBuffer(buffer)
  {
    Xor(buffer[Wrap(i, Period(buffer))], 0x7F)
  }

  function Deobfuscated(buffer: bytes, cipher: bytes): (plain: bytes)
    requires IsKeyBuffer(buffer)
    ensures |plain| == |cipher|
    ensures forall i :: 0 <= i < |cipher| ==> plain[i] == Xor(cipher[i], KeyByte(buffer, i))
  {
    seq(|cipher|, i requires 0 <= i < |cipher| => Xor(cipher[i], KeyByte(buffer, i)))
  }

  /** The pointer into the password is reset one character early, so it always stays
      inside the buffer and the last password character is never used. */
  method Deobfuscate(cipher: bytes, password: Option<bytes>) returns (plain: Option<bytes>)
    requires |cipher| == 512
    requires password.Some? ==> |password.value| < 32
    ensures plain.Some? <==> KeyBuffer(password).Some?
    ensures plain.Some? ==> plain.value == Deobfuscated(KeyBuffer(password).value, cipher)
  {
    var n := if password.None? then -1 else |password.value|;
    if n <= 0 {
      return None;
    }
    var passwd := password.value + Zeros(32 - n);
    if passwd[n - 1] == LF {
      passwd := passwd[n - 1 := 0];
      n := n - 1;
    }
    if n < 2 {
      return None;
    }
    assert passwd == KeyBuffer(password).value;
    var buffer := new byte[512];
    ghost var period := Period(passwd);
    var ptr := 0;
    var i := 0;
    while i < 512
      invariant 0 <= i <= 512
      invariant ptr == Wrap(i, period) < period
      invariant forall j :: 0 <= j < i ==> buffer[j] == Xor(cipher[j], KeyByte(passwd, j))
    {
      buffer[i] := Xor(cipher[i], Xor(passwd[ptr], 0x7F));
      ptr := ptr + 1;
      if passwd[ptr + 1] == 0 {
        ptr := 0;
      }
      WrapNext(i, period);
      i := i + 1;
    }
    assert buffer[..] == Deobfuscated(passwd, cipher);
    return Some(buffer[..]);
  }

  /** Obfuscating and recovering are the same operation. */
  lemma DeobfuscatedTwice(buffer: bytes, b: bytes)
    requires IsKeyBuffer(buffer)
    ensures Deobfuscated(buffer, Deobfuscated(buffer, b)) == b
  {
    forall i | 0 <= i < |b| ensures Deobfuscated(buffer, Deobfuscated(buffer, b))[i] == b[i] {
      XorTwice(b[i], KeyByte(buffer, i));
    }
  }

  /** Which passwords can be used: two characters at least, a newline at the end aside. */
  lemma UsablePasswords(password: bytes)
    requires |password| < 32
    ensures var n := if |password| > 0 && password[|password| - 1] == 10 then |password| - 1 else |password|;
      (KeyBuffer(Some(password)).Some? <==> n >= 2) &&
      (n >= 2 ==> KeyBuffer(Some(password)).value == password[..n] + Zeros(32 - n))
    ensures KeyBuffer(None) == None
  {
    assert password[..|password|] == password;
  }

  /** A password file: the password, and possibly a newline behind it. */
  function PasswordFile(key: bytes, last: byte, newline: bool): bytes {
    if newline then key + [last] + [LF] else key + [last]
  }

  /** One newline at the end is dropped; a password cannot end in one otherwise. */
  predicate IsPassword(key: bytes, last: byte, newline: bool) {
    1 <= |key| && |PasswordFile(key, last, newline)| < 32 && 0 !in key && last != 0 && (newline || last != LF)
  }

  /** For a NUL-free password of n characters the period is n - 1, so two passwords that
      differ only in their last character recover the same block. */
  lemma LastCharacterIsIgnored(key: bytes, last: byte, newline: bool, other: byte, otherNewline: bool, cipher: bytes)
    requires IsPassword(key, last, newline) && IsPassword(key, other, otherNewline)
    ensures var b, c := KeyBuffer(Some(PasswordFile(key, last, newline))),
                        KeyBuffer(Some(PasswordFile(key, other, otherNewline)));
      b.Some? && c.Some? && Period(b.value) == |key| &&
      (forall i :: 0 <= i < |cipher| ==>
        Deobfuscated(b.value, cipher)[i] == Xor(cipher[i], Xor(key[i % |key|], 0x7F))) &&
      Deobfuscated(b.value, cipher) == Deobfuscated(c.value, cipher)
  {
    BufferOf(key, last, newline);
    BufferOf(key, other, otherNewline);
    var b, c := key + [last] + Zeros(31 - |key|), key + [other] + Zeros(31 - |key|);
    PeriodOf(b, key);
    PeriodOf(c, key);
    forall i | 0 <= i < |cipher|
      ensures Deobfuscated(b, cipher)[i] == Xor(cipher[i], Xor(key[i % |key|], 0x7F)) == Deobfuscated(c, cipher)[i]
    {
      WrapIsModulo(i, |key|);
      assert b[i % |key|] == key[i % |key|] == c[i % |key|];
    }
  }

  lemma BufferOf(key: bytes, last: byte, newline: bool)
    requires IsPassword(key, last, newline)
    ensures KeyBuffer(Some(PasswordFile(key, last, newline))) == Some(key + [last] + Zeros(31 - |key|))
  {
    var raw := PasswordFile(key, last, newline);
    assert newline ==> raw[..|raw| - 1] == key + [last];
  }

  lemma PeriodOf(b: bytes, key: bytes)
    requires IsKeyBuffer(b) && 1 <= |key| < 31 && 0 !in key
    requires (forall i :: 0 <= i < |key| ==> b[i] == key[i]) && b[|key|] != 0 && b[|key| + 1] == 0
    ensures Period(b) == |key|
  {
    assert forall i :: 2 <= i < |key| ==> b[i] == key[i] != 0;
    var at := FirstNul(b, 2);
    assert at == |key| + 1;
  }
}
