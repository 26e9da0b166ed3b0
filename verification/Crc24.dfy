/**
 The bit-serial CRC24 of Mode S frames: long division in place, in a word buffer, by the 25-bit generator
 of ICAO Annex 10 Volume IV, section 3.1.2.3.3.
 */
module Crc24 {
  import opened Arith
  import opened Gf2
  import opened BitBuffer

  const MAX_PACKET_WORDS: nat := 4
  const MAX_PACKET_BITS: nat := 128

  /** The hexadecimal number 1FFF409. */
  function Generator24(): (g: Bits)
    ensures |g| == 25 && Generator(g) && g[24]
  {
    [true] + Hex(0xF) + Hex(0xF) + Hex(0xF) + Hex(0x4) + Hex(0x0) + Hex(0x9)
  }

  function XorWord(a: Word, b: Word): Word { Xor(a, b) }

  /** A frame of len bits with its parity field zeroed. */
  function ZeroPadded(s: Bits, len: nat): (m: Bits)
    requires 24 <= len <= |s|
    ensures |m| == len
  {
    s[..len - 24] + Zeros(24)
  }

  /** The CRC of a frame of len bits: the remainder of the zero-padded message. */
  function Crc(s: Bits, len: nat): (r: Bits)
    requires 24 <= len <= |s|
    ensures |r| == 24
  {
    Rem(ZeroPadded(s, len), Generator24())
  }

  lemma FieldBit(s: Bits, i: nat, j: nat)
    requires i + 25 <= |s| && j < 25
    ensures RightAligned(s[i..i + 25])[7 + j] == s[i + j]
  {
  }

  /** Where the generator is added to a field that reads as word. */
  lemma WrittenBit(s: Bits, word: Word, i: nat, k: nat)
    requires i + 25 <= |s| && k < |s|
    ensures WithField(s, 25, XorWord(word, RightAligned(Generator24())), i)[k]
         == if i <= k < i + 25 then word[7 + (k - i)] != Generator24()[k - i] else s[k]
  {
    hide Generator24;
  }

  lemma ReducedBit(m: Bits, g: Bits, j: nat)
    requires Generator(g) && |m| >= |g| && j < |m| - 1
    ensures Reduce(m, g)[j] == if m[0] && j + 1 < |g| then m[j + 1] != g[j + 1] else m[j + 1]
  {
  }

  lemma RemSteps(m: Bits, g: Bits)
    requires Generator(g) && |m| >= |g|
    ensures Rem(m, g) == Rem(Reduce(m, g), g)
  {
  }

  /** Adding the generator where the leading bit is set is one step of long division. */
  lemma DividedOnce(s: Bits, t: Bits, i: nat, len: nat, g: Bits)
    requires Generator(g) && |g| == 25 && i + 25 <= len <= |s| == |t|
    requires forall k :: 0 <= k < |s| ==> t[k] == if s[i] && i <= k < i + 25 then s[k] != g[k - i] else s[k]
    ensures t[..i] == s[..i] && !t[i] && t[i + 1..len] == Reduce(s[i..len], g)
    ensures Rem(t[i + 1..len], g) == Rem(s[i..len], g)
  {
    var m, r := s[i..len], Reduce(s[i..len], g);
    hide Reduce;
    forall j | 0 <= j < len - i - 1
      ensures t[i + 1..len][j] == r[j]
    {
      ReducedBit(m, g, j);
      assert t[i + 1..len][j] == t[i + 1 + j] && m[j + 1] == s[i + 1 + j];
    }
    assert t[i + 1..len] == r;
    RemSteps(m, g);
  }

  /** One turn of the loop leaves the remainder of what is still uncleared unchanged. */
  lemma TurnKeepsRemainder(s: Bits, t: Bits, i: nat, len: nat, word: Word)
    requires i + 25 <= len <= |s| && |t| == |s|
    requires word == RightAligned(s[i..i + 25])
    requires t == if word[7] then WithField(s, 25, XorWord(word, RightAligned(Generator24())), i) else s
    ensures t[..i] == s[..i] && !t[i]
    ensures Rem(t[i + 1..len], Generator24()) == Rem(s[i..len], Generator24())
  {
    hide Generator24, WithField, RightAligned, Reduce, Rem, XorWord;
    var g := Generator24();
    FieldBit(s, i, 0);
    forall k | 0 <= k < |s|
      ensures t[k] == if s[i] && i <= k < i + 25 then s[k] != g[k - i] else s[k]
    {
      if i <= k < i + 25 {
        FieldBit(s, i, k - i);
      }
      if word[7] {
        WrittenBit(s, word, i, k);
      }
    }
    DividedOnce(s, t, i, len, g);
  }

  lemma PaddingWritten(s: Bits, t: Bits, len: nat)
    requires 24 <= len <= |s| && t == WithField(s, 24, ZeroWord(), len - 24)
    ensures t[..len] == ZeroPadded(s, len)
  {
  }

  /** The loop divides the zero-padded frame in place, clearing it from the left, and what is left is the CRC. */
  method CalculateCRC24(raw: seq<Word>, len: uint16) returns (crc: Word)
    requires |raw| == MAX_PACKET_WORDS && 24 <= len <= MAX_PACKET_BITS
    ensures crc == RightAligned(Crc(Stream(raw), len))
  {
    hide Stream, WithField, RightAligned, Generator24, Rem, ZeroPadded;
    var buffer := new Word[MAX_PACKET_WORDS](_ => ZeroWord());
    for i := 0 to MAX_PACKET_WORDS
      invariant buffer[..i] == raw[..i]
    {
      buffer[i] := raw[i];
    }
    assert buffer[..] == raw;
    SetNBitsInWordBuffer(24, ZeroWord(), len - 24, buffer);
    PaddingWritten(Stream(raw), Stream(buffer[..]), len);
    ghost var g := Generator24();
    assert Stream(buffer[..])[0..len] == Stream(buffer[..])[..len];
    for i: uint16 := 0 to len - 24
      invariant forall k :: 0 <= k < i ==> !Stream(buffer[..])[k]
      invariant Rem(Stream(buffer[..])[i..len], g) == Crc(Stream(raw), len)
    {
      ghost var s := Stream(buffer[..]);
      var word := GetNBitsFromWordBuffer(25, i, buffer[..]);
      if word[7] {
        SetNBitsInWordBuffer(25, XorWord(word, RightAligned(Generator24())), i, buffer);
      }
      TurnKeepsRemainder(s, Stream(buffer[..]), i, len, word);
      assert forall k :: 0 <= k < i ==> Stream(buffer[..])[k] == Stream(buffer[..])[..i][k];
    }
    crc := GetNBitsFromWordBuffer(24, len - 24, buffer[..]);
    ShortRemainder(Stream(buffer[..])[len - 24..len], g);
  }

  /** The CRC is the one value of its degree that the zero-padded frame is congruent to. */
  lemma CrcIsCongruent(s: Bits, len: nat, r: Bits)
    requires 24 <= len <= |s| && |r| == 24
    ensures Congruent(ZeroPadded(s, len), r, Generator24()) <==> r == Crc(s, len)
  {
    hide Generator24, Congruent;
    CongruentIsRem(ZeroPadded(s, len), r, Generator24());
  }

  /** The CRC of the XOR of two frames is the XOR of their CRCs. */
  lemma CrcOfXor(a: Bits, b: Bits, len: nat)
    requires 24 <= len <= |a| == |b|
    ensures Crc(Xor(a, b), len) == Xor(Crc(a, len), Crc(b, len))
  {
    hide Generator24;
    assert ZeroPadded(Xor(a, b), len) == Xor(ZeroPadded(a, len), ZeroPadded(b, len));
    RemLinear(ZeroPadded(a, len), ZeroPadded(b, len), Generator24());
  }

  /** The parity field equals the CRC exactly when the whole frame is a multiple of the generator. */
  lemma ParityMatchesExactly(s: Bits, len: nat)
    requires 24 <= len <= |s|
    ensures s[len - 24..len] == Crc(s, len) <==> Rem(s[..len], Generator24()) == Zeros(24)
  {
    hide Generator24, Rem;
    var parity, g := s[len - 24..len], Generator24();
    var shifted := Zeros(len - 24) + parity;
    assert s[..len] == Xor(ZeroPadded(s, len), shifted);
    RemLinear(ZeroPadded(s, len), shifted, g);
    LeadingZeros(len - 24, parity, g);
    ShortRemainder(parity, g);
    XorIsZero(Crc(s, len), parity);
  }

  /** A frame with a right parity field and a burst of errors within 24 bits no longer has one. */
  lemma BurstDetected(s: Bits, t: Bits, len: nat, at: nat)
    requires 24 <= len <= |s| == |t| && at + 24 <= len
    requires s[len - 24..len] == Crc(s, len)
    requires t[..at] == s[..at] && t[at + 24..len] == s[at + 24..len]
    ensures t[len - 24..len] == Crc(t, len) <==> t[..len] == s[..len]
  {
    hide Generator24, Rem;
    var g := Generator24();
    ParityMatchesExactly(s, len);
    ParityMatchesExactly(t, len);
    assert s[..len][..at] == s[..at] && t[..len][..at] == t[..at];
    assert s[..len][at + 24..] == s[at + 24..len] && t[..len][at + 24..] == t[at + 24..len];
    if Rem(s[..len], g) == Rem(t[..len], g) {
      WindowError(s[..len], t[..len], at, g);
    }
  }
}
