/**
 The shift-and-xor CRC-16 of the coprocessor link is polynomial division, bit by bit, by
 x^16 + x^12 + x^5 + 1 (the FCS-16 polynomial of RFC 1662, appendix C.2, unreflected) with the register
 preset to ones.  A uint16_t and a uint8_t are strings of 16 and 8 bits, most significant first.
 */
module Crc16 {
  import opened Arith
  import opened Gf2
  import opened BitBuffer

  type Register = r: Bits | |r| == 16 witness seq(16, _ => false)

  /** The hexadecimal number 11021: the generator of degree 16. */
  function Generator16(): (g: Bits)
    ensures |g| == 17 && Generator(g) && g[16]
  {
    [true] + Hex(0x1) + Hex(0x0) + Hex(0x2) + Hex(0x1)
  }

  function Ones16(): Register { seq(16, _ => true) }

  function ShiftLeft(a: Bits, k: nat): (r: Bits)
    ensures |r| == |a|
  {
    seq(|a|, i requires 0 <= i < |a| => if i + k < |a| then a[i + k] else false)
  }

  function ShiftRight(a: Bits, k: nat): (r: Bits)
    ensures |r| == |a|
  {
    seq(|a|, i requires 0 <= i < |a| => if i >= k then a[i - k] else false)
  }

  function Widen16(b: Octet): Register { Zeros(8) + b }

  function LowOctet(r: Register): Octet { r[8..] }

  /** The folded byte: its high half added to its low half. */
  function Fold(x: Octet): Octet { Xor(x, ShiftRight(x, 4)) }

  /** The body of the CalculateCRC16 loop. */
  function ByteStep(crc: Register, b: Octet): Register {
    var x: Octet := Xor(LowOctet(ShiftRight(crc, 8)), b);
    var w := Widen16(Fold(x));
    Xor(Xor(Xor(ShiftLeft(crc, 8), ShiftLeft(w, 12)), ShiftLeft(w, 5)), w)
  }

  /** One step of bit-serial division: a zero shifted in behind the register. */
  function BitStep(s: Register): Register { Reduce(s + [false], Generator16()) }

  /** Four such steps in closed form: the bits that leave come back three times over. */
  function FourBits(s: Register): Register {
    [s[4] != s[0], s[5] != s[1], s[6] != s[2], s[7] != s[3], s[8], s[9], s[10], s[11] != s[0],
     s[12] != s[1], s[13] != s[2], s[14] != s[3], s[15], s[0], s[1], s[2], s[3]]
  }

  lemma BitStepBits(s: Register)
    ensures BitStep(s) == [s[1], s[2], s[3], s[4] != s[0], s[5], s[6], s[7], s[8], s[9], s[10], s[11] != s[0],
                           s[12], s[13], s[14], s[15], s[0]]
  {
  }

  lemma FourBitSteps(s: Register)
    ensures BitStep(BitStep(BitStep(BitStep(s)))) == FourBits(s)
  {
    hide BitStep;
    BitStepBits(s);
    BitStepBits(BitStep(s));
    BitStepBits(BitStep(BitStep(s)));
    BitStepBits(BitStep(BitStep(BitStep(s))));
  }

  function EightBitSteps(s: Register): Register {
    BitStep(BitStep(BitStep(BitStep(BitStep(BitStep(BitStep(BitStep(s))))))))
  }

  /** Bit j of the sum that ByteStep forms of the shifted register and the folded byte y. */
  function FoldedBit(crc: Register, y: Octet, j: nat): bool
    requires j < 16
  {
    (((j < 8 && crc[j + 8]) != (j < 4 && y[j + 4])) != (3 <= j < 11 && y[j - 3])) != (j >= 8 && y[j - 8])
  }

  lemma FoldedAt(crc: Register, y: Octet, j: nat)
    requires j < 16
    ensures var w := Widen16(y);
            Xor(Xor(Xor(ShiftLeft(crc, 8), ShiftLeft(w, 12)), ShiftLeft(w, 5)), w)[j] == FoldedBit(crc, y, j)
  {
    var w := Widen16(y);
    assert ShiftLeft(w, 12)[j] == (j < 4 && y[j + 4]);
    assert ShiftLeft(w, 5)[j] == (3 <= j < 11 && y[j - 3]);
    assert w[j] == (j >= 8 && y[j - 8]);
    hide Widen16, ShiftLeft;
  }

  lemma FoldAt(x: Octet, i: nat)
    requires i < 8
    ensures Fold(x)[i] == if i < 4 then x[i] else x[i] != x[i - 4]
  {
  }

  lemma FourBitAt(s: Register, j: nat)
    requires j < 16
    ensures FourBits(s)[j]
         == ((j < 12 && s[j + 4]) != (if j < 4 then s[j] else if 7 <= j < 11 then s[j - 7] else j >= 12 && s[j - 12]))
  {
  }

  lemma EightBitAt(s: Register, x: Octet, crc: Register, j: nat)
    requires forall i :: 0 <= i < 8 ==> s[i] == x[i]
    requires forall i :: 8 <= i < 16 ==> s[i] == crc[i]
    requires j < 16
    ensures FourBits(FourBits(s))[j] == FoldedBit(crc, Fold(x), j)
  {
    hide FourBits, Fold;
    var v := FourBits(s);
    FourBitAt(v, j);
    if j < 12 { FourBitAt(s, j + 4); }
    if j < 4 { FourBitAt(s, j); FoldAt(x, j + 4); }
    if 7 <= j < 11 { FourBitAt(s, j - 7); }
    if j >= 12 { FourBitAt(s, j - 12); }
    if 3 <= j < 11 { FoldAt(x, j - 3); }
    if j >= 8 { FoldAt(x, j - 8); }
  }

  lemma FoldedByte(crc: Register, b: Octet)
    ensures FourBits(FourBits(XorFront(crc, b))) == ByteStep(crc, b)
  {
    hide FourBits, Fold, FoldedBit;
    var x: Octet := Xor(LowOctet(ShiftRight(crc, 8)), b);
    var u := XorFront(crc, b);
    assert forall i :: 0 <= i < 8 ==> u[i] == x[i];
    assert forall i :: 8 <= i < 16 ==> u[i] == crc[i];
    forall j | 0 <= j < 16
      ensures FourBits(FourBits(u))[j] == ByteStep(crc, b)[j]
    {
      EightBitAt(u, x, crc, j);
      FoldedAt(crc, Fold(x), j);
    }
  }

  /** The shift-and-xor step does the work of eight single-bit steps. */
  lemma ByteIsEightBits(crc: Register, b: Octet)
    ensures ByteStep(crc, b) == EightBitSteps(XorFront(crc, b))
  {
    hide BitStep, FourBits, ByteStep;
    FoldedByte(crc, b);
    FourBitSteps(XorFront(crc, b));
    FourBitSteps(FourBits(XorFront(crc, b)));
  }

  /** The register after the bytes, starting from crc. */
  function RegisterAfter(crc: Register, bytes: seq<Octet>): Register
    decreases |bytes|
  {
    if bytes == [] then crc else RegisterAfter(ByteStep(crc, bytes[0]), bytes[1..])
  }

  function Swap16(v: Register): Register {
    seq(16, i requires 0 <= i < 16 => ShiftLeft(v, 8)[i] || ShiftRight(v, 8)[i])
  }

  method CalculateCRC16(buf: seq<Octet>, len: int32) returns (crc: Register)
    requires len <= |buf|
    ensures crc == if len < 0 then Zeros(16) else Swap16(RegisterAfter(Ones16(), buf[..len]))
  {
    hide ByteStep;
    if len < 0 {
      return Zeros(16);
    }
    var at, remaining: int := 0, len;
    crc := Ones16();
    assert buf[0..len] == buf[..len];
    while remaining > 0
      invariant 0 <= remaining && at + remaining == len
      invariant RegisterAfter(crc, buf[at..len]) == RegisterAfter(Ones16(), buf[..len])
    {
      assert buf[at..len][1..] == buf[at + 1..len];
      crc := ByteStep(crc, buf[at]);
      at, remaining := at + 1, remaining - 1;
    }
    crc := Swap16(crc);
  }

  // ----- Division -----

  /** Dividing out one leading zero steps the register that is added to the front of the message. */
  lemma ZeroStep(m: Bits, s: Register)
    requires |m| >= 16
    ensures Rem(XorFront([false] + m, s), Generator16()) == Rem(XorFront(m, BitStep(s)), Generator16())
  {
    hide Generator16;
    var a, b := XorFront([false] + m, s), XorFront(m, BitStep(s));
    forall i | 0 <= i < |m|
      ensures Reduce(a, Generator16())[i] == b[i]
    {
    }
    assert Reduce(a, Generator16()) == b;
  }

  lemma ZeroSteps(m: Bits, s: Register)
    requires |m| >= 16
    ensures Rem(XorFront(Zeros(8) + m, s), Generator16()) == Rem(XorFront(m, EightBitSteps(s)), Generator16())
  {
    hide BitStep, Rem, XorFront, Generator16;
    var s1 := BitStep(s);
    var s2 := BitStep(s1);
    var s3 := BitStep(s2);
    var s4 := BitStep(s3);
    var s5 := BitStep(s4);
    var s6 := BitStep(s5);
    var s7 := BitStep(s6);
    ZeroStep(Zeros(7) + m, s);
    ZeroStep(Zeros(6) + m, s1);
    ZeroStep(Zeros(5) + m, s2);
    ZeroStep(Zeros(4) + m, s3);
    ZeroStep(Zeros(3) + m, s4);
    ZeroStep(Zeros(2) + m, s5);
    ZeroStep(Zeros(1) + m, s6);
    ZeroStep(m, s7);
    assert [false] + (Zeros(7) + m) == Zeros(8) + m && [false] + (Zeros(6) + m) == Zeros(7) + m;
    assert [false] + (Zeros(5) + m) == Zeros(6) + m && [false] + (Zeros(4) + m) == Zeros(5) + m;
    assert [false] + (Zeros(3) + m) == Zeros(4) + m && [false] + (Zeros(2) + m) == Zeros(3) + m;
    assert [false] + (Zeros(1) + m) == Zeros(2) + m && [false] + m == Zeros(1) + m;
  }

  /** Reading one byte in the register divides it out of the message. */
  lemma ByteDivided(b: Octet, m: Bits, s: Register)
    requires |m| >= 16
    ensures Rem(XorFront(b + m, s), Generator16()) == Rem(XorFront(m, ByteStep(s, b)), Generator16())
  {
    hide Rem, Generator16, ByteStep, EightBitSteps;
    ByteIsEightBits(s, b);
    ZeroSteps(m, XorFront(s, b));
    assert XorFront(b + m, s) == XorFront(Zeros(8) + m, XorFront(s, b));
  }

  /** The bits of a byte string, most significant bit of each byte first. */
  function BytesBits(bytes: seq<Octet>): (s: Bits)
    ensures |s| == 8 * |bytes|
    decreases |bytes|
  {
    if bytes == [] then [] else bytes[0] + BytesBits(bytes[1..])
  }

  /** The register after any number of bytes stands for the whole message divided so far. */
  lemma {:induction false} RegisterDivides(bytes: seq<Octet>, m: Bits, s: Register)
    requires |m| >= 16
    ensures Rem(XorFront(BytesBits(bytes) + m, s), Generator16())
         == Rem(XorFront(m, RegisterAfter(s, bytes)), Generator16())
    decreases |bytes|
  {
    hide Rem, Generator16, ByteStep, XorFront;
    if bytes == [] {
      assert BytesBits(bytes) + m == m;
    } else {
      var rest := BytesBits(bytes[1..]) + m;
      assert BytesBits(bytes) + m == bytes[0] + rest;
      ByteDivided(bytes[0], rest, s);
      RegisterDivides(bytes[1..], m, ByteStep(s, bytes[0]));
    }
  }

  /** For every length, the CRC register is the remainder of the message with 16 zeros behind it and its
      first 16 bits inverted. */
  lemma RegisterIsRemainder(bytes: seq<Octet>)
    ensures RegisterAfter(Ones16(), bytes) == Rem(XorFront(BytesBits(bytes) + Zeros(16), Ones16()), Generator16())
  {
    hide Generator16, ByteStep;
    RegisterDivides(bytes, Zeros(16), Ones16());
    assert XorFront(Zeros(16), RegisterAfter(Ones16(), bytes)) == RegisterAfter(Ones16(), bytes);
  }

  // ----- Frames -----

  /** The two bytes of a CRC in memory: CalculateCRC16 swaps them, the little-endian store swaps them back. */
  function StoredCrc(v: Register): (b: seq<Octet>)
    ensures |b| == 2
  {
    [v[8..], v[..8]]
  }

  /** The remainder of a whole frame, CRC included, with its first 16 bits inverted. */
  function Residue(frame: seq<Octet>): (r: Register)
    requires |frame| >= 2
  {
    Rem(XorFront(BytesBits(frame), Ones16()), Generator16())
  }

  /** The last two bytes are the stored CRC of the bytes before them. */
  predicate CrcMatches(frame: seq<Octet>)
    requires |frame| >= 2
  {
    frame[|frame| - 2..] == StoredCrc(Swap16(RegisterAfter(Ones16(), frame[..|frame| - 2])))
  }

  lemma {:induction false} BytesBitsConcat(a: seq<Octet>, b: seq<Octet>)
    ensures BytesBits(a + b) == BytesBits(a) + BytesBits(b)
    decreases |a|
  {
    if a == [] {
      assert a + b == b;
    } else {
      BytesBitsConcat(a[1..], b);
      assert (a + b)[1..] == a[1..] + b;
      assert (a[0] + BytesBits(a[1..])) + BytesBits(b) == a[0] + (BytesBits(a[1..]) + BytesBits(b));
    }
  }

  lemma StoredSwapped(v: Register)
    ensures StoredCrc(Swap16(v)) == [v[..8], v[8..]]
    ensures BytesBits(StoredCrc(Swap16(v))) == v
  {
    var s := StoredCrc(Swap16(v));
    assert s[0] == v[..8] && s[1] == v[8..];
    assert s[1..] == [s[1]] && s[1..][1..] == [];
    assert BytesBits(s) == s[0] + (s[1] + []);
  }

  /** A frame's CRC matches exactly when its residue is zero. */
  lemma MatchesIsZeroResidue(frame: seq<Octet>)
    requires |frame| >= 2
    ensures CrcMatches(frame) <==> Residue(frame) == Zeros(16)
  {
    hide Generator16, ByteStep, Rem, Swap16, StoredCrc;
    var k := |frame| - 2;
    var payload, stored := frame[..k], frame[k..];
    var v := RegisterAfter(Ones16(), payload);
    assert frame == payload + stored;
    BytesBitsConcat(payload, stored);
    RegisterDivides(payload, BytesBits(stored), Ones16());
    var diff := XorFront(BytesBits(stored), v);
    assert diff == Xor(BytesBits(stored), v);
    ShortRemainder(diff, Generator16());
    XorIsZero(BytesBits(stored), v);
    StoredSwapped(v);
    if BytesBits(stored) == v {
      BytesBitsInjective(stored, StoredCrc(Swap16(v)));
    }
  }

  lemma {:induction false} BytesBitsInjective(a: seq<Octet>, b: seq<Octet>)
    requires BytesBits(a) == BytesBits(b)
    ensures a == b
    decreases |a|
  {
    assert |a| == |b|;
    if a != [] {
      assert a[0] == BytesBits(a)[..8] && b[0] == BytesBits(b)[..8];
      assert BytesBits(a[1..]) == BytesBits(a)[8..] && BytesBits(b[1..]) == BytesBits(b)[8..];
      BytesBitsInjective(a[1..], b[1..]);
    }
  }

  /** The two frames differ at most in the two adjacent bytes at at. */
  predicate DifferWithinTwo(a: seq<Octet>, b: seq<Octet>, at: nat) {
    |a| == |b| && at + 2 <= |a| && b[..at] == a[..at] && b[at + 2..] == a[at + 2..]
  }

  /** Whatever happens to two adjacent bytes of a matching frame, CRC included, it no longer matches, unless
      nothing changed. */
  lemma TwoByteCorruption(a: seq<Octet>, b: seq<Octet>, at: nat)
    requires |a| >= 2 && DifferWithinTwo(a, b, at) && CrcMatches(a)
    ensures CrcMatches(b) <==> b == a
  {
    hide Generator16, Rem, XorFront, CrcMatches;
    MatchesIsZeroResidue(a);
    MatchesIsZeroResidue(b);
    var s, t := XorFront(BytesBits(a), Ones16()), XorFront(BytesBits(b), Ones16());
    InvertedWindow(a, b, at);
    if CrcMatches(b) {
      WindowError(s, t, 8 * at, Generator16());
      InvertedEqual(BytesBits(a), BytesBits(b));
      BytesBitsInjective(a, b);
    }
  }

  lemma InvertedEqual(a: Bits, b: Bits)
    requires |a| == |b| >= 16 && XorFront(a, Ones16()) == XorFront(b, Ones16())
    ensures a == b
  {
    forall i | 0 <= i < |a|
      ensures a[i] == b[i]
    {
      assert XorFront(a, Ones16())[i] == XorFront(b, Ones16())[i];
    }
  }

  lemma InvertedWindow(a: seq<Octet>, b: seq<Octet>, at: nat)
    requires |a| >= 2 && DifferWithinTwo(a, b, at)
    ensures var s, t := XorFront(BytesBits(a), Ones16()), XorFront(BytesBits(b), Ones16());
            t[..8 * at] == s[..8 * at] && t[8 * at + 16..] == s[8 * at + 16..]
  {
    hide BytesBits;
    var n := 8 * at;
    var x, y, z, w := BytesBits(a[..at]), BytesBits(a[at..at + 2]), BytesBits(b[at..at + 2]), BytesBits(a[at + 2..]);
    ThreePieces(a, at);
    ThreePieces(b, at);
    assert BytesBits(a)[..n] == x == BytesBits(b)[..n];
    assert BytesBits(a)[n + 16..] == w == BytesBits(b)[n + 16..];
    PiecesInverted(BytesBits(a), BytesBits(b), n);
  }

  lemma ThreePieces(a: seq<Octet>, at: nat)
    requires at + 2 <= |a|
    ensures BytesBits(a) == BytesBits(a[..at]) + (BytesBits(a[at..at + 2]) + BytesBits(a[at + 2..]))
  {
    hide BytesBits;
    CutInThree(a, at);
    BytesBitsConcat(a[..at], a[at..at + 2] + a[at + 2..]);
    BytesBitsConcat(a[at..at + 2], a[at + 2..]);
  }

  lemma CutInThree(a: seq<Octet>, at: nat)
    requires at + 2 <= |a|
    ensures a == a[..at] + (a[at..at + 2] + a[at + 2..])
  {
  }

  lemma PiecesInverted(a: Bits, b: Bits, n: nat)
    requires |a| == |b| >= n + 16 && a[..n] == b[..n] && a[n + 16..] == b[n + 16..]
    ensures XorFront(a, Ones16())[..n] == XorFront(b, Ones16())[..n]
    ensures XorFront(a, Ones16())[n + 16..] == XorFront(b, Ones16())[n + 16..]
  {
    forall i | 0 <= i < |a| && !(n <= i < n + 16)
      ensures a[i] == b[i]
    {
      assert i < n ==> a[..n][i] == b[..n][i];
      assert i >= n + 16 ==> a[n + 16..][i - n - 16] == b[n + 16..][i - n - 16];
    }
  }
}
