/**
 NOR flash as the update code sees it: erasing a range sets every byte to 0xFF, programming can only
 clear bits.  An interrupted erase leaves its range arbitrary; an interrupted program may have cleared
 any subset of the bits it was about to clear.
 */
module FlashMemory {
  type Flash = seq<bv8>

  /** The bits that a programmed byte keeps. */
  function And8(a: bv8, b: bv8): bv8 { a & b }

  function And32(a: bv32, b: bv32): bv32 { a & b }

  function Erased(f: Flash, at: nat, n: nat): (r: Flash)
    requires at + n <= |f|
    ensures |r| == |f|
  {
    seq(|f|, i requires 0 <= i < |f| => if at <= i < at + n then 0xFF else f[i])
  }

  function Programmed(f: Flash, at: nat, data: seq<bv8>): (r: Flash)
    requires at + |data| <= |f|
    ensures |r| == |f|
  {
    seq(|f|, i requires 0 <= i < |f| => if at <= i < at + |data| then And8(f[i], data[i - at]) else f[i])
  }

  predicate SameOutside(f: Flash, g: Flash, at: nat, n: nat) {
    |f| == |g| && forall i :: 0 <= i < |f| && !(at <= i < at + n) ==> g[i] == f[i]
  }

  /** Every bit of b is also set in a. */
  predicate Below(b: bv8, a: bv8) { And8(b, a) == b }

  ghost predicate InterruptedErase(f: Flash, g: Flash, at: nat, n: nat) {
    at + n <= |f| && SameOutside(f, g, at, n)
  }

  ghost predicate InterruptedProgram(f: Flash, g: Flash, at: nat, data: seq<bv8>) {
    && at + |data| <= |f| && SameOutside(f, g, at, |data|)
    && forall i :: at <= i < at + |data| ==> Below(g[i], f[i]) && Below(And8(f[i], data[i - at]), g[i])
  }

  /** A little-endian 32-bit word. */
  function Word(f: Flash, at: nat): bv32
    requires at + 4 <= |f|
  {
    WordOf(f[at], f[at + 1], f[at + 2], f[at + 3])
  }

  function WordOf(b0: bv8, b1: bv8, b2: bv8, b3: bv8): bv32 {
    (b0 as bv32) | ((b1 as bv32) << 8) | ((b2 as bv32) << 16) | ((b3 as bv32) << 24)
  }

  function WordBytes(w: bv32): (b: seq<bv8>)
    ensures |b| == 4
  {
    [(w & 0xFF) as bv8, ((w >> 8) & 0xFF) as bv8, ((w >> 16) & 0xFF) as bv8, ((w >> 24) & 0xFF) as bv8]
  }

  lemma WordOfBytes(w: bv32)
    ensures Word(WordBytes(w), 0) == w
  {
  }

  /** Programming a word over a word keeps exactly the common bits. */
  lemma WordAnd(a0: bv8, a1: bv8, a2: bv8, a3: bv8, b0: bv8, b1: bv8, b2: bv8, b3: bv8)
    ensures WordOf(And8(a0, b0), And8(a1, b1), And8(a2, b2), And8(a3, b3))
         == And32(WordOf(a0, a1, a2, a3), WordOf(b0, b1, b2, b3))
  {
  }

  method FlashRangeErase(flash: array<bv8>, at: nat, n: nat)
    requires at + n <= flash.Length
    modifies flash
    ensures flash[..] == Erased(old(flash[..]), at, n)
  {
    forall i | at <= i < at + n {
      flash[i] := 0xFF;
    }
  }

  method FlashRangeProgram(flash: array<bv8>, at: nat, data: seq<bv8>)
    requires at + |data| <= flash.Length
    modifies flash
    ensures flash[..] == Programmed(old(flash[..]), at, data)
  {
    forall i | at <= i < at + |data| {
      flash[i] := And8(flash[i], data[i - at]);
    }
  }
}
