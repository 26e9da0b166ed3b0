/**
 Polynomials over GF(2) as bit strings, most significant coefficient first, and division by a
 generator whose leading bit is set.
 */
module Gf2 {
  type Bits = seq<bool>

  function Zeros(n: nat): (z: Bits)
    ensures |z| == n
  {
    seq(n, _ => false)
  }

  function Xor(a: Bits, b: Bits): (c: Bits)
    requires |a| == |b|
    ensures |c| == |a|
  {
    seq(|a|, i requires 0 <= i < |a| => a[i] != b[i])
  }

  /** a with the shorter b added at its front. */
  function XorFront(a: Bits, b: Bits): (c: Bits)
    requires |b| <= |a|
    ensures |c| == |a|
  {
    seq(|a|, i requires 0 <= i < |a| => if i < |b| then a[i] != b[i] else a[i])
  }

  /** A generator of degree d: d + 1 bits, the first one set. */
  predicate Generator(g: Bits) { |g| > 0 && g[0] }

  /** One step of long division: clear the leading bit with the generator if it is set, then drop it. */
  function Reduce(m: Bits, g: Bits): (r: Bits)
    requires Generator(g) && |m| >= |g|
    ensures |r| == |m| - 1
  {
    (if m[0] then XorFront(m, g) else m)[1..]
  }

  /** The remainder of m modulo g, by long division. */
  function Rem(m: Bits, g: Bits): (r: Bits)
    requires Generator(g) && |m| >= |g| - 1
    ensures |r| == |g| - 1
    decreases |m|
  {
    if |m| < |g| then m else Rem(Reduce(m, g), g)
  }

  /** The product of q and g, with |q| + |g| - 1 coefficients. */
  function Product(q: Bits, g: Bits): (p: Bits)
    requires Generator(g)
    ensures |p| == |q| + |g| - 1
  {
    if q == [] then Zeros(|g| - 1)
    else
      var rest := [false] + Product(q[1..], g);
      if q[0] then XorFront(rest, g) else rest
  }

  /** The quotient that long division finds. */
  function Quotient(m: Bits, g: Bits): (q: Bits)
    requires Generator(g) && |m| >= |g| - 1
    ensures |q| == |m| + 1 - |g|
    decreases |m|
  {
    if |m| < |g| then [] else [m[0]] + Quotient(Reduce(m, g), g)
  }

  /** m is congruent to r modulo g: they differ by a multiple of g. */
  ghost predicate Congruent(m: Bits, r: Bits, g: Bits)
    requires Generator(g) && |m| >= |g| - 1 && |r| == |g| - 1
  {
    exists q: Bits :: |q| == |m| + 1 - |g| && m == Xor(Product(q, g), Zeros(|q|) + r)
  }

  lemma ReduceUndone(m: Bits, g: Bits, p: Bits, r: Bits)
    requires Generator(g) && |m| >= |g| && |p| == |m| - 1 && |r| == |g| - 1
    requires Reduce(m, g) == Xor(p, Zeros(|m| - |g|) + r)
    ensures m == Xor(if m[0] then XorFront([false] + p, g) else [false] + p, Zeros(|m| - |g| + 1) + r)
  {
    var z := Zeros(|m| - |g|) + r;
    var rest := [false] + p;
    var rhs := Xor(if m[0] then XorFront(rest, g) else rest, Zeros(|m| - |g| + 1) + r);
    assert Zeros(|m| - |g| + 1) + r == [false] + z;
    forall i | 0 <= i < |m|
      ensures m[i] == rhs[i]
    {
      if i > 0 {
        assert Reduce(m, g)[i - 1] == (p[i - 1] != z[i - 1]);
      }
    }
  }

  lemma ZerosAdded(m: Bits)
    ensures Xor(Zeros(|m|), Zeros(0) + m) == m
  {
    assert Zeros(0) + m == m;
  }

  /** Long division is right: m is quotient times generator plus remainder. */
  lemma {:induction false} RemCongruent(m: Bits, g: Bits)
    requires Generator(g) && |m| >= |g| - 1
    ensures m == Xor(Product(Quotient(m, g), g), Zeros(|m| + 1 - |g|) + Rem(m, g))
    ensures Congruent(m, Rem(m, g), g)
    decreases |m|
  {
    hide Generator, Xor, XorFront, Zeros, Reduce;
    if |m| < |g| {
      ZerosAdded(m);
    } else {
      RemCongruent(Reduce(m, g), g);
      ReduceUndone(m, g, Product(Quotient(Reduce(m, g), g), g), Rem(m, g));
      assert Quotient(m, g)[1..] == Quotient(Reduce(m, g), g);
    }
  }

  /** No other value of that degree is congruent to m: the remainder is unique. */
  lemma {:induction false} RemUnique(q: Bits, r: Bits, g: Bits)
    requires Generator(g) && |r| == |g| - 1
    ensures Rem(Xor(Product(q, g), Zeros(|q|) + r), g) == r
    decreases |q|
  {
    var m := Xor(Product(q, g), Zeros(|q|) + r);
    if q == [] {
      assert Zeros(0) + r == r;
      assert m == r;
    } else {
      var p := Product(q[1..], g);
      var smaller := Xor(p, Zeros(|q| - 1) + r);
      assert Zeros(|q|) + r == [false] + (Zeros(|q| - 1) + r);
      assert m[0] == q[0];
      forall i | 0 <= i < |m| - 1
        ensures Reduce(m, g)[i] == smaller[i]
      {
        assert (Zeros(|q|) + r)[i + 1] == (Zeros(|q| - 1) + r)[i];
        assert ([false] + p)[i + 1] == p[i];
      }
      assert Reduce(m, g) == smaller;
      RemUnique(q[1..], r, g);
    }
  }

  /** Congruence to a value of degree below the generator's is exactly equality with the remainder. */
  lemma CongruentIsRem(m: Bits, r: Bits, g: Bits)
    requires Generator(g) && |m| >= |g| - 1 && |r| == |g| - 1
    ensures Congruent(m, r, g) <==> r == Rem(m, g)
  {
    RemCongruent(m, g);
    if Congruent(m, r, g) {
      var q: Bits :| |q| == |m| + 1 - |g| && m == Xor(Product(q, g), Zeros(|q|) + r);
      RemUnique(q, r, g);
    }
  }

  /** Remainders are linear. */
  lemma {:induction false} RemLinear(a: Bits, b: Bits, g: Bits)
    requires Generator(g) && |a| == |b| >= |g| - 1
    ensures Rem(Xor(a, b), g) == Xor(Rem(a, g), Rem(b, g))
    decreases |a|
  {
    if |a| >= |g| {
      assert Reduce(Xor(a, b), g) == Xor(Reduce(a, g), Reduce(b, g));
      RemLinear(Reduce(a, g), Reduce(b, g), g);
    }
  }

  /** The four bits of a hexadecimal digit. */
  function Hex(d: nat): (b: Bits)
    ensures |b| == 4
  {
    [d / 8 % 2 == 1, d / 4 % 2 == 1, d / 2 % 2 == 1, d % 2 == 1]
  }

  lemma XorIsZero(a: Bits, b: Bits)
    requires |a| == |b|
    ensures Xor(a, b) == Zeros(|a|) <==> a == b
  {
    if Xor(a, b) == Zeros(|a|) {
      forall i | 0 <= i < |a|
        ensures a[i] == b[i]
      {
        assert !Xor(a, b)[i];
      }
    }
  }

  /** Nothing is left to divide below the generator's degree. */
  lemma ShortRemainder(m: Bits, g: Bits)
    requires Generator(g) && |m| == |g| - 1
    ensures Rem(m, g) == m
  {
  }

  /** Zeros in front of a message do not change its remainder. */
  lemma {:induction false} LeadingZeros(k: nat, m: Bits, g: Bits)
    requires Generator(g) && |m| >= |g| - 1
    ensures Rem(Zeros(k) + m, g) == Rem(m, g)
    decreases k
  {
    if k == 0 {
      assert Zeros(0) + m == m;
    } else {
      assert Reduce(Zeros(k) + m, g) == Zeros(k - 1) + m;
      LeadingZeros(k - 1, m, g);
    }
  }

  /** A message that is zero behind its first |g| - 1 bits has remainder zero only if those are zero too, when
      the generator has a constant term: each division step is then injective. */
  lemma ReduceShifted(e: Bits, k: nat, g: Bits)
    requires Generator(g) && |e| == |g| - 1 && k > 0
    ensures Reduce(e + Zeros(k), g) == Reduce(e + [false], g) + Zeros(k - 1)
  {
    var a, b := Reduce(e + Zeros(k), g), Reduce(e + [false], g) + Zeros(k - 1);
    forall i | 0 <= i < |e| + k - 1
      ensures a[i] == b[i]
    {
    }
  }

  lemma {:induction false} ShiftedRemainder(e: Bits, k: nat, g: Bits)
    requires Generator(g) && g[|g| - 1] && |e| == |g| - 1
    requires Rem(e + Zeros(k), g) == Zeros(|e|)
    ensures e == Zeros(|e|)
    decreases k
  {
    if k == 0 {
      assert e + Zeros(0) == e;
    } else if |e| > 0 {
      var m := e + Zeros(k);
      var next := Reduce(e + [false], g);
      ReduceShifted(e, k, g);
      assert next[|g| - 2] == (if e[0] then g[|g| - 1] else false);
      ShiftedRemainder(next, k - 1, g);
      forall i | 0 <= i < |e|
        ensures !e[i]
      {
        if i > 0 {
          assert next[i - 1] == e[i];
        }
      }
    }
  }

  lemma AllZeros(at: nat, n: nat, k: nat)
    ensures Zeros(at) + (Zeros(n) + Zeros(k)) == Zeros(at + n + k)
  {
  }

  /** A burst of |g| - 1 bits with zeros around it and remainder zero is no burst. */
  lemma BurstVanishes(at: nat, e: Bits, k: nat, g: Bits)
    requires Generator(g) && g[|g| - 1] && |e| == |g| - 1
    requires Rem(Zeros(at) + (e + Zeros(k)), g) == Zeros(|e|)
    ensures Zeros(at) + (e + Zeros(k)) == Zeros(at + |e| + k)
  {
    hide Rem, Zeros;
    LeadingZeros(at, e + Zeros(k), g);
    ShiftedRemainder(e, k, g);
    AllZeros(at, |e|, k);
  }

  lemma BurstParts(x: Bits, at: nat, n: nat)
    requires at + n <= |x| && forall i :: 0 <= i < |x| && !(at <= i < at + n) ==> !x[i]
    ensures x == Zeros(at) + (x[at..at + n] + Zeros(|x| - at - n))
  {
  }

  lemma BurstIsZero(x: Bits, at: nat, g: Bits)
    requires Generator(g) && g[|g| - 1] && at + |g| - 1 <= |x| && Rem(x, g) == Zeros(|g| - 1)
    requires forall i :: 0 <= i < |x| && !(at <= i < at + |g| - 1) ==> !x[i]
    ensures x == Zeros(|x|)
  {
    hide Rem, Zeros;
    BurstParts(x, at, |g| - 1);
    BurstVanishes(at, x[at..at + |g| - 1], |x| - at - (|g| - 1), g);
  }

  lemma SameOutsideWindow(s: Bits, t: Bits, at: nat, n: nat)
    requires |s| == |t| && at + n <= |s| && t[..at] == s[..at] && t[at + n..] == s[at + n..]
    ensures forall i :: 0 <= i < |s| && !(at <= i < at + n) ==> !Xor(s, t)[i]
  {
    forall i | 0 <= i < |s| && !(at <= i < at + n)
      ensures !Xor(s, t)[i]
    {
      if i < at {
        assert t[..at][i] == s[..at][i];
      } else {
        assert t[at + n..][i - at - n] == s[at + n..][i - at - n];
      }
    }
  }

  /** Two messages that differ only within |g| - 1 consecutive bits and have the same remainder are equal. */
  lemma WindowError(s: Bits, t: Bits, at: nat, g: Bits)
    requires Generator(g) && g[|g| - 1] && |s| == |t| && at + |g| - 1 <= |s|
    requires t[..at] == s[..at] && t[at + |g| - 1..] == s[at + |g| - 1..]
    requires Rem(s, g) == Rem(t, g)
    ensures s == t
  {
    hide Rem, Xor, Zeros;
    RemLinear(s, t, g);
    XorIsZero(Rem(s, g), Rem(t, g));
    SameOutsideWindow(s, t, at, |g| - 1);
    BurstIsZero(Xor(s, t), at, g);
    XorIsZero(s, t);
  }
}
