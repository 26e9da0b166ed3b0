/** Byte strings and the little-endian 16-bit fields laid out in them. */
module Bytes {
  import opened Arith

  type byte = x: int | 0 <= x < 256

  function U16At(b: seq<byte>, at: nat): uint16
    requires at + 2 <= |b|
  {
    b[at] as int + 256 * b[at + 1] as int
  }

  function U16Bytes(v: uint16): (b: seq<byte>)
    ensures |b| == 2
  {
    [v % 256, v / 256]
  }

  /** b with the bytes of x written over it from offset at. */
  function Overwrite<T>(b: seq<T>, at: nat, x: seq<T>): (r: seq<T>)
    requires at + |x| <= |b|
    ensures |r| == |b|
  {
    seq(|b|, i requires 0 <= i < |b| => if at <= i < at + |x| then x[i - at] else b[i])
  }

  /** Two writes next to each other are one. */
  lemma OverwriteMore<T>(was: seq<T>, at: nat, a: seq<T>, b: seq<T>)
    requires at + |a| + |b| <= |was|
    ensures Overwrite(Overwrite(was, at, a), at + |a|, b) == Overwrite(was, at, a + b)
  {
  }

  lemma NothingWritten<T>(was: seq<T>, at: nat)
    requires at <= |was|
    ensures Overwrite(was, at, []) == was
  {
  }

  /** Little-endian fields read back what was written. */
  lemma U16RoundTrip(b: seq<byte>, at: nat, v: uint16)
    requires at + 2 <= |b|
    ensures U16At(Overwrite(b, at, U16Bytes(v)), at) == v
  {
  }

  /** C memcpy between two different buffers. */
  method MemCpy<T>(dst: array<T>, at: nat, src: array<T>, from: nat, n: nat)
    requires dst != src && at + n <= dst.Length && from + n <= src.Length
    modifies dst
    ensures dst[..] == Overwrite(old(dst[..]), at, src[from..from + n])
  {
    forall i | 0 <= i < n {
      dst[at + i] := src[from + i];
    }
  }

  /** C memmove inside one buffer; source and destination ranges may overlap. */
  method MemMove<T>(buf: array<T>, at: nat, from: nat, n: nat)
    requires at + n <= buf.Length && from + n <= buf.Length
    modifies buf
    ensures buf[..] == Overwrite(old(buf[..]), at, old(buf[from..from + n]))
  {
    forall i | 0 <= i < n {
      buf[at + i] := buf[from + i];
    }
  }

  /** C memcpy from a value. */
  method Store<T>(buf: array<T>, at: nat, data: seq<T>)
    requires at + |data| <= buf.Length
    modifies buf
    ensures buf[..] == Overwrite(old(buf[..]), at, data)
  {
    forall i | 0 <= i < |data| {
      buf[at + i] := data[i];
    }
  }

  method PutU16(buf: array<byte>, at: nat, v: uint16)
    requires at + 2 <= buf.Length
    modifies buf
    ensures buf[..] == Overwrite(old(buf[..]), at, U16Bytes(v))
  {
    buf[at], buf[at + 1] := v % 256, v / 256;
  }
}
