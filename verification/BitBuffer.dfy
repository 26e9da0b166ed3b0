/**
 Bit-field access to big-endian buffers.  A uint32_t and a uint8_t are strings of 32 and 8 bits, most
 significant first, and the C operators on them are the pointwise and shifting operations below.
 */
module BitBuffer {
  import opened Arith
  import opened Gf2

  type Word = w: Bits | |w| == 32 witness seq(32, _ => false)
  type Octet = b: Bits | |b| == 8 witness seq(8, _ => false)

  function AllOnes(): Word { seq(32, _ => true) }

  function ZeroWord(): Word { seq(32, _ => false) }

  function OctetOnes(): Octet { seq(8, _ => true) }

  function And(a: Word, b: Word): Word { seq(32, i requires 0 <= i < 32 => a[i] && b[i]) }

  function Or(a: Word, b: Word): Word { seq(32, i requires 0 <= i < 32 => a[i] || b[i]) }

  function Not(a: Word): Word { seq(32, i requires 0 <= i < 32 => !a[i]) }

  /** Left shift; C leaves shifts by 32 or more undefined. */
  function Shl(a: Word, k: nat): Word
    requires k < 32
  {
    seq(32, i requires 0 <= i < 32 => if i + k < 32 then a[i + k] else false)
  }

  function Shr(a: Word, k: nat): Word
    requires k < 32
  {
    seq(32, i requires 0 <= i < 32 => if i >= k then a[i - k] else false)
  }

  /** The value b of an octet as a word. */
  function Widen(b: Octet): Word { seq(32, i requires 0 <= i < 32 => if i >= 24 then b[i - 24] else false) }

  /** The low eight bits of a word. */
  function Narrow(w: Word): Octet { w[24..] }

  /** The bit stream of a word buffer, bit 0 being the most significant bit of word 0. */
  function Stream(words: seq<Word>): (s: Bits)
    ensures |s| == 32 * |words|
  {
    seq(32 * |words|, i requires 0 <= i < 32 * |words| => words[i / 32][i % 32])
  }

  /** The bit stream of a byte buffer. */
  function ByteStream(bytes: seq<Octet>): (s: Bits)
    ensures |s| == 8 * |bytes|
  {
    seq(8 * |bytes|, i requires 0 <= i < 8 * |bytes| => bytes[i / 8][i % 8])
  }

  /** n bits as a right-aligned word. */
  function RightAligned(bits: Bits): Word
    requires |bits| <= 32
  {
    seq(32, i requires 0 <= i < 32 => if i >= 32 - |bits| then bits[i - 32 + |bits|] else false)
  }

  /** The shifts and masks of the word reader on the one or two words that hold the field. */
  function WordField(w: Word, spill: Word, n: nat, offset: nat): Word
    requires 1 <= n <= 32 && offset < 32
  {
    var joined := if 32 - offset < n then Or(Shl(w, offset), Shr(spill, 32 - offset)) else Shl(w, offset);
    Shr(And(joined, Shl(AllOnes(), 32 - n)), 32 - n)
  }

  /** Masking off all but the first n bits and shifting them to the right end. */
  lemma MaskedShift(x: Word, n: nat, i: nat)
    requires 1 <= n <= 32 && i < 32
    ensures Shr(And(x, Shl(AllOnes(), 32 - n)), 32 - n)[i] == (i >= 32 - n && x[i - (32 - n)])
  {
    if i >= 32 - n {
      assert Shl(AllOnes(), 32 - n)[i - (32 - n)];
    }
  }

  lemma JoinedWords(w: Word, spill: Word, offset: nat, j: nat)
    requires 0 < offset < 32 && j < 32
    ensures Or(Shl(w, offset), Shr(spill, 32 - offset))[j]
         == if offset + j < 32 then w[offset + j] else spill[offset + j - 32]
  {
  }

  lemma WordFieldAt(w: Word, spill: Word, n: nat, offset: nat, i: nat)
    requires 1 <= n <= 32 && offset < 32 && i < 32
    ensures WordField(w, spill, n, offset)[i]
         == if i < 32 - n then false
            else if offset + i - (32 - n) < 32 then w[offset + i - (32 - n)] else spill[offset + i - (32 - n) - 32]
  {
    var joined := if 32 - offset < n then Or(Shl(w, offset), Shr(spill, 32 - offset)) else Shl(w, offset);
    if i >= 32 - n {
      var j := i - (32 - n);
      if 32 - offset < n {
        JoinedWords(w, spill, offset, j);
      } else {
        assert joined[j] == w[offset + j];
      }
    }
    hide Or, And, Shl, Shr, AllOnes;
    MaskedShift(joined, n, i);
  }

  lemma RightAlignedAt(s: Bits, first: nat, n: nat, i: nat)
    requires 1 <= n <= 32 && first + n <= |s| && i < 32
    ensures RightAligned(s[first..first + n])[i] == if i < 32 - n then false else s[first + i - (32 - n)]
  {
  }

  lemma StreamAt(buffer: seq<Word>, k: nat, j: nat)
    requires k < |buffer| && j < 64 && 32 * k + j < 32 * |buffer|
    ensures Stream(buffer)[32 * k + j] == if j < 32 then buffer[k][j] else buffer[k + 1][j - 32]
  {
    assert (32 * k + j) / 32 == k + j / 32 && (32 * k + j) % 32 == j % 32;
  }

  lemma WordFieldIsSlice(buffer: seq<Word>, first: nat, n: nat, spill: Word)
    requires 1 <= n <= 32 && first + n <= 32 * |buffer|
    requires 32 - first % 32 < n ==> spill == buffer[first / 32 + 1]
    ensures WordField(buffer[first / 32], spill, n, first % 32) == RightAligned(Stream(buffer)[first..first + n])
  {
    hide WordField, RightAligned, Stream;
    forall i | 0 <= i < 32
      ensures WordField(buffer[first / 32], spill, n, first % 32)[i]
           == RightAligned(Stream(buffer)[first..first + n])[i]
    {
      WordFieldAt(buffer[first / 32], spill, n, first % 32, i);
      RightAlignedAt(Stream(buffer), first, n, i);
      if i >= 32 - n {
        StreamAt(buffer, first / 32, first % 32 + i - (32 - n));
      }
    }
  }

  /** GetNBitsFromWordBuffer is the n-bit slice of the stream; a length outside 1 to 32 reads as zero. */
  method GetNBitsFromWordBuffer(n: uint16, first: uint32, buffer: seq<Word>) returns (w: Word)
    requires 1 <= n <= 32 ==> first + n <= 32 * |buffer|
    ensures 1 <= n <= 32 ==> w == RightAligned(Stream(buffer)[first..first + n])
    ensures !(1 <= n <= 32) ==> w == ZeroWord()
  {
    hide And, Or, Shl, Shr, Stream, RightAligned;
    if n > 32 || n < 1 {
      return ZeroWord();
    }
    var firstWord, offset := first / 32, first % 32;
    w := Shl(buffer[firstWord], offset);
    var firstLength := 32 - offset;
    if firstLength < n {
      w := Or(w, Shr(buffer[firstWord + 1], firstLength));
    }
    w := And(w, Shl(AllOnes(), 32 - n));
    w := Shr(w, 32 - n);
    WordFieldIsSlice(buffer, first, n, if firstLength < n then buffer[firstWord + 1] else ZeroWord());
  }

  /** The stream with the low n bits of word written at bit first. */
  function WithField(s: Bits, n: nat, word: Word, first: nat): (r: Bits)
    requires 1 <= n <= 32 && first + n <= |s|
    ensures |r| == |s|
  {
    seq(|s|, i requires 0 <= i < |s| => if first <= i < first + n then word[32 - n + (i - first)] else s[i])
  }

  /** The word that holds the first bits of the field: blank them, then insert the left-aligned word w. */
  function FirstPart(prev: Word, w: Word, n: nat, offset: nat): Word
    requires 1 <= n <= 32 && offset < 32
  {
    Or(And(prev, Not(Shr(Shl(AllOnes(), 32 - n), offset))), Shr(w, offset))
  }

  /** The following word, when the field spills over into it. */
  function SecondPart(prev: Word, w: Word, n: nat, firstLength: nat): Word
    requires 1 <= n <= 32 && 1 <= firstLength < n
  {
    Or(And(prev, Shr(AllOnes(), n - firstLength)), Shl(w, firstLength))
  }

  function LeftAlignedField(word: Word, n: nat): Word
    requires 1 <= n <= 32
  {
    Shl(And(word, Shr(AllOnes(), 32 - n)), 32 - n)
  }

  lemma FirstPartAt(prev: Word, word: Word, n: nat, offset: nat, j: nat)
    requires 1 <= n <= 32 && offset < 32 && j < 32
    ensures FirstPart(prev, LeftAlignedField(word, n), n, offset)[j]
         == if offset <= j < offset + n then word[32 - n + (j - offset)] else prev[j]
  {
  }

  lemma SecondPartAt(prev: Word, word: Word, n: nat, firstLength: nat, j: nat)
    requires 1 <= n <= 32 && 1 <= firstLength < n && j < 32
    ensures SecondPart(prev, LeftAlignedField(word, n), n, firstLength)[j]
         == if j < n - firstLength then word[32 - n + firstLength + j] else prev[j]
  {
  }

  /** The buffer with one or two words replaced has the field in its stream, and nothing else changed. */
  lemma FieldWritten(was: seq<Word>, now: seq<Word>, n: nat, word: Word, first: nat)
    requires 1 <= n <= 32 && first + n <= 32 * |was| && |now| == |was|
    requires var k, offset := first / 32, first % 32;
             var w := LeftAlignedField(word, n);
             && now[k] == FirstPart(was[k], w, n, offset)
             && (32 - offset < n ==> now[k + 1] == SecondPart(was[k + 1], w, n, 32 - offset))
             && forall i :: 0 <= i < |was| && i != k && !(32 - offset < n && i == k + 1) ==> now[i] == was[i]
    ensures Stream(now) == WithField(Stream(was), n, word, first)
  {
    hide FirstPart, SecondPart, LeftAlignedField;
    var k, offset := first / 32, first % 32;
    forall i | 0 <= i < 32 * |was|
      ensures Stream(now)[i] == WithField(Stream(was), n, word, first)[i]
    {
      if i / 32 == k {
        FirstPartAt(was[k], word, n, offset, i % 32);
      } else if 32 - offset < n && i / 32 == k + 1 {
        SecondPartAt(was[k + 1], word, n, 32 - offset, i % 32);
      }
    }
  }

  /** SetNBitsInWordBuffer writes the field and leaves every other bit; a length outside 1 to 32 writes nothing. */
  method SetNBitsInWordBuffer(n: uint16, word: Word, first: uint32, buffer: array<Word>)
    requires 1 <= n <= 32 ==> first + n <= 32 * buffer.Length
    modifies buffer
    ensures 1 <= n <= 32 ==> Stream(buffer[..]) == WithField(Stream(old(buffer[..])), n, word, first)
    ensures !(1 <= n <= 32) ==> buffer[..] == old(buffer[..])
  {
    hide And, Or, Not, Shl, Shr, Stream, WithField;
    if n > 32 || n < 1 {
      return;
    }
    ghost var was := buffer[..];
    var w := And(word, Shr(AllOnes(), 32 - n));
    w := Shl(w, 32 - n);
    var firstWord, offset := first / 32, first % 32;
    buffer[firstWord] := And(buffer[firstWord], Not(Shr(Shl(AllOnes(), 32 - n), offset)));
    buffer[firstWord] := Or(buffer[firstWord], Shr(w, offset));
    var firstLength := 32 - offset;
    if firstLength < n {
      buffer[firstWord + 1] := And(buffer[firstWord + 1], Shr(AllOnes(), n - firstLength));
      buffer[firstWord + 1] := Or(buffer[firstWord + 1], Shl(w, firstLength));
    }
    FieldWritten(was, buffer[..], n, word, first);
  }

  lemma SameSlice(s: Bits, t: Bits, at: nat, m: nat)
    requires at + m <= |s| == |t| && forall i :: at <= i < at + m ==> t[i] == s[i]
    ensures t[at..at + m] == s[at..at + m]
  {
  }

  /** Reading back the field that was written gives the low n bits of the word; any field that does not
      overlap it reads as before. */
  lemma WriteThenRead(s: Bits, n: nat, word: Word, first: nat, m: nat, at: nat)
    requires 1 <= n <= 32 && first + n <= |s| && 1 <= m <= 32 && at + m <= |s|
    ensures RightAligned(WithField(s, n, word, first)[first..first + n])
         == seq(32, i requires 0 <= i < 32 => if i >= 32 - n then word[i] else false)
    ensures at + m <= first || first + n <= at ==>
              RightAligned(WithField(s, n, word, first)[at..at + m]) == RightAligned(s[at..at + m])
  {
    if at + m <= first || first + n <= at {
      SameSlice(s, WithField(s, n, word, first), at, m);
    }
  }

  // ----- Bytes -----

  const BYTE_READER_BITS: nat := 524288  // 8 * 65536: where the reader's uint16_t byte index wraps

  function Wrapped(k: nat): (r: nat)
    ensures r <= k
  {
    k % 524288
  }

  /** n bits from bit first on, when byte indices are taken modulo 65536. */
  function WrappedSlice(s: Bits, first: nat, n: nat): (r: Bits)
    requires first + n <= |s|
    ensures |r| == n
  {
    seq(n, i requires 0 <= i < n => s[Wrapped(first + i)])
  }

  lemma WrapsBelow(k: nat)
    ensures if k < BYTE_READER_BITS then Wrapped(k) == k else Wrapped(k) < k
  {
  }

  /** The wrapped slice is the true slice of every stream exactly when the field ends within 65536 bytes. */
  lemma WrappedSliceExact(first: nat, n: nat)
    requires 1 <= n <= 32
    ensures first + n <= BYTE_READER_BITS
        <==> forall s: Bits :: first + n <= |s| ==> WrappedSlice(s, first, n) == s[first..first + n]
  {
    hide Wrapped;
    if first + n > BYTE_READER_BITS {
      var last := first + n - 1;
      var s := Zeros(last) + [true];
      WrapsBelow(last);
      assert first + (n - 1) == last && !s[Wrapped(last)] && s[last];
      assert WrappedSlice(s, first, n)[n - 1] != s[first..first + n][n - 1];
    } else {
      forall s: Bits | first + n <= |s|
        ensures WrappedSlice(s, first, n) == s[first..first + n]
      {
        forall i | 0 <= i < n
          ensures WrappedSlice(s, first, n)[i] == s[first..first + n][i]
        {
          WrapsBelow(first + i);
        }
      }
    }
  }

  lemma MaskedChunk(b: Octet, from: nat, len: nat)
    requires 1 <= len && from + len <= 8
    ensures And(Shr(Widen(b), 8 - len - from), Shr(Widen(OctetOnes()), 8 - len)) == RightAligned(b[from..from + len])
    ensures from == 0 ==> And(Shr(Widen(b), 8 - len), Shr(Widen(OctetOnes()), 8 - len)) == Shr(Widen(b), 8 - len)
  {
  }

  lemma AppendedBits(got: Bits, chunk: Bits)
    requires 1 <= |chunk| <= 8 && |got| + |chunk| <= 32
    ensures Or(Shl(RightAligned(got), |chunk|), RightAligned(chunk)) == RightAligned(got + chunk)
  {
  }

  /** One more chunk of a byte appended to the word read so far. */
  lemma ChunkAppended(w: Word, got: Bits, b: Octet, from: nat, len: nat)
    requires 1 <= len <= 8 && from + len <= 8 && |got| + len <= 32
    requires w == RightAligned(got)
    ensures Or(Shl(w, len), And(Shr(Widen(b), 8 - len - from), Shr(Widen(OctetOnes()), 8 - len)))
         == RightAligned(got + b[from..from + len])
    ensures from == 0 ==> And(Shr(Widen(b), 8 - len), Shr(Widen(OctetOnes()), 8 - len)) == Shr(Widen(b), 8 - len)
  {
    hide Or, And, Shl, Shr, Widen, OctetOnes, RightAligned;
    MaskedChunk(b, from, len);
    AppendedBits(got, b[from..from + len]);
  }

  lemma WrappedBit(at: nat, j: nat)
    requires at % 8 + j < 8
    ensures Wrapped(at + j) == 8 * U16(at / 8) + at % 8 + j
  {
    var q, r := at / 8, at % 8;
    assert q == 65536 * (q / 65536) + q % 65536;
    assert at + j == 524288 * (q / 65536) + (8 * (q % 65536) + r + j);
  }

  lemma ByteInRange(at: nat, length: nat)
    requires at < 8 * length
    ensures U16(at / 8) < length
  {
  }

  lemma BitOfByte(buffer: seq<Octet>, b: nat, r: nat)
    requires b < |buffer| && r < 8
    ensures ByteStream(buffer)[8 * b + r] == buffer[b][r]
  {
    assert (8 * b + r) / 8 == b && (8 * b + r) % 8 == r;
  }

  /** The bit at stream position at + j lies in the byte that the wrapped index names. */
  lemma StreamBit(buffer: seq<Octet>, at: nat, from: nat, j: nat)
    requires at + j < 8 * |buffer| && from == at % 8 && from + j < 8
    ensures U16(at / 8) < |buffer|
    ensures ByteStream(buffer)[Wrapped(at + j)] == buffer[U16(at / 8)][from + j]
  {
    hide U16, Wrapped, ByteStream;
    ByteInRange(at, |buffer|);
    WrappedBit(at, j);
    BitOfByte(buffer, U16(at / 8), from + j);
  }

  lemma SliceJoins(s: Bits, first: nat, got: nat, piece: Bits)
    requires first + got + |piece| <= |s|
    requires forall j :: 0 <= j < |piece| ==> s[Wrapped(first + got + j)] == piece[j]
    ensures WrappedSlice(s, first, got + |piece|) == WrappedSlice(s, first, got) + piece
  {
    hide Wrapped;
    var r, both := WrappedSlice(s, first, got + |piece|), WrappedSlice(s, first, got) + piece;
    forall i | 0 <= i < got + |piece|
      ensures r[i] == both[i]
    {
      if i >= got {
        assert s[Wrapped(first + got + (i - got))] == piece[i - got];
      }
    }
  }

  lemma SliceExtends(s: Bits, buffer: seq<Octet>, first: nat, got: nat, len: nat)
    requires s == ByteStream(buffer) && first + got + len <= |s|
    requires 1 <= len && (first + got) % 8 + len <= 8
    ensures U16((first + got) / 8) < |buffer|
    ensures WrappedSlice(s, first, got + len)
         == WrappedSlice(s, first, got) + buffer[U16((first + got) / 8)][(first + got) % 8..(first + got) % 8 + len]
  {
    hide ByteStream, U16, Wrapped, WrappedSlice;
    var at := first + got;
    var from := at % 8;
    ByteInRange(at, |buffer|);
    var piece := buffer[U16(at / 8)][from..from + len];
    forall j | 0 <= j < |piece|
      ensures s[Wrapped(at + j)] == piece[j]
    {
      StreamBit(buffer, at, from, j);
    }
    SliceJoins(s, first, got, piece);
  }

  /** The wrapped index of the byte that holds stream bit k. */
  function ByteIndex(k: nat): uint16 { U16(k / 8) }

  lemma NextByte(at: nat, len: nat)
    requires at > 0 && at % 8 == 0 && 1 <= len <= 8
    ensures U16(ByteIndex(at - 1) as int + 1) == ByteIndex(at) == ByteIndex(at + len - 1)
  {
    var q := at / 8;
    assert (at - 1) / 8 == q - 1 && (at + len - 1) / 8 == q;
    assert q - 1 == 65536 * ((q - 1) / 65536) + (q - 1) % 65536;
  }

  predicate ByteAligned(k: nat) { k % 8 == 0 }

  /** The field is aligned again behind its first byte, and stays so behind each whole one. */
  lemma AlignedAgain(at: nat, len: nat)
    requires len == 8 - at % 8
    ensures ByteAligned(at + len)
  {
  }

  lemma StaysAligned(at: nat)
    requires ByteAligned(at)
    ensures ByteAligned(at + 8)
  {
  }

  lemma SameByte(at: nat, len: nat)
    requires 1 <= len && at % 8 + len <= 8
    ensures ByteIndex(at + len - 1) == ByteIndex(at)
  {
    assert at == 8 * (at / 8) + at % 8;
  }

  /** The partial byte at the start of the field. */
  lemma FirstChunk(buffer: seq<Octet>, first: nat, len: nat)
    requires first + len <= 8 * |buffer| && 1 <= len && first % 8 + len <= 8
    ensures ByteIndex(first) < |buffer| && ByteIndex(first + len - 1) == ByteIndex(first)
    ensures And(Shr(Widen(buffer[ByteIndex(first)]), 8 - len - first % 8), Shr(Widen(OctetOnes()), 8 - len))
         == RightAligned(WrappedSlice(ByteStream(buffer), first, len))
  {
    hide Or, And, Shl, Shr, Widen, RightAligned, ByteStream;
    ByteInRange(first, |buffer|);
    SameByte(first, len);
    SliceExtends(ByteStream(buffer), buffer, first, 0, len);
    MaskedChunk(buffer[ByteIndex(first)], first % 8, len);
    var b, from := buffer[ByteIndex(first)], first % 8;
    assert WrappedSlice(ByteStream(buffer), first, len) == b[from..from + len];
  }

  /** One further byte of the field, whole or cut short at its end. */
  lemma NextChunk(buffer: seq<Octet>, first: nat, got: nat, len: nat, w: Word)
    requires first + got + len <= 8 * |buffer| && 1 <= got && 1 <= len <= 8 && got + len <= 32
    requires ByteAligned(first + got) && w == RightAligned(WrappedSlice(ByteStream(buffer), first, got))
    ensures U16(ByteIndex(first + got - 1) as int + 1) == ByteIndex(first + got + len - 1) < |buffer|
    ensures Or(Shl(w, len), Shr(Widen(buffer[ByteIndex(first + got + len - 1)]), 8 - len))
         == RightAligned(WrappedSlice(ByteStream(buffer), first, got + len))
  {
    hide Or, And, Shl, Shr, Widen, RightAligned, WrappedSlice, ByteStream;
    NextByte(first + got, len);
    ByteInRange(first + got, |buffer|);
    SliceExtends(ByteStream(buffer), buffer, first, got, len);
    ChunkAppended(w, WrappedSlice(ByteStream(buffer), first, got), buffer[ByteIndex(first + got)], 0, len);
  }

  /** The byte reader, whose byte index is a uint16_t. */
  method GetNBitsFromByteBuffer(n: uint16, first: uint32, buffer: seq<Octet>) returns (w: Word)
    requires 1 <= n <= 32 ==> first + n <= 8 * |buffer|
    ensures 1 <= n <= 32 ==> w == RightAligned(WrappedSlice(ByteStream(buffer), first, n))
    ensures !(1 <= n <= 32) ==> w == ZeroWord()
  {
    hide And, Or, Shr, Shl, Widen, RightAligned, WrappedSlice, ByteStream, ByteIndex, ByteAligned, U16;
    if n > 32 || n < 1 {
      return ZeroWord();
    }
    var byteIndex, offset := ByteIndex(first), first % 8;
    var chunkLen: nat := Min(8 - offset, n);
    FirstChunk(buffer, first, chunkLen);
    var chunk := And(Shr(Widen(buffer[byteIndex]), 8 - chunkLen - offset), Shr(Widen(OctetOnes()), 8 - chunkLen));
    var remaining: int := n - chunkLen;
    w := chunk;
    if remaining > 0 {
      AlignedAgain(first, chunkLen);
    }
    while remaining > 0
      invariant 0 <= remaining < n
      invariant w == RightAligned(WrappedSlice(ByteStream(buffer), first, n - remaining))
      invariant byteIndex == ByteIndex(first + (n - remaining) - 1)
      invariant remaining > 0 ==> ByteAligned(first + (n - remaining))
    {
      chunkLen := if remaining >= 8 then 8 else remaining;
      NextChunk(buffer, first, n - remaining, chunkLen, w);
      if chunkLen == 8 {
        StaysAligned(first + (n - remaining));
      }
      byteIndex := U16(byteIndex as int + 1);
      chunk := Shr(Widen(buffer[byteIndex]), 8 - chunkLen);
      w := Or(Shl(w, chunkLen), chunk);
      remaining := remaining - chunkLen;
    }
  }

  // ----- Conversion between the two buffers -----

  /** The four bytes of a word buffer's word k, absent ones being zero. */
  function ByteOf(bytes: seq<Octet>, i: nat): Octet { if i < |bytes| then bytes[i] else Narrow(ZeroWord()) }

  function JoinBytes(a: Octet, b: Octet, c: Octet, d: Octet): Word { a + b + c + d }

  /** The words that ByteBufferToWordBuffer makes of the bytes. */
  function WordsOf(bytes: seq<Octet>): (words: seq<Word>)
    ensures |words| == (|bytes| + 3) / 4
  {
    seq((|bytes| + 3) / 4, k requires 0 <= k < (|bytes| + 3) / 4 =>
      JoinBytes(ByteOf(bytes, 4 * k), ByteOf(bytes, 4 * k + 1), ByteOf(bytes, 4 * k + 2), ByteOf(bytes, 4 * k + 3)))
  }

  function NumWords(numBytes: nat): nat { numBytes / 4 + (if numBytes % 4 != 0 then 1 else 0) }

  /** The words that hold the bytes, all of them and no more. */
  lemma NumWordsExact(numBytes: nat)
    ensures NumWords(numBytes) == (numBytes + 3) / 4
    ensures numBytes <= 4 * NumWords(numBytes) && (numBytes > 0 ==> 4 * (NumWords(numBytes) - 1) < numBytes)
  {
  }

  lemma JoinedShifts(a: Octet, b: Octet, c: Octet, d: Octet)
    ensures Or(ZeroWord(), Shl(Widen(a), 24))
         == JoinBytes(a, Narrow(ZeroWord()), Narrow(ZeroWord()), Narrow(ZeroWord()))
    ensures Or(JoinBytes(a, Narrow(ZeroWord()), Narrow(ZeroWord()), Narrow(ZeroWord())), Shl(Widen(b), 16))
         == JoinBytes(a, b, Narrow(ZeroWord()), Narrow(ZeroWord()))
    ensures Or(JoinBytes(a, b, Narrow(ZeroWord()), Narrow(ZeroWord())), Shl(Widen(c), 8))
         == JoinBytes(a, b, c, Narrow(ZeroWord()))
    ensures Or(JoinBytes(a, b, c, Narrow(ZeroWord())), Widen(d)) == JoinBytes(a, b, c, d)
  {
  }

  /** The word that the shifted bytes of group k add up to, wherever the bytes end. */
  lemma WordBuilt(b: seq<Octet>, k: nat, first: Octet)
    requires 4 * k < |b| && first == b[4 * k]
    ensures var w0 := Or(ZeroWord(), Shl(Widen(first), 24));
            if 4 * k + 1 == |b| then WordsOf(b)[k] == w0
            else
              var w1 := Or(w0, Shl(Widen(b[4 * k + 1]), 16));
              if 4 * k + 2 == |b| then WordsOf(b)[k] == w1
              else
                var w2 := Or(w1, Shl(Widen(b[4 * k + 2]), 8));
                if 4 * k + 3 == |b| then WordsOf(b)[k] == w2
                else WordsOf(b)[k] == Or(w2, Widen(b[4 * k + 3]))
  {
    hide Or, Shl, Widen, JoinBytes, Narrow, ZeroWord;
    JoinedShifts(ByteOf(b, 4 * k), ByteOf(b, 4 * k + 1), ByteOf(b, 4 * k + 2), ByteOf(b, 4 * k + 3));
  }

  /** ByteBufferToWordBuffer; the last word may be filled only in part. */
  method ByteBufferToWordBuffer(bytes: seq<Octet>, words: array<Word>, numBytes: uint16)
    requires numBytes <= |bytes| && (numBytes + 3) / 4 <= words.Length
    modifies words
    ensures words[..(numBytes + 3) / 4] == WordsOf(bytes[..numBytes])
    ensures words[(numBytes + 3) / 4..] == old(words[(numBytes + 3) / 4..])
  {
    hide Or, Shl, Widen, JoinBytes, Narrow, WordsOf, ZeroWord, NumWords;
    ghost var was, b := words[..], bytes[..numBytes];
    var numWords := NumWords(numBytes);
    NumWordsExact(numBytes);
    for i := 0 to numWords
      invariant words[..i] == WordsOf(b)[..i] && words[numWords..] == was[numWords..]
    {
      WordBuilt(b, i, bytes[4 * i]);
      var remaining := numBytes - i * 4;
      words[i] := ZeroWord();
      words[i] := Or(words[i], Shl(Widen(bytes[i * 4]), 24));
      remaining := remaining - 1;
      if remaining == 0 { break; }
      words[i] := Or(words[i], Shl(Widen(bytes[i * 4 + 1]), 16));
      remaining := remaining - 1;
      if remaining == 0 { break; }
      words[i] := Or(words[i], Shl(Widen(bytes[i * 4 + 2]), 8));
      remaining := remaining - 1;
      if remaining == 0 { break; }
      words[i] := Or(words[i], Widen(bytes[i * 4 + 3]));
    }
  }

  /** The bytes of a word buffer, most significant byte of each word first. */
  function BytesOf(words: seq<Word>): (bytes: seq<Octet>)
    ensures |bytes| == 4 * |words|
  {
    seq(4 * |words|, i requires 0 <= i < 4 * |words| => words[i / 4][8 * (i % 4)..8 * (i % 4) + 8])
  }

  lemma ShiftedBytes(w: Word)
    ensures Narrow(Shr(w, 24)) == w[..8] && Narrow(Shr(w, 16)) == w[8..16]
    ensures Narrow(Shr(w, 8)) == w[16..24] && Narrow(w) == w[24..]
  {
  }

  lemma BytesOfWord(words: seq<Word>, k: nat)
    requires k < |words|
    ensures BytesOf(words)[4 * k] == Narrow(Shr(words[k], 24))
    ensures BytesOf(words)[4 * k + 1] == Narrow(Shr(words[k], 16))
    ensures BytesOf(words)[4 * k + 2] == Narrow(Shr(words[k], 8))
    ensures BytesOf(words)[4 * k + 3] == Narrow(words[k])
  {
    hide Shr, Narrow;
    ShiftedBytes(words[k]);
  }

  /** The next byte of the first n, of which those before at are already there. */
  method PutByte(bytes: array<Octet>, at: nat, x: Octet, n: nat, ghost target: seq<Octet>)
    requires at < n <= bytes.Length && n <= |target|
    requires bytes[..at] == target[..at] && x == target[at]
    modifies bytes
    ensures bytes[..at + 1] == target[..at + 1] && bytes[n..] == old(bytes[n..])
  {
    bytes[at] := x;
    assert bytes[..at] == old(bytes[..at]);
  }

  /** WordBufferToByteBuffer; storing into a uint8_t keeps the low byte, as masking with 0xFF does. */
  method WordBufferToByteBuffer(words: seq<Word>, bytes: array<Octet>, numBytes: uint16)
    requires (numBytes + 3) / 4 <= |words| && numBytes <= bytes.Length
    modifies bytes
    ensures bytes[..numBytes] == BytesOf(words)[..numBytes]
    ensures bytes[numBytes..] == old(bytes[numBytes..])
  {
    hide Shr, Narrow, BytesOf, NumWords;
    ghost var was, target := bytes[numBytes..], BytesOf(words);
    var numWords := NumWords(numBytes);
    NumWordsExact(numBytes);
    for i := 0 to numWords
      invariant bytes[..Min(4 * i, numBytes)] == target[..Min(4 * i, numBytes)] && bytes[numBytes..] == was
    {
      BytesOfWord(words, i);
      var remaining := numBytes - i * 4;
      PutByte(bytes, i * 4, Narrow(Shr(words[i], 24)), numBytes, target);
      remaining := remaining - 1;
      if remaining == 0 { break; }
      PutByte(bytes, i * 4 + 1, Narrow(Shr(words[i], 16)), numBytes, target);
      remaining := remaining - 1;
      if remaining == 0 { break; }
      PutByte(bytes, i * 4 + 2, Narrow(Shr(words[i], 8)), numBytes, target);
      remaining := remaining - 1;
      if remaining == 0 { break; }
      PutByte(bytes, i * 4 + 3, Narrow(words[i]), numBytes, target);
    }
  }

  /** The two buffers carry the same bit stream; converting to words pads it with zeros to a whole word. */
  lemma WordsKeepStream(bytes: seq<Octet>)
    ensures Stream(WordsOf(bytes)) == ByteStream(bytes) + Zeros(32 * |WordsOf(bytes)| - 8 * |bytes|)
  {
    hide WordsOf, Stream, ByteStream, ByteOf, Zeros;
    var s := Stream(WordsOf(bytes));
    var pad := Zeros(|s| - 8 * |bytes|);
    forall i | 0 <= i < |s|
      ensures s[i] == (ByteStream(bytes) + pad)[i]
    {
      var m, r := i / 8, i % 8;
      WordsBit(bytes, m, r);
      PaddedBit(bytes, m, r);
      ZeroAt(|pad|, i - 8 * |bytes|);
    }
  }

  lemma ZeroAt(n: nat, i: int)
    ensures 0 <= i < n ==> !Zeros(n)[i]
  {
  }

  lemma WordsBit(bytes: seq<Octet>, m: nat, r: nat)
    requires m / 4 < |WordsOf(bytes)| && r < 8
    ensures Stream(WordsOf(bytes))[8 * m + r] == ByteOf(bytes, m)[r]
  {
    hide JoinBytes, ByteOf;
    var k, q := m / 4, m % 4;
    assert m == 4 * k + q && (8 * m + r) / 32 == k && (8 * m + r) % 32 == 8 * q + r;
    JoinedBit(ByteOf(bytes, 4 * k), ByteOf(bytes, 4 * k + 1), ByteOf(bytes, 4 * k + 2), ByteOf(bytes, 4 * k + 3), q, r);
  }

  lemma PaddedBit(bytes: seq<Octet>, m: nat, r: nat)
    requires r < 8
    ensures m < |bytes| ==> ByteStream(bytes)[8 * m + r] == ByteOf(bytes, m)[r]
    ensures m >= |bytes| ==> !ByteOf(bytes, m)[r]
  {
    assert (8 * m + r) / 8 == m && (8 * m + r) % 8 == r;
  }

  lemma JoinedBit(a: Octet, b: Octet, c: Octet, d: Octet, q: nat, r: nat)
    requires q < 4 && r < 8
    ensures JoinBytes(a, b, c, d)[8 * q + r] == [a, b, c, d][q][r]
  {
  }

  lemma BytesKeepStream(words: seq<Word>)
    ensures ByteStream(BytesOf(words)) == Stream(words)
  {
    forall i | 0 <= i < 32 * |words|
      ensures ByteStream(BytesOf(words))[i] == Stream(words)[i]
    {
      assert (i / 8) / 4 == i / 32 && 8 * ((i / 8) % 4) + i % 8 == i % 32;
    }
  }

  lemma ByteInWord(words: seq<Word>, k: nat, q: nat)
    requires q < 4 && k < |words|
    ensures BytesOf(words)[4 * k + q] == words[k][8 * q..8 * q + 8]
  {
    assert (4 * k + q) / 4 == k && (4 * k + q) % 4 == q;
  }

  lemma WordAt(bytes: seq<Octet>, k: nat)
    requires 4 * k < |bytes|
    ensures WordsOf(bytes)[k] == JoinBytes(ByteOf(bytes, 4 * k), ByteOf(bytes, 4 * k + 1), ByteOf(bytes, 4 * k + 2),
                                           ByteOf(bytes, 4 * k + 3))
  {
    hide JoinBytes, ByteOf;
  }

  lemma RestoredByte(bytes: seq<Octet>, k: nat, q: nat)
    requires q < 4 && 4 * k + q < |bytes|
    ensures BytesOf(WordsOf(bytes))[4 * k + q] == bytes[4 * k + q]
  {
    hide JoinBytes, BytesOf, WordsOf;
    ByteInWord(WordsOf(bytes), k, q);
    WordAt(bytes, k);
    JoinedByte(ByteOf(bytes, 4 * k), ByteOf(bytes, 4 * k + 1), ByteOf(bytes, 4 * k + 2), ByteOf(bytes, 4 * k + 3), q);
  }

  /** Converting there and back restores every byte. */
  lemma ConversionRoundTrip(bytes: seq<Octet>)
    ensures BytesOf(WordsOf(bytes))[..|bytes|] == bytes
  {
    hide JoinBytes, WordsOf, BytesOf;
    forall i | 0 <= i < |bytes|
      ensures BytesOf(WordsOf(bytes))[i] == bytes[i]
    {
      RestoredByte(bytes, i / 4, i % 4);
    }
  }

  lemma JoinedByte(a: Octet, b: Octet, c: Octet, d: Octet, q: nat)
    requires q < 4
    ensures JoinBytes(a, b, c, d)[8 * q..8 * q + 8] == [a, b, c, d][q]
  {
  }

  /** The byte reader on a buffer and the word reader on its conversion read the same field. */
  lemma ReadersAgree(bytes: seq<Octet>, first: nat, n: nat)
    requires 1 <= n <= 32 && first + n <= 8 * |bytes| <= BYTE_READER_BITS
    ensures RightAligned(Stream(WordsOf(bytes))[first..first + n])
         == RightAligned(WrappedSlice(ByteStream(bytes), first, n))
  {
    hide RightAligned, Stream, ByteStream, WrappedSlice, WordsOf;
    WordsKeepStream(bytes);
    WrappedSliceExact(first, n);
    var s, t := ByteStream(bytes), Stream(WordsOf(bytes));
    assert t[first..first + n] == s[first..first + n];
  }
}
