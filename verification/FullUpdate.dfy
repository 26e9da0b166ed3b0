/**
 A whole update from end to end: the complement partition is erased, the new image is written in pieces, verified and
 booted.
 */
module FullUpdate {
  import opened Arith
  import opened FlashMemory
  import opened FirmwareUpdate
  import opened UpdateRuns

  /** Erased flash takes what is written to it. */
  lemma EraseThenWrite(f: Flash, at: nat, n: nat, data: seq<bv8>)
    requires |data| <= |Padded(data)| <= n && at + n <= |f|
    ensures var g := Programmed(Erased(f, at, n), at, Padded(data));
            && g[at..at + |data|] == data && SameOutside(Erased(f, at, n), g, at, |data|)
  {
    hide And8, Padded;
    var e, g := Erased(f, at, n), Programmed(Erased(f, at, n), at, Padded(data));
    forall i | at <= i < at + |Padded(data)|
      ensures g[i] == if i < at + |data| then data[i - at] else e[i]
    {
      AndOnes(Padded(data)[i - at]);
      if i < at + |data| {
        assert Padded(data)[..|data|][i - at] == data[i - at];
      }
    }
  }

  lemma AndOnes(b: bv8)
    ensures And8(0xFF, b) == b
  {
  }

  /** All pieces but the last fill whole pages. */
  predicate WholePages(pieces: seq<seq<bv8>>) {
    forall i :: 0 <= i < |pieces| - 1 ==> |pieces[i]| % PAGE_BYTES == 0
  }

  function Concat(pieces: seq<seq<bv8>>): seq<bv8>
    decreases |pieces|
  {
    if pieces == [] then [] else pieces[0] + Concat(pieces[1..])
  }

  /** Flash after the pieces have been written to partition p, one behind the other. */
  function WrittenInPieces(f: Flash, p: nat, offset: nat, pieces: seq<seq<bv8>>): (r: Flash)
    requires p < 2 && |f| == FLASH_BYTES && offset + |Concat(pieces)| <= PARTITION_BYTES
    ensures |r| == FLASH_BYTES
    decreases |pieces|
  {
    if pieces == [] then f
    else WrittenInPieces(WriteResult(f, p, offset, pieces[0]), p, offset + |pieces[0]|, pieces[1..])
  }

  lemma PaddedWhole(a: seq<bv8>)
    requires |a| % PAGE_BYTES == 0
    ensures Padded(a) == a
  {
  }

  lemma PaddedJoin(a: seq<bv8>, b: seq<bv8>)
    requires |a| % PAGE_BYTES == 0
    ensures Padded(a + b) == a + Padded(b)
  {
    assert (|a| + |b| + 255) / 256 * 256 == |a| + (|b| + 255) / 256 * 256;
  }

  lemma ProgrammedJoin(f: Flash, at: nat, a: seq<bv8>, b: seq<bv8>)
    requires at + |a| + |b| <= |f|
    ensures Programmed(Programmed(f, at, a), at + |a|, b) == Programmed(f, at, a + b)
  {
    hide And8;
  }

  lemma NoPieces(f: Flash, at: nat)
    requires at <= |f|
    ensures Programmed(f, at, Padded([])) == f
  {
  }

  /** Writing in pieces of whole pages is writing it all at once. */
  lemma {:induction false} PiecesAreOne(f: Flash, p: nat, offset: nat, pieces: seq<seq<bv8>>)
    requires p < 2 && |f| == FLASH_BYTES && offset + |Concat(pieces)| <= PARTITION_BYTES && WholePages(pieces)
    ensures PartStart(p) + offset + |Padded(Concat(pieces))| <= FLASH_BYTES
    ensures WrittenInPieces(f, p, offset, pieces) == Programmed(f, PartStart(p) + offset, Padded(Concat(pieces)))
    decreases |pieces|
  {
    hide Padded, Programmed;
    if pieces == [] {
      NoPieces(f, PartStart(p) + offset);
    } else if |pieces| == 1 {
      assert Concat(pieces) == pieces[0] + [] == pieces[0];
    } else {
      var a, b, at := pieces[0], Concat(pieces[1..]), PartStart(p) + offset;
      PaddedWhole(a);
      PaddedJoin(a, b);
      PiecesAreOne(WriteResult(f, p, offset, a), p, offset + |a|, pieces[1..]);
      ProgrammedJoin(f, at, a, Padded(b));
    }
  }

  /** An image for partition p as it is sent: header with a blank status, then the application. */
  predicate WellMade(d: seq<bv8>, p: nat, crc32: seq<bv8> -> bv32)
    requires p < 2
  {
    && HEADER_BYTES + 8 <= |d| <= PARTITION_BYTES
    && Word(d, 0) == MAGIC_WORD && Word(d, STATUS_OFFSET) == StatusWord(Blank)
    && var size, reset := Value(Word(d, 8)), Word(d, HEADER_BYTES + 4);
       && size <= APP_BYTES && HEADER_BYTES + size <= |d|
       && crc32(d[HEADER_BYTES..HEADER_BYTES + size]) == Word(d, 12)
       && SRAM_BASE <= Value(Word(d, HEADER_BYTES))
       && FLASH_BASE + AppStart(p) <= Value(reset) <= FLASH_BASE + AppStart(p) + size && IsOdd(reset)
  }

  lemma WordInside(g: Flash, at: nat, d: seq<bv8>, k: nat)
    requires at + |d| <= |g| && g[at..at + |d|] == d && k + 4 <= |d|
    ensures Word(g, at + k) == Word(d, k)
  {
    hide WordOf;
    assert d[k] == g[at + k] && d[k + 1] == g[at + k + 1] && d[k + 2] == g[at + k + 2] && d[k + 3] == g[at + k + 3];
  }

  lemma SliceInside(g: Flash, at: nat, d: seq<bv8>, from: nat, to: nat)
    requires at + |d| <= |g| && g[at..at + |d|] == d && from <= to <= |d|
    ensures g[at + from..at + to] == d[from..to]
  {
    var x, y := g[at + from..at + to], d[from..to];
    forall i | 0 <= i < |x|
      ensures x[i] == y[i]
    {
      assert d[from + i] == g[at + from + i];
    }
  }

  lemma WellMadeFits(d: seq<bv8>, p: nat, crc32: seq<bv8> -> bv32)
    requires p < 2 && WellMade(d, p, crc32)
    ensures |d| <= PARTITION_BYTES
  {
  }

  /** A well made image that lies in its partition passes, and is not marked yet. */
  lemma WellMadePasses(g: Flash, p: nat, d: seq<bv8>, crc32: seq<bv8> -> bv32)
    requires p < 2 && |g| == FLASH_BYTES && WellMade(d, p, crc32) && g[PartStart(p)..PartStart(p) + |d|] == d
    ensures PassesVerification(g, p, crc32) && HasStatus(g, p, Blank) && HeaderAt(g, p).magic == MAGIC_WORD
  {
    hide Word, Value, IsOdd, StatusWord;
    var at := PartStart(p);
    WordInside(g, at, d, 0);
    WordInside(g, at, d, 8);
    WordInside(g, at, d, 12);
    WordInside(g, at, d, STATUS_OFFSET);
    WordInside(g, at, d, HEADER_BYTES);
    WordInside(g, at, d, HEADER_BYTES + 4);
    var size := Value(Word(d, 8));
    SliceInside(g, at, d, HEADER_BYTES, HEADER_BYTES + size);
  }

  /** Erasing the whole partition and writing the pieces puts the image there and leaves the other partition alone. */
  lemma WrittenImage(f: Flash, p: nat, pieces: seq<seq<bv8>>) returns (g: Flash)
    requires p < 2 && |f| == FLASH_BYTES && WholePages(pieces) && |Concat(pieces)| <= PARTITION_BYTES
    ensures g == WrittenInPieces(EraseResult(f, p, 0, PARTITION_BYTES), p, 0, pieces) && |g| == FLASH_BYTES
    ensures g[PartStart(p)..PartStart(p) + |Concat(pieces)|] == Concat(pieces)
    ensures SamePartition(f, g, Complement(p))
  {
    hide Padded, Programmed, WrittenInPieces, Concat;
    var d, at, e := Concat(pieces), PartStart(p), EraseResult(f, p, 0, PARTITION_BYTES);
    g := WrittenInPieces(e, p, 0, pieces);
    assert EraseSpan(0, PARTITION_BYTES) == PARTITION_BYTES;
    assert e == Erased(f, at, PARTITION_BYTES);
    PaddedFits(d);
    PiecesAreOne(e, p, 0, pieces);
    EraseThenWrite(f, at, PARTITION_BYTES, d);
    OutsideIsOther(f, e, p, 0, PARTITION_BYTES);
    OutsideIsOther(e, g, p, 0, |d|);
  }

  lemma PaddedFits(d: seq<bv8>)
    requires |d| <= PARTITION_BYTES
    ensures |d| <= |Padded(d)| <= PARTITION_BYTES
  {
  }

  /** An update with a well made image, sent in pieces of whole pages, succeeds: it passes verification, is marked
      Valid, and the application boots it, leaving its own partition stale. */
  lemma UpdateSucceeds(f: Flash, p: nat, pieces: seq<seq<bv8>>, crc32: seq<bv8> -> bv32)
    requires p < 2 && |f| == FLASH_BYTES && WholePages(pieces) && WellMade(Concat(pieces), Complement(p), crc32)
    requires Bootable(f, p)
    ensures var c := Complement(p);
            var erased := Completed(f, p, Erase(0, PARTITION_BYTES), crc32).flash;
            var written := WrittenInPieces(erased, c, 0, pieces);
            var verified := Completed(written, p, Verify, crc32).flash;
            var booted := Completed(verified, p, Boot, crc32);
            && PassesVerification(written, c, crc32) && HasStatus(verified, c, Valid)
            && booted.running == App(c) && |booted.flash| == FLASH_BYTES
            && HasStatus(booted.flash, c, Valid) && HasStatus(booted.flash, p, Stale)
            && BootChoice(booted.flash) == JumpTo(c)
  {
    hide WellMade, PassesVerification, HeaderAt, StatusWritten, StatusWord, Concat, WrittenInPieces, EraseResult;
    var c := Complement(p);
    WellMadeFits(Concat(pieces), c, crc32);
    var g := WrittenImage(f, c, pieces);
    WellMadePasses(g, c, Concat(pieces), crc32);
    BlankBecomesValid(g, c);
    StatusWrittenEffect(g, c, Valid);
    var v := StatusWritten(g, c, Valid);
    OutsideIsOther(g, v, c, STATUS_OFFSET, 4);
    SamePartitionBootable(f, g, p);
    SamePartitionBootable(g, v, p);
    HandOver(v, p);
  }

  lemma BlankBecomesValid(g: Flash, c: nat)
    requires c < 2 && |g| == FLASH_BYTES && HasStatus(g, c, Blank) && HeaderAt(g, c).magic == MAGIC_WORD
    ensures HasStatus(StatusWritten(g, c, Valid), c, Valid) && BootableAs(StatusWritten(g, c, Valid), c, Valid)
    ensures Bootable(StatusWritten(g, c, Valid), c)
  {
    hide HeaderAt, StatusWritten, StatusWord, And32;
    StatusWrittenEffect(g, c, Valid);
    StatusOnlyMovesDown(Blank, Valid);
  }

  /** Booting a valid complement leaves it the only choice. */
  lemma HandOver(v: Flash, p: nat)
    requires p < 2 && |v| == FLASH_BYTES && Bootable(v, p) && BootableAs(v, Complement(p), Valid)
    ensures var w := StatusWritten(v, p, Stale);
            && HasStatus(w, p, Stale) && HasStatus(w, Complement(p), Valid)
            && BootChoice(w) == JumpTo(Complement(p))
  {
    hide HeaderAt, StatusWritten, StatusWord, And32;
    var w := StatusWritten(v, p, Stale);
    StatusWrittenEffect(v, p, Stale);
    OutsideIsOther(v, w, p, STATUS_OFFSET, 4);
    SamePartitionBootable(v, w, Complement(p));
    StatusOnlyMovesDown(Valid, Stale);
    StatusOnlyMovesDown(Stale, Stale);
    StatusWordsDiffer();
  }

  /** An image that does not pass is marked Invalid, whatever its status was, and is not booted: the application goes on
      running. */
  lemma DamagedIsRefused(f: Flash, p: nat, crc32: seq<bv8> -> bv32, a: Status)
    requires p < 2 && |f| == FLASH_BYTES && !PassesVerification(f, Complement(p), crc32)
    requires HasStatus(f, Complement(p), a)
    ensures var verified := Completed(f, p, Verify, crc32).flash;
            && HasStatus(verified, Complement(p), Invalid) && SamePartition(f, verified, p)
            && Completed(verified, p, Boot, crc32) == System(verified, App(p))
  {
    hide PassesVerification, HeaderAt, StatusWritten, And32;
    var c := Complement(p);
    StatusWrittenEffect(f, c, Invalid);
    StatusOnlyMovesDown(a, Invalid);
    OutsideIsOther(f, StatusWritten(f, c, Invalid), c, STATUS_OFFSET, 4);
  }
}
