/**
 The two-partition firmware update: erasing and programming a partition, rewriting its header status,
 verifying it, handing over to it, and the bootloader's choice.
 */
module FirmwareUpdate {
  import opened Arith
  import opened FlashMemory

  const FLASH_BASE: nat := 0x1000_0000
  const FLASH_BYTES: nat := 16384 * 1024
  const BOOTLOADER_BYTES: nat := 176 * 1024
  const HEADER_BYTES: nat := 4 * 1024
  const APP_BYTES: nat := 8096 * 1024
  const PARTITION_BYTES: nat := 8100 * 1024  // header and application
  const SECTOR_BYTES: nat := 4096
  const PAGE_BYTES: nat := 256
  const MAX_SECTORS_PER_ERASE: nat := 160
  const SRAM_BASE: nat := 0x2000_0000
  const MAGIC_WORD: bv32 := 0x0AD5BEEE
  const STATUS_OFFSET: nat := 16

  /** Offset in flash of a partition's header. */
  function PartStart(p: nat): nat
    requires p < 2
  {
    if p == 0 then BOOTLOADER_BYTES else BOOTLOADER_BYTES + PARTITION_BYTES
  }

  function AppStart(p: nat): nat
    requires p < 2
  {
    PartStart(p) + HEADER_BYTES
  }

  datatype Status = Blank | Valid | Stale | Invalid

  function StatusWord(s: Status): bv32 {
    match s
    case Blank => 0xFFFFFFFF
    case Valid => 0xFFADFFFF
    case Stale => 0xDEADFFFF
    case Invalid => 0xDEADDEAD
  }

  function Rank(s: Status): nat {
    match s
    case Blank => 0
    case Valid => 1
    case Stale => 2
    case Invalid => 3
  }

  datatype Header = Header(magic: bv32, version: bv32, appSize: bv32, appCrc: bv32, status: bv32)

  function HeaderAt(f: Flash, p: nat): Header
    requires p < 2 && |f| == FLASH_BYTES
  {
    var at := PartStart(p);
    Header(Word(f, at), Word(f, at + 4), Word(f, at + 8), Word(f, at + 12), Word(f, at + STATUS_OFFSET))
  }

  /** What BootPartition and the bootloader accept: the right magic word, and status Valid or Stale. */
  predicate Bootable(f: Flash, p: nat)
    requires p < 2 && |f| == FLASH_BYTES
  {
    var h := HeaderAt(f, p);
    h.magic == MAGIC_WORD && (h.status == StatusWord(Valid) || h.status == StatusWord(Stale))
  }

  lemma BootableExactly(f: Flash, p: nat)
    requires p < 2 && |f| == FLASH_BYTES
    ensures Bootable(f, p)
        <==> Word(f, PartStart(p)) == 0x0AD5BEEE
             && (Word(f, PartStart(p) + 16) == 0xFFADFFFF || Word(f, PartStart(p) + 16) == 0xDEADFFFF)
  {
    hide WordOf;
  }

  // ----- Erasing -----

  predicate EraseAllowed(partition: uint16, offset: uint32, len: uint32) {
    partition < 2 && offset <= PARTITION_BYTES && len <= PARTITION_BYTES - offset && offset % SECTOR_BYTES == 0
  }

  /** The number of bytes erased: up to the end of the sector that holds the last byte. */
  function EraseSpan(offset: nat, len: nat): nat
    requires offset % SECTOR_BYTES == 0
  {
    ((offset + len + 4095) / 4096 - offset / 4096) * 4096
  }

  /** The span covers the request, is less than one sector longer, and stays inside the partition. */
  lemma EraseSpanExact(offset: nat, len: nat)
    requires offset % SECTOR_BYTES == 0 && offset + len <= PARTITION_BYTES
    ensures len <= EraseSpan(offset, len) < len + SECTOR_BYTES
    ensures EraseSpan(offset, len) % SECTOR_BYTES == 0
    ensures offset + EraseSpan(offset, len) <= PARTITION_BYTES
  {
  }

  function EraseResult(f: Flash, partition: uint16, offset: uint32, len: uint32): (r: Flash)
    requires |f| == FLASH_BYTES
    ensures |r| == |f|
  {
    if EraseAllowed(partition, offset, len) then
      EraseSpanExact(offset, len);
      Erased(f, PartStart(partition) + offset, EraseSpan(offset, len))
    else f
  }

  /** A request for whole sectors inside the partition clears every byte of it and none behind its last sector; any
      other request changes nothing. */
  lemma ErasedExactly(f: Flash, partition: uint16, offset: uint32, len: uint32)
    requires |f| == FLASH_BYTES
    ensures var r := EraseResult(f, partition, offset, len);
            if partition < 2 && offset + len <= PARTITION_BYTES && offset % 4096 == 0 then
              var at := PartStart(partition) + offset;
              && at + (len + 4095) / 4096 * 4096 <= |f| && SameOutside(f, r, at, (len + 4095) / 4096 * 4096)
              && forall i :: at <= i < at + len ==> r[i] == 0xFF
            else r == f
  {
    if EraseAllowed(partition, offset, len) {
      EraseSpanExact(offset, len);
      assert EraseSpan(offset, len) == (len + 4095) / 4096 * 4096;
    }
  }

  lemma ErasedInTwo(f: Flash, at: nat, n: nat, m: nat)
    requires at + n + m <= |f|
    ensures Erased(Erased(f, at, n), at + n, m) == Erased(f, at, n + m)
  {
  }

  method EraseFlashPartition(flash: array<bv8>, partition: uint16, offset: uint32, len: uint32) returns (ok: bool)
    requires flash.Length == FLASH_BYTES
    modifies flash
    ensures ok <==> partition < 2 && offset + len <= PARTITION_BYTES && offset % 4096 == 0
    ensures flash[..] == EraseResult(old(flash[..]), partition, offset, len)
  {
    if partition >= 2 {
      return false;
    }
    if offset > PARTITION_BYTES {
      return false;
    }
    if len > PARTITION_BYTES - offset {
      return false;
    }
    if offset % SECTOR_BYTES != 0 {
      return false;
    }
    ghost var f := flash[..];
    EraseSpanExact(offset, len);
    var startSector := offset / 4096;
    var endSector := (offset as int + len as int + 4095) / 4096;
    var total := endSector - startSector;
    assert total * 4096 == EraseSpan(offset, len);
    if total == 0 {
      assert flash[..] == Erased(f, PartStart(partition) + offset, 0);
      return true;
    }
    var remaining := total;
    var sector := startSector;
    assert flash[..] == Erased(f, PartStart(partition) + offset, 0);
    while remaining > 0
      invariant 0 <= remaining <= total && sector == startSector + (total - remaining)
      invariant flash[..] == Erased(f, PartStart(partition) + offset, (total - remaining) * 4096)
    {
      var count := Min(remaining, MAX_SECTORS_PER_ERASE);
      ErasedInTwo(f, PartStart(partition) + offset, (total - remaining) * 4096, count * 4096);
      FlashRangeErase(flash, PartStart(partition) + sector * 4096, count * 4096);
      remaining := remaining - count;
      sector := sector + count;
    }
    ok := true;
  }

  // ----- Programming -----

  /** The buffer padded with 0xFF to whole pages. */
  function Padded(data: seq<bv8>): (r: seq<bv8>)
    ensures |data| <= |r| < |data| + PAGE_BYTES && |r| % PAGE_BYTES == 0
    ensures r[..|data|] == data && forall i :: |data| <= i < |r| ==> r[i] == 0xFF
  {
    data + seq((|data| + 255) / 256 * 256 - |data|, _ => 0xFF)
  }

  predicate WriteAllowed(partition: uint16, offset: uint32, len: nat) {
    partition < 2 && offset <= PARTITION_BYTES && len <= PARTITION_BYTES
  }

  method PartialWriteFlashPartition(flash: array<bv8>, partition: uint16, offset: uint32, data: seq<bv8>)
    returns (ok: bool)
    requires flash.Length == FLASH_BYTES && |data| < U32_LIMIT
    requires WriteAllowed(partition, offset, |data|) ==>
               PartStart(partition) + offset + |Padded(data)| <= FLASH_BYTES
    modifies flash
    ensures ok <==> partition < 2 && offset <= PARTITION_BYTES && |data| <= PARTITION_BYTES
    ensures flash[..] == if ok then Programmed(old(flash[..]), PartStart(partition) + offset, Padded(data))
                         else old(flash[..])
  {
    if partition >= 2 {
      return false;
    }
    if offset > PARTITION_BYTES {
      return false;
    }
    if |data| > PARTITION_BYTES {
      return false;
    }
    FlashRangeProgram(flash, PartStart(partition) + offset, Padded(data));
    ok := true;
  }

  // ----- Header status -----

  /** The page that WriteHeaderStatusWord programs: the header as it stands, with the new status word. */
  function HeaderPage(f: Flash, p: nat, s: Status): (r: seq<bv8>)
    requires p < 2 && |f| == FLASH_BYTES
    ensures |r| == PAGE_BYTES
  {
    Padded(f[PartStart(p)..PartStart(p) + STATUS_OFFSET] + WordBytes(StatusWord(s)))
  }

  function StatusWritten(f: Flash, p: nat, s: Status): (r: Flash)
    requires p < 2 && |f| == FLASH_BYTES
    ensures |r| == |f|
  {
    Programmed(f, PartStart(p), HeaderPage(f, p, s))
  }

  method WriteHeaderStatusWord(flash: array<bv8>, p: uint16, s: Status) returns (ok: bool)
    requires flash.Length == FLASH_BYTES && p < 2
    modifies flash
    ensures ok && flash[..] == StatusWritten(old(flash[..]), p, s)
  {
    ghost var f := flash[..];
    var header := flash[PartStart(p)..PartStart(p) + STATUS_OFFSET] + WordBytes(StatusWord(s));
    assert header == f[PartStart(p)..PartStart(p) + STATUS_OFFSET] + WordBytes(StatusWord(s));
    assert |Padded(header)| == PAGE_BYTES;
    ok := PartialWriteFlashPartition(flash, p, 0, header);
  }

  lemma AndIdentities(b: bv8)
    ensures And8(b, b) == b && And8(b, 0xFF) == b
  {
  }

  lemma ProgrammedAt(f: Flash, at: nat, data: seq<bv8>, i: nat)
    requires at + |data| <= |f| && i < |f|
    ensures Programmed(f, at, data)[i] == if at <= i < at + |data| then And8(f[i], data[i - at]) else f[i]
  {
  }

  lemma HeaderPageAt(f: Flash, p: nat, s: Status, i: nat)
    requires p < 2 && |f| == FLASH_BYTES && i < PAGE_BYTES
    ensures HeaderPage(f, p, s)[i]
         == if i < STATUS_OFFSET then f[PartStart(p) + i]
            else if i < STATUS_OFFSET + 4 then WordBytes(StatusWord(s))[i - STATUS_OFFSET]
            else 0xFF
  {
    hide WordBytes, StatusWord;
    var header := f[PartStart(p)..PartStart(p) + STATUS_OFFSET] + WordBytes(StatusWord(s));
    assert HeaderPage(f, p, s) == Padded(header);
    hide Padded;
    if i < |header| {
      assert Padded(header)[..|header|][i] == header[i];
    }
  }

  lemma StatusWrittenAt(f: Flash, p: nat, s: Status, i: nat)
    requires p < 2 && |f| == FLASH_BYTES && i < |f|
    ensures var k := PartStart(p) + STATUS_OFFSET;
            StatusWritten(f, p, s)[i] == if k <= i < k + 4 then And8(f[i], WordBytes(StatusWord(s))[i - k]) else f[i]
  {
    hide And8, WordBytes, StatusWord, HeaderPage, Programmed;
    AndIdentities(f[i]);
    var at := PartStart(p);
    ProgrammedAt(f, at, HeaderPage(f, p, s), i);
    if at <= i < at + PAGE_BYTES {
      HeaderPageAt(f, p, s, i - at);
    }
  }

  /** Rewriting the whole header changes no byte of flash but the status word, which keeps only the bits
      that both the old and the new status have. */
  lemma StatusWrittenEffect(f: Flash, p: nat, s: Status)
    requires p < 2 && |f| == FLASH_BYTES
    ensures SameOutside(f, StatusWritten(f, p, s), PartStart(p) + STATUS_OFFSET, 4)
    ensures HeaderAt(StatusWritten(f, p, s), p)
         == HeaderAt(f, p).(status := And32(HeaderAt(f, p).status, StatusWord(s)))
  {
    hide And8, And32, WordBytes, StatusWord, WordOf, StatusWritten;
    var g, k := StatusWritten(f, p, s), PartStart(p) + STATUS_OFFSET;
    var w := WordBytes(StatusWord(s));
    forall i | 0 <= i < |f|
      ensures g[i] == if k <= i < k + 4 then And8(f[i], w[i - k]) else f[i]
    {
      StatusWrittenAt(f, p, s, i);
    }
    WordAndAt(f, g, k, StatusWord(s));
  }

  lemma WordAndAt(f: Flash, g: Flash, k: nat, w: bv32)
    requires k + 4 <= |f| == |g|
    requires forall i :: k <= i < k + 4 ==> g[i] == And8(f[i], WordBytes(w)[i - k])
    ensures Word(g, k) == And32(Word(f, k), w)
  {
    hide And8, And32, WordOf, WordBytes;
    var b := WordBytes(w);
    WordAnd(f[k], f[k + 1], f[k + 2], f[k + 3], b[0], b[1], b[2], b[3]);
    WordOfBytes(w);
    assert g[k] == And8(f[k], b[0]) && g[k + 1] == And8(f[k + 1], b[1]);
    assert g[k + 2] == And8(f[k + 2], b[2]) && g[k + 3] == And8(f[k + 3], b[3]);
  }

  /** Writing a status over a status gives the lower of the two: the words form a chain under bit clearing. */
  lemma StatusOnlyMovesDown(a: Status, b: Status)
    ensures And32(StatusWord(a), StatusWord(b)) == StatusWord(if Rank(a) >= Rank(b) then a else b)
  {
    assert 0xFFADFFFF & 0xDEADFFFF == 0xDEADFFFF as bv32;
    assert 0xFFADFFFF & 0xDEADDEAD == 0xDEADDEAD as bv32;
    assert 0xDEADFFFF & 0xDEADDEAD == 0xDEADDEAD as bv32;
  }

  // ----- Verifying -----

  function Value(w: bv32): nat { w as nat }

  predicate IsOdd(w: bv32) { w & 1 == 1 }

  /** The image that the header describes; its CRC-32 is computed by hardware and is a parameter here. */
  predicate PassesVerification(f: Flash, p: nat, crc32: seq<bv8> -> bv32)
    requires p < 2 && |f| == FLASH_BYTES
  {
    var h := HeaderAt(f, p);
    var size, app := Value(h.appSize), AppStart(p);
    var resetVector := Word(f, app + 4);
    && size <= APP_BYTES
    && crc32(f[app..app + size]) == h.appCrc
    && SRAM_BASE <= Value(Word(f, app))
    && FLASH_BASE + app <= Value(resetVector) <= FLASH_BASE + app + size
    && IsOdd(resetVector)
  }

  /** The five checks, spelled out: size, CRC, initial stack pointer in RAM, and a reset vector into the image whose
      lowest bit is set. */
  lemma PassesExactly(f: Flash, p: nat, crc32: seq<bv8> -> bv32)
    requires p < 2 && |f| == FLASH_BYTES
    ensures PassesVerification(f, p, crc32)
        <==> var header, app := PartStart(p), PartStart(p) + 4096;
             var size, reset := Value(Word(f, header + 8)), Word(f, app + 4);
             && size <= 8096 * 1024 && crc32(f[app..app + size]) == Word(f, header + 12)
             && Value(Word(f, app)) >= 0x2000_0000
             && 0x1000_0000 + app <= Value(reset) <= 0x1000_0000 + app + size && reset & 1 == 1
  {
    hide WordOf, Word, Value;
  }

  function VerifyResult(f: Flash, p: nat, crc32: seq<bv8> -> bv32): (r: Flash)
    requires p < 2 && |f| == FLASH_BYTES
    ensures |r| == |f|
  {
    StatusWritten(f, p, if PassesVerification(f, p, crc32) then Valid else Invalid)
  }

  /** A blank header is marked with the verdict, and so is a valid one; one that says less keeps what it says. */
  lemma VerifyMarks(f: Flash, p: nat, crc32: seq<bv8> -> bv32, a: Status)
    requires p < 2 && |f| == FLASH_BYTES && HeaderAt(f, p).status == StatusWord(a)
    ensures HeaderAt(VerifyResult(f, p, crc32), p).status
         == if !PassesVerification(f, p, crc32) then 0xDEADDEAD
            else if a.Blank? then 0xFFADFFFF
            else StatusWord(a)
    ensures SameOutside(f, VerifyResult(f, p, crc32), PartStart(p) + STATUS_OFFSET, 4)
  {
    hide HeaderAt, StatusWritten, PassesVerification, And32;
    var verdict := if PassesVerification(f, p, crc32) then Valid else Invalid;
    StatusWrittenEffect(f, p, verdict);
    StatusOnlyMovesDown(a, verdict);
  }

  method VerifyFlashPartition(flash: array<bv8>, p: uint16, modifyHeader: bool, crc32: seq<bv8> -> bv32)
    returns (ok: bool)
    requires flash.Length == FLASH_BYTES
    modifies flash
    ensures ok <==> p < 2 && PassesVerification(old(flash[..]), p, crc32)
    ensures flash[..] == if p < 2 && modifyHeader then VerifyResult(old(flash[..]), p, crc32) else old(flash[..])
  {
    hide StatusWritten, WordOf, Value, IsOdd;
    if p >= 2 {
      return false;
    }
    var h := HeaderAt(flash[..], p);
    var size := Value(h.appSize);
    var app := AppStart(p);
    ok := true;
    if size > APP_BYTES {
      ok := false;
    } else if crc32(flash[..][app..app + size]) != h.appCrc {
      ok := false;
    } else {
      var msp, resetVector := Word(flash[..], app), Word(flash[..], app + 4);
      if Value(msp) < SRAM_BASE {
        ok := false;
      } else if Value(resetVector) < FLASH_BASE + app || Value(resetVector) > FLASH_BASE + app + size {
        ok := false;
      } else if !IsOdd(resetVector) {
        ok := false;
      }
    }
    if modifyHeader {
      var written := WriteHeaderStatusWord(flash, p, if ok then Valid else Invalid);
      ok := ok && written;
    }
  }

  // ----- Booting -----

  datatype Jump = NoJump | JumpTo(p: nat)

  predicate AmWithin(p: nat, pc: nat)
    requires p < 2
  {
    FLASH_BASE + AppStart(p) <= pc < FLASH_BASE + AppStart(p) + APP_BYTES
  }

  /** Flash after a successful hand-over: the partition that runs the code marks itself stale first. */
  function HandedOver(f: Flash, pc: nat): (r: Flash)
    requires |f| == FLASH_BYTES
    ensures |r| == |f|
  {
    if AmWithin(0, pc) then StatusWritten(f, 0, Stale)
    else if AmWithin(1, pc) then StatusWritten(f, 1, Stale)
    else f
  }

  method BootPartition(flash: array<bv8>, partition: uint16, pc: nat) returns (jump: Jump)
    requires flash.Length == FLASH_BYTES
    modifies flash
    ensures jump == if partition < 2 && Bootable(old(flash[..]), partition) then JumpTo(partition) else NoJump
    ensures jump.JumpTo? <==> partition < 2 && var h := HeaderAt(old(flash[..]), partition);
                              h.magic == 0x0AD5BEEE && (h.status == 0xFFADFFFF || h.status == 0xDEADFFFF)
    ensures flash[..] == if jump.JumpTo? then HandedOver(old(flash[..]), pc) else old(flash[..])
  {
    hide StatusWritten, WordOf;
    if partition >= 2 {
      return NoJump;
    }
    var h := HeaderAt(flash[..], partition);
    if h.magic != MAGIC_WORD {
      return NoJump;
    }
    if h.status != StatusWord(Valid) && h.status != StatusWord(Stale) {
      return NoJump;
    }
    var ok := true;
    if AmWithin(0, pc) {
      ok := WriteHeaderStatusWord(flash, 0, Stale);
    } else if AmWithin(1, pc) {
      ok := WriteHeaderStatusWord(flash, 1, Stale);
    }
    if !ok {
      return NoJump;
    }
    jump := JumpTo(partition);
  }

  predicate BootableAs(f: Flash, p: nat, s: Status)
    requires p < 2 && |f| == FLASH_BYTES
  {
    HeaderAt(f, p).magic == MAGIC_WORD && HeaderAt(f, p).status == StatusWord(s)
  }

  /** The two passes of the bootloader: valid partitions first, stale ones second, lower index first. */
  function BootChoice(f: Flash): Jump
    requires |f| == FLASH_BYTES
  {
    if BootableAs(f, 0, Valid) then JumpTo(0)
    else if BootableAs(f, 1, Valid) then JumpTo(1)
    else if BootableAs(f, 0, Stale) then JumpTo(0)
    else if BootableAs(f, 1, Stale) then JumpTo(1)
    else NoJump
  }

  /** The bootloader main: each BootPartition call either jumps away or returns for the next attempt. */
  method Bootloader(flash: array<bv8>, pc: nat) returns (jump: Jump)
    requires flash.Length == FLASH_BYTES && !AmWithin(0, pc) && !AmWithin(1, pc)
    modifies flash
    ensures flash[..] == old(flash[..])
    ensures jump == BootChoice(flash[..])
  {
    hide WordOf, Word, StatusWord;
    StatusWordsDiffer();
    ghost var f := flash[..];
    for i: uint16 := 0 to 2
      invariant flash[..] == f
      invariant forall p :: 0 <= p < i ==> !BootableAs(f, p, Valid)
    {
      if HeaderAt(flash[..], i).status == StatusWord(Valid) {
        jump := BootPartition(flash, i, pc);
        if jump.JumpTo? {
          return;
        }
      }
    }
    for i: uint16 := 0 to 2
      invariant flash[..] == f
      invariant forall p :: 0 <= p < 2 ==> !BootableAs(f, p, Valid)
      invariant forall p :: 0 <= p < i ==> !BootableAs(f, p, Stale)
    {
      if HeaderAt(flash[..], i).status == StatusWord(Stale) {
        jump := BootPartition(flash, i, pc);
        if jump.JumpTo? {
          return;
        }
      }
    }
    jump := NoJump;
  }

  lemma StatusWordsDiffer()
    ensures StatusWord(Valid) != StatusWord(Stale)
  {
  }

  /** The bootloader boots something exactly when something is bootable, never a Blank or Invalid partition,
      and a Stale one only when no Valid one has the right magic word; the second only when the first is of no use or
      stale where it is valid. */
  lemma BootChoiceSound(f: Flash)
    requires |f| == FLASH_BYTES
    ensures BootChoice(f).JumpTo? <==> Bootable(f, 0) || Bootable(f, 1)
    ensures BootChoice(f).JumpTo? ==>
              var p := BootChoice(f).p;
              && p < 2 && Bootable(f, p)
              && HeaderAt(f, p).status != StatusWord(Blank) && HeaderAt(f, p).status != StatusWord(Invalid)
              && (HeaderAt(f, p).status == StatusWord(Stale) ==>
                    !BootableAs(f, 0, Valid) && !BootableAs(f, 1, Valid))
              && (p == 1 && Bootable(f, 0) ==> HeaderAt(f, 0).status == StatusWord(Stale)
                                               && HeaderAt(f, 1).status == StatusWord(Valid))
  {
    hide Word;
  }
}
