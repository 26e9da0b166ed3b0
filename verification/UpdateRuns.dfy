/**
 Whole runs of the update process: the running application erases, writes, verifies and boots its
 complement partition, and power may fail before, during or after any command.
 */
module UpdateRuns {
  import opened Arith
  import opened FlashMemory
  import opened FirmwareUpdate

  datatype Running = Off | App(p: nat)

  datatype System = System(flash: Flash, running: Running)

  datatype Command = Erase(offset: uint32, len: uint32) | Write(offset: uint32, data: seq<bv8>) | Verify | Boot

  datatype Event = Complete(cmd: Command) | PowerLoss(cmd: Command) | PowerOn

  /** GetComplementaryFlashPartition of the running application. */
  function Complement(p: nat): nat { if p == 0 then 1 else 0 }

  /** Code that runs from partition p computes its complement and, on a hand-over, marks p stale. */
  lemma RunnerKnowsItself(f: Flash, p: nat, pc: nat)
    requires p < 2 && |f| == FLASH_BYTES && AmWithin(p, pc)
    ensures Complement(p) == if AmWithin(0, pc) then 1 else 0
    ensures HandedOver(f, pc) == StatusWritten(f, p, Stale)
  {
    hide StatusWritten;
  }

  /** The write routine checks offset and length separately, so callers have to keep their sum inside. */
  predicate WriteInside(offset: uint32, data: seq<bv8>) {
    offset + |data| <= PARTITION_BYTES
  }

  function WriteResult(f: Flash, p: nat, offset: uint32, data: seq<bv8>): (r: Flash)
    requires p < 2 && |f| == FLASH_BYTES && WriteInside(offset, data)
    ensures |r| == |f|
  {
    Programmed(f, PartStart(p) + offset, Padded(data))
  }

  /** A command of the application in partition p that runs to its end. */
  function Completed(f: Flash, p: nat, cmd: Command, crc32: seq<bv8> -> bv32): (s: System)
    requires p < 2 && |f| == FLASH_BYTES && (cmd.Write? ==> WriteInside(cmd.offset, cmd.data))
    ensures |s.flash| == FLASH_BYTES
  {
    var c := Complement(p);
    match cmd
    case Erase(offset, len) => System(EraseResult(f, c, offset, len), App(p))
    case Write(offset, data) => System(WriteResult(f, c, offset, data), App(p))
    case Verify => System(VerifyResult(f, c, crc32), App(p))
    case Boot => if Bootable(f, c) then System(StatusWritten(f, p, Stale), App(c)) else System(f, App(p))
  }

  /** What flash may look like when power fails during a command. */
  ghost predicate Interrupted(f: Flash, g: Flash, p: nat, cmd: Command, crc32: seq<bv8> -> bv32)
    requires p < 2 && |f| == FLASH_BYTES
  {
    var c := Complement(p);
    match cmd
    case Erase(offset, len) =>
      if EraseAllowed(c, offset, len) then InterruptedErase(f, g, PartStart(c) + offset, EraseSpan(offset, len))
      else g == f
    case Write(offset, data) =>
      WriteInside(offset, data) && InterruptedProgram(f, g, PartStart(c) + offset, Padded(data))
    case Verify =>
      var status := if PassesVerification(f, c, crc32) then Valid else Invalid;
      InterruptedProgram(f, g, PartStart(c), HeaderPage(f, c, status))
    case Boot =>
      if Bootable(f, c) then InterruptedProgram(f, g, PartStart(p), HeaderPage(f, p, Stale)) else g == f
  }

  ghost predicate Next(s: System, e: Event, s': System, crc32: seq<bv8> -> bv32)
    requires |s.flash| == FLASH_BYTES
  {
    match e
    case PowerOn =>
      && s.running == Off && s'.flash == s.flash
      && s'.running == (match BootChoice(s.flash) case JumpTo(p) => App(p) case NoJump => Off)
    case Complete(cmd) =>
      && s.running.App? && s.running.p < 2
      && (cmd.Write? ==> WriteInside(cmd.offset, cmd.data))
      && s' == Completed(s.flash, s.running.p, cmd, crc32)
    case PowerLoss(cmd) =>
      && s.running.App? && s.running.p < 2
      && s'.running == Off && Interrupted(s.flash, s'.flash, s.running.p, cmd, crc32)
  }

  ghost predicate IsRun(trace: seq<System>, events: seq<Event>, crc32: seq<bv8> -> bv32) {
    && |trace| == |events| + 1
    && (forall i :: 0 <= i < |trace| ==> |trace[i].flash| == FLASH_BYTES)
    && forall i :: 0 <= i < |events| ==> Next(trace[i], events[i], trace[i + 1], crc32)
  }

  /** The running partition is bootable, and some partition is. */
  ghost predicate Safe(s: System) {
    && |s.flash| == FLASH_BYTES
    && (s.running.App? ==> s.running.p < 2 && Bootable(s.flash, s.running.p))
    && (Bootable(s.flash, 0) || Bootable(s.flash, 1))
  }

  // ----- One partition is not disturbed by work on the other -----

  predicate SamePartition(f: Flash, g: Flash, p: nat)
    requires p < 2
  {
    |f| == |g| == FLASH_BYTES && forall i :: PartStart(p) <= i < PartStart(p) + PARTITION_BYTES ==> g[i] == f[i]
  }

  lemma SamePartitionBootable(f: Flash, g: Flash, p: nat)
    requires p < 2 && SamePartition(f, g, p)
    ensures HeaderAt(g, p) == HeaderAt(f, p) && Bootable(g, p) == Bootable(f, p)
  {
    hide WordOf, StatusWord;
  }

  lemma OutsideIsOther(f: Flash, g: Flash, p: nat, offset: nat, n: nat)
    requires p < 2 && |f| == FLASH_BYTES && offset + n <= PARTITION_BYTES
    requires SameOutside(f, g, PartStart(p) + offset, n)
    ensures SamePartition(f, g, Complement(p))
  {
  }

  lemma BelowBoth(a: bv8, b: bv8)
    requires Below(a, b) && Below(b, a)
    ensures a == b
  {
    assert a & b == b & a;
  }

  /** An interrupted program changes nothing where it programs ones, so the padding never matters. */
  lemma InterruptedPaddedProgram(f: Flash, g: Flash, at: nat, data: seq<bv8>)
    requires InterruptedProgram(f, g, at, Padded(data))
    ensures SameOutside(f, g, at, |data|)
  {
    hide And8;
    forall i | 0 <= i < |f| && !(at <= i < at + |data|)
      ensures g[i] == f[i]
    {
      if at + |data| <= i < at + |Padded(data)| {
        AndIdentities(f[i]);
        assert Padded(data)[i - at] == 0xFF;
        BelowBoth(g[i], f[i]);
      }
    }
  }

  lemma CompletedProgramIsOne(f: Flash, at: nat, data: seq<bv8>)
    requires at + |data| <= |f|
    ensures InterruptedProgram(f, Programmed(f, at, data), at, data)
  {
    hide And8;
    forall i | at <= i < at + |data|
      ensures Below(And8(f[i], data[i - at]), f[i]) && Below(And8(f[i], data[i - at]), And8(f[i], data[i - at]))
    {
      AndBelow(f[i], data[i - at]);
    }
  }

  lemma AndBelow(a: bv8, b: bv8)
    ensures Below(And8(a, b), a) && Below(And8(a, b), And8(a, b))
  {
  }

  lemma OverlongWrite(f: Flash, offset: uint32, zeros: seq<bv8>)
    requires WriteAllowed(0, offset, |zeros|) && |f| == FLASH_BYTES
    requires forall i :: 0 <= i < |f| ==> f[i] == 0xFF
    requires forall i :: 0 <= i < |zeros| ==> zeros[i] == 0
    requires offset + |zeros| > PARTITION_BYTES
    ensures !SamePartition(f, Programmed(f, PartStart(0) + offset, Padded(zeros)), 1)
  {
    var i := PartStart(1);
    ProgrammedAt(f, PartStart(0) + offset, Padded(zeros), i);
    assert Padded(zeros)[..|zeros|][i - PartStart(0) - offset] == 0;
  }

  /** Writing partition 0 keeps partition 1 for every content exactly when the data ends inside: an overlong
      write, which the routine accepts, reaches the other partition's header. */
  lemma WriteKeepsOtherExactly(offset: uint32, len: nat)
    requires WriteAllowed(0, offset, len)
    ensures offset + len <= PARTITION_BYTES
        <==> forall f: Flash, data: seq<bv8> :: |f| == FLASH_BYTES && |data| == len ==>
               SamePartition(f, Programmed(f, PartStart(0) + offset, Padded(data)), 1)
  {
    hide And8;
    if offset + len <= PARTITION_BYTES {
      forall f: Flash, data: seq<bv8> | |f| == FLASH_BYTES && |data| == len
        ensures SamePartition(f, Programmed(f, PartStart(0) + offset, Padded(data)), 1)
      {
        var g := Programmed(f, PartStart(0) + offset, Padded(data));
        CompletedProgramIsOne(f, PartStart(0) + offset, Padded(data));
        InterruptedPaddedProgram(f, g, PartStart(0) + offset, data);
        OutsideIsOther(f, g, 0, offset, len);
      }
    } else {
      var zeros := seq(len, _ => 0 as bv8);
      var f: Flash := seq(FLASH_BYTES, _ => 0xFF);
      OverlongWrite(f, offset, zeros);
    }
  }

  // ----- Safety over whole runs -----

  /** Every command, finished or cut off, leaves the partition that was running before it alone, except that
      a hand-over marks it stale, which needs a bootable complement. */
  lemma CommandKeepsOther(f: Flash, g: Flash, p: nat, cmd: Command, crc32: seq<bv8> -> bv32)
    requires p < 2 && |f| == FLASH_BYTES && Interrupted(f, g, p, cmd, crc32)
    ensures |g| == FLASH_BYTES
    ensures cmd.Boot? && Bootable(f, Complement(p)) ==> SamePartition(f, g, Complement(p))
    ensures !(cmd.Boot? && Bootable(f, Complement(p))) ==> SamePartition(f, g, p)
  {
    hide And8, Bootable, HeaderPage, PassesVerification;
    var c := Complement(p);
    match cmd
    case Erase(offset, len) =>
      if EraseAllowed(c, offset, len) {
        EraseSpanExact(offset, len);
        OutsideIsOther(f, g, c, offset, EraseSpan(offset, len));
      }
    case Write(offset, data) =>
      InterruptedPaddedProgram(f, g, PartStart(c) + offset, data);
      OutsideIsOther(f, g, c, offset, |data|);
    case Verify => OutsideIsOther(f, g, c, 0, PAGE_BYTES);
    case Boot =>
      if Bootable(f, c) {
        OutsideIsOther(f, g, p, 0, PAGE_BYTES);
      }
  }

  /** Flash after a finished command is one of the outcomes an interruption may leave. */
  lemma CompletedIsInterrupted(f: Flash, p: nat, cmd: Command, crc32: seq<bv8> -> bv32)
    requires p < 2 && |f| == FLASH_BYTES && (cmd.Write? ==> WriteInside(cmd.offset, cmd.data))
    ensures Interrupted(f, Completed(f, p, cmd, crc32).flash, p, cmd, crc32)
  {
    hide And8, Bootable, HeaderPage, PassesVerification;
    var c := Complement(p);
    match cmd
    case Erase(offset, len) =>
    case Write(offset, data) => CompletedProgramIsOne(f, PartStart(c) + offset, Padded(data));
    case Verify =>
      var status := if PassesVerification(f, c, crc32) then Valid else Invalid;
      CompletedProgramIsOne(f, PartStart(c), HeaderPage(f, c, status));
    case Boot => CompletedProgramIsOne(f, PartStart(p), HeaderPage(f, p, Stale));
  }

  lemma NextKeepsSafe(s: System, e: Event, s': System, crc32: seq<bv8> -> bv32)
    requires Safe(s) && Next(s, e, s', crc32)
    ensures Safe(s')
  {
    hide HeaderAt, BootableAs, Bootable, Interrupted, StatusWritten, PassesVerification, EraseResult, VerifyResult,
         WriteResult;
    match e
    case PowerOn => BootChoiceSound(s.flash);
    case Complete(cmd) =>
      CompletedIsInterrupted(s.flash, s.running.p, cmd, crc32);
      CommandKeepsOther(s.flash, s'.flash, s.running.p, cmd, crc32);
      KeptPartitionBoots(s.flash, s'.flash, s.running.p, cmd);
    case PowerLoss(cmd) =>
      CommandKeepsOther(s.flash, s'.flash, s.running.p, cmd, crc32);
      KeptPartitionBoots(s.flash, s'.flash, s.running.p, cmd);
  }

  lemma KeptPartitionBoots(f: Flash, g: Flash, p: nat, cmd: Command)
    requires p < 2 && |f| == |g| == FLASH_BYTES && Bootable(f, p)
    requires cmd.Boot? && Bootable(f, Complement(p)) ==> SamePartition(f, g, Complement(p))
    requires !(cmd.Boot? && Bootable(f, Complement(p))) ==> SamePartition(f, g, p)
    ensures if cmd.Boot? && Bootable(f, Complement(p)) then Bootable(g, Complement(p)) else Bootable(g, p)
  {
    if cmd.Boot? && Bootable(f, Complement(p)) {
      SamePartitionBootable(f, g, Complement(p));
    } else {
      SamePartitionBootable(f, g, p);
    }
  }

  /** Safe, and the bootloader finds a partition with the right magic word that is Valid or Stale. */
  ghost predicate Recoverable(s: System) {
    Safe(s) && var choice := BootChoice(s.flash); choice.JumpTo? && choice.p < 2 && Bootable(s.flash, choice.p)
  }

  lemma SafeIsRecoverable(s: System)
    requires Safe(s)
    ensures Recoverable(s)
  {
    hide Bootable;
    BootChoiceSound(s.flash);
  }

  /** On every run, with power loss at any point, the running partition stays bootable, and whenever the
      device is off the bootloader finds a partition to boot. */
  lemma {:induction false} RunsStaySafe(trace: seq<System>, events: seq<Event>, crc32: seq<bv8> -> bv32)
    requires IsRun(trace, events, crc32) && Safe(trace[0])
    ensures forall i :: 0 <= i < |trace| ==> Recoverable(trace[i])
  {
    hide Next, Safe, Recoverable;
    var n := 0;
    SafeIsRecoverable(trace[0]);
    while n < |events|
      invariant n <= |events| && Safe(trace[n])
      invariant forall i :: 0 <= i <= n ==> Recoverable(trace[i])
    {
      NextKeepsSafe(trace[n], events[n], trace[n + 1], crc32);
      SafeIsRecoverable(trace[n + 1]);
      n := n + 1;
    }
  }

  // ----- Header bits between erases -----

  /** The event may erase the header sector of partition q. */
  predicate ErasesHeader(s: System, e: Event, q: nat) {
    && s.running.App? && Complement(s.running.p) == q
    && (e.Complete? || e.PowerLoss?) && e.cmd.Erase? && e.cmd.offset < HEADER_BYTES
  }

  /** The event programs caller data over the header words of partition q. */
  predicate WritesHeader(s: System, e: Event, q: nat) {
    && s.running.App? && Complement(s.running.p) == q
    && (e.Complete? || e.PowerLoss?) && e.cmd.Write? && e.cmd.offset < STATUS_OFFSET + 4
  }

  ghost predicate HeaderOnlyCleared(f: Flash, g: Flash, q: nat)
    requires q < 2
  {
    |f| == |g| == FLASH_BYTES && forall i :: PartStart(q) <= i < PartStart(q) + HEADER_BYTES ==> Below(g[i], f[i])
  }

  lemma BelowTransitive(a: bv8, b: bv8, c: bv8)
    requires Below(a, b) && Below(b, c)
    ensures Below(a, c)
  {
  }

  lemma BelowReflexive(a: bv8)
    ensures Below(a, a)
  {
  }

  lemma InterruptedProgramClears(f: Flash, g: Flash, at: nat, data: seq<bv8>, q: nat)
    requires q < 2 && |f| == FLASH_BYTES && InterruptedProgram(f, g, at, data)
    ensures HeaderOnlyCleared(f, g, q)
  {
    hide And8, Below;
    forall i | PartStart(q) <= i < PartStart(q) + HEADER_BYTES
      ensures Below(g[i], f[i])
    {
      BelowReflexive(f[i]);
    }
  }

  lemma UnchangedHeaderCleared(f: Flash, g: Flash, q: nat)
    requires q < 2 && |f| == |g| == FLASH_BYTES
    requires forall i :: PartStart(q) <= i < PartStart(q) + HEADER_BYTES ==> g[i] == f[i]
    ensures HeaderOnlyCleared(f, g, q)
  {
    hide And8, Below;
    forall i | PartStart(q) <= i < PartStart(q) + HEADER_BYTES
      ensures Below(g[i], f[i])
    {
      BelowReflexive(f[i]);
    }
  }

  lemma CommandClearsHeader(f: Flash, g: Flash, p: nat, cmd: Command, crc32: seq<bv8> -> bv32, q: nat)
    requires p < 2 && q < 2 && |f| == FLASH_BYTES && Interrupted(f, g, p, cmd, crc32)
    requires !(cmd.Erase? && Complement(p) == q && cmd.offset < HEADER_BYTES)
    ensures HeaderOnlyCleared(f, g, q)
  {
    hide And8, Below, HeaderPage, PassesVerification, Bootable, Padded;
    var c := Complement(p);
    match cmd
    case Erase(offset, len) =>
      if EraseAllowed(c, offset, len) {
        EraseSpanExact(offset, len);
      }
      UnchangedHeaderCleared(f, g, q);
    case Write(offset, data) => InterruptedProgramClears(f, g, PartStart(c) + offset, Padded(data), q);
    case Verify =>
      InterruptedProgramClears(f, g, PartStart(c),
                               HeaderPage(f, c, if PassesVerification(f, c, crc32) then Valid else Invalid), q);
    case Boot =>
      if Bootable(f, c) {
        InterruptedProgramClears(f, g, PartStart(p), HeaderPage(f, p, Stale), q);
      } else {
        UnchangedHeaderCleared(f, g, q);
      }
  }

  lemma NextClearsHeader(s: System, e: Event, s': System, crc32: seq<bv8> -> bv32, q: nat)
    requires q < 2 && |s.flash| == FLASH_BYTES && Next(s, e, s', crc32) && !ErasesHeader(s, e, q)
    ensures HeaderOnlyCleared(s.flash, s'.flash, q)
  {
    hide And8, Below, Interrupted, Completed, HeaderOnlyCleared, BootChoice, WriteInside;
    match e
    case PowerOn => UnchangedHeaderCleared(s.flash, s'.flash, q);
    case Complete(cmd) =>
      CompletedIsInterrupted(s.flash, s.running.p, cmd, crc32);
      CommandClearsHeader(s.flash, s'.flash, s.running.p, cmd, crc32, q);
    case PowerLoss(cmd) => CommandClearsHeader(s.flash, s'.flash, s.running.p, cmd, crc32, q);
  }

  /** On every run without an erase of the header, power loss included, no header bit is ever set again. */
  lemma {:induction false} RunsOnlyClearHeader(trace: seq<System>, events: seq<Event>, crc32: seq<bv8> -> bv32, q: nat)
    requires q < 2 && IsRun(trace, events, crc32)
    requires forall i :: 0 <= i < |events| ==> !ErasesHeader(trace[i], events[i], q)
    ensures HeaderOnlyCleared(trace[0].flash, trace[|events|].flash, q)
  {
    hide And8, Below, Next, ErasesHeader;
    var n := 0;
    UnchangedHeaderCleared(trace[0].flash, trace[0].flash, q);
    while n < |events|
      invariant n <= |events|
      invariant HeaderOnlyCleared(trace[0].flash, trace[n].flash, q)
    {
      assert !ErasesHeader(trace[n], events[n], q);
      NextClearsHeader(trace[n], events[n], trace[n + 1], crc32, q);
      ClearedTransitive(trace[0].flash, trace[n].flash, trace[n + 1].flash, q);
      n := n + 1;
    }
  }

  lemma ClearedTransitive(f: Flash, g: Flash, h: Flash, q: nat)
    requires q < 2 && HeaderOnlyCleared(f, g, q) && HeaderOnlyCleared(g, h, q)
    ensures HeaderOnlyCleared(f, h, q)
  {
    hide And8, Below;
    forall i | PartStart(q) <= i < PartStart(q) + HEADER_BYTES
      ensures Below(h[i], f[i])
    {
      BelowTransitive(h[i], g[i], f[i]);
    }
  }

  // ----- The status chain -----

  predicate HasStatus(f: Flash, q: nat, s: Status)
    requires q < 2 && |f| == FLASH_BYTES
  {
    HeaderAt(f, q).status == StatusWord(s)
  }

  predicate SameImageWords(f: Flash, g: Flash, q: nat)
    requires q < 2 && |f| == |g| == FLASH_BYTES
  {
    HeaderAt(g, q) == HeaderAt(f, q).(status := HeaderAt(g, q).status)
  }

  /** Same header words, and a status at or below the old one in the chain Blank, Valid, Stale, Invalid. */
  ghost predicate StatusDescends(f: Flash, g: Flash, q: nat)
    requires q < 2
  {
    && |f| == |g| == FLASH_BYTES && SameImageWords(f, g, q)
    && forall a :: HasStatus(f, q, a) ==> exists b :: Rank(a) <= Rank(b) && HasStatus(g, q, b)
  }

  lemma SameHeaderDescends(f: Flash, g: Flash, q: nat)
    requires q < 2 && |f| == |g| == FLASH_BYTES && HeaderAt(g, q) == HeaderAt(f, q)
    ensures StatusDescends(f, g, q)
  {
    hide HeaderAt, StatusWord;
    forall a | HasStatus(f, q, a)
      ensures exists b :: Rank(a) <= Rank(b) && HasStatus(g, q, b)
    {
      assert Rank(a) <= Rank(a) && HasStatus(g, q, a);
    }
  }

  lemma StatusWriteDescends(f: Flash, p: nat, s: Status, q: nat)
    requires p < 2 && q < 2 && |f| == FLASH_BYTES
    ensures StatusDescends(f, StatusWritten(f, p, s), q)
  {
    hide HeaderAt, StatusWord, StatusWritten, And32;
    var g := StatusWritten(f, p, s);
    StatusWrittenEffect(f, p, s);
    if p == q {
      forall a | HasStatus(f, q, a)
        ensures exists b :: Rank(a) <= Rank(b) && HasStatus(g, q, b)
      {
        StatusOnlyMovesDown(a, s);
        var b := if Rank(a) >= Rank(s) then a else s;
        assert Rank(a) <= Rank(b) && HasStatus(g, q, b);
      }
    } else {
      OutsideIsOther(f, g, p, STATUS_OFFSET, 4);
      SamePartitionBootable(f, g, q);
      SameHeaderDescends(f, g, q);
    }
  }

  lemma DescendsTransitive(f: Flash, g: Flash, h: Flash, q: nat)
    requires q < 2 && StatusDescends(f, g, q) && StatusDescends(g, h, q)
    ensures StatusDescends(f, h, q)
  {
    hide HeaderAt, HasStatus;
    forall a | HasStatus(f, q, a)
      ensures exists c :: Rank(a) <= Rank(c) && HasStatus(h, q, c)
    {
      var b :| Rank(a) <= Rank(b) && HasStatus(g, q, b);
      var c :| Rank(b) <= Rank(c) && HasStatus(h, q, c);
    }
  }

  // ----- Status rewrites that power loss cuts short -----

  /** The command rewrites the status word of partition q. */
  predicate RewritesStatus(f: Flash, p: nat, cmd: Command, q: nat)
    requires p < 2 && |f| == FLASH_BYTES
  {
    (cmd.Verify? && Complement(p) == q) || (cmd.Boot? && p == q && Bootable(f, Complement(p)))
  }

  function NewStatus(f: Flash, p: nat, cmd: Command, crc32: seq<bv8> -> bv32): Status
    requires p < 2 && |f| == FLASH_BYTES
  {
    if !cmd.Verify? then Stale else if PassesVerification(f, Complement(p), crc32) then Valid else Invalid
  }

  lemma SameBytesSameHeader(f: Flash, g: Flash, q: nat)
    requires q < 2 && |f| == |g| == FLASH_BYTES
    requires forall i :: PartStart(q) <= i < PartStart(q) + STATUS_OFFSET + 4 ==> g[i] == f[i]
    ensures HeaderAt(g, q) == HeaderAt(f, q)
  {
    hide WordOf;
  }

  /** Any other command, finished or cut off, keeps the whole header of q, unless it is told to overwrite it. */
  lemma CommandKeepsHeader(f: Flash, g: Flash, p: nat, cmd: Command, crc32: seq<bv8> -> bv32, q: nat)
    requires p < 2 && q < 2 && |f| == FLASH_BYTES && Interrupted(f, g, p, cmd, crc32)
    requires !RewritesStatus(f, p, cmd, q)
    requires !(cmd.Erase? && Complement(p) == q && cmd.offset < HEADER_BYTES)
    requires !(cmd.Write? && Complement(p) == q && cmd.offset < STATUS_OFFSET + 4)
    ensures |g| == FLASH_BYTES && HeaderAt(g, q) == HeaderAt(f, q)
  {
    hide HeaderAt, And8, Padded, HeaderPage, PassesVerification, Bootable, Below;
    var c := Complement(p);
    match cmd {
      case Erase(offset, len) =>
        if EraseAllowed(c, offset, len) {
          EraseSpanExact(offset, len);
        }
      case Write(offset, data) => InterruptedPaddedProgram(f, g, PartStart(c) + offset, data);
      case Verify =>
      case Boot =>
    }
    SameBytesSameHeader(f, g, q);
  }

  /** The word w may stand where programming one word over another was cut off. */
  predicate Between(w: bv32, before: bv32, written: bv32) {
    And32(w, before) == w && And32(And32(before, written), w) == And32(before, written)
  }

  lemma BetweenBytes(g: Flash, f: Flash, k: nat, w: bv32)
    requires k + 4 <= |f| == |g|
    requires forall i :: k <= i < k + 4 ==> Below(g[i], f[i]) && Below(And8(f[i], WordBytes(w)[i - k]), g[i])
    ensures Between(Word(g, k), Word(f, k), w)
  {
    hide And8, And32, WordOf, WordBytes;
    var b := WordBytes(w);
    WordOfBytes(w);
    assert Below(g[k], f[k]) && Below(g[k + 1], f[k + 1]) && Below(g[k + 2], f[k + 2]) && Below(g[k + 3], f[k + 3]);
    assert Below(And8(f[k], b[0]), g[k]) && Below(And8(f[k + 1], b[1]), g[k + 1]);
    assert Below(And8(f[k + 2], b[2]), g[k + 2]) && Below(And8(f[k + 3], b[3]), g[k + 3]);
    WordAnd(g[k], g[k + 1], g[k + 2], g[k + 3], f[k], f[k + 1], f[k + 2], f[k + 3]);
    WordAnd(f[k], f[k + 1], f[k + 2], f[k + 3], b[0], b[1], b[2], b[3]);
    WordAnd(And8(f[k], b[0]), And8(f[k + 1], b[1]), And8(f[k + 2], b[2]), And8(f[k + 3], b[3]),
            g[k], g[k + 1], g[k + 2], g[k + 3]);
  }

  lemma InterruptedPageAt(f: Flash, g: Flash, q: nat, b: Status, i: nat)
    requires q < 2 && |f| == FLASH_BYTES && i < |f|
    requires InterruptedProgram(f, g, PartStart(q), HeaderPage(f, q, b))
    ensures var k := PartStart(q) + STATUS_OFFSET;
            if k <= i < k + 4 then Below(g[i], f[i]) && Below(And8(f[i], WordBytes(StatusWord(b))[i - k]), g[i])
            else g[i] == f[i]
  {
    hide And8, HeaderPage, WordBytes, StatusWord;
    var at := PartStart(q);
    if at <= i < at + PAGE_BYTES {
      HeaderPageAt(f, q, b, i - at);
      AndIdentities(f[i]);
      if !(at + STATUS_OFFSET <= i < at + STATUS_OFFSET + 4) {
        BelowBoth(g[i], f[i]);
      }
    }
  }

  /** Even a status rewrite that is cut off changes no byte of flash but the status word, which ends between the
      old word and the one it would have become. */
  lemma InterruptedStatusWord(f: Flash, g: Flash, q: nat, b: Status)
    requires q < 2 && |f| == FLASH_BYTES
    requires InterruptedProgram(f, g, PartStart(q), HeaderPage(f, q, b))
    ensures SameOutside(f, g, PartStart(q) + STATUS_OFFSET, 4) && SameImageWords(f, g, q)
    ensures Between(HeaderAt(g, q).status, HeaderAt(f, q).status, StatusWord(b))
  {
    hide And8, HeaderPage, WordBytes, StatusWord, WordOf, Between, Below;
    var k := PartStart(q) + STATUS_OFFSET;
    forall i | 0 <= i < |f|
      ensures if k <= i < k + 4 then Below(g[i], f[i]) && Below(And8(f[i], WordBytes(StatusWord(b))[i - k]), g[i])
              else g[i] == f[i]
    {
      InterruptedPageAt(f, g, q, b, i);
    }
    BetweenBytes(g, f, k, StatusWord(b));
  }

  /** A rewrite to a status that is not lower clears nothing, wherever it is cut off. */
  lemma BetweenSame(w: bv32, a: Status, b: Status)
    requires Between(w, StatusWord(a), StatusWord(b)) && Rank(b) <= Rank(a)
    ensures w == StatusWord(a)
  {
    hide StatusWord;
    StatusOnlyMovesDown(a, b);
    AndCommutes(w, StatusWord(a));
  }

  lemma AndCommutes(a: bv32, b: bv32)
    ensures And32(a, b) == And32(b, a)
  {
  }

  /** One bit of the four status bytes that is cleared first. */
  function FirstCleared(a: Status): (nat, bv8) {
    match a
    case Blank => (2, 0xBF)
    case Valid => (3, 0xFE)
    case Stale => (1, 0xFE)
    case Invalid => (0, 0)
  }

  lemma BytesOfWord(b0: bv8, b1: bv8, b2: bv8, b3: bv8)
    ensures WordBytes(WordOf(b0, b1, b2, b3)) == [b0, b1, b2, b3]
  {
  }

  /** With only the first bit cleared the word is between the two statuses, and no status at all. */
  lemma FirstClearedBytes(a: Status, b: Status)
    requires Rank(a) < Rank(b)
    ensures var (j, v) := FirstCleared(a);
            && j < 4 && Below(v, WordBytes(StatusWord(a))[j])
            && Below(And8(WordBytes(StatusWord(a))[j], WordBytes(StatusWord(b))[j]), v)
            && forall c :: WordBytes(StatusWord(c)) != WordBytes(StatusWord(a))[j := v]
  {
    var (j, v) := FirstCleared(a);
    forall c
      ensures WordBytes(StatusWord(c)) != WordBytes(StatusWord(a))[j := v]
    {
      assert WordBytes(StatusWord(a))[j := v][j] == v && WordBytes(StatusWord(a))[j := v][3]
          == if j == 3 then v else WordBytes(StatusWord(a))[3];
    }
  }

  lemma StatusBytesAt(f: Flash, q: nat)
    requires q < 2 && |f| == FLASH_BYTES
    ensures var k := PartStart(q) + STATUS_OFFSET;
            WordBytes(HeaderAt(f, q).status) == f[k..k + 4]
  {
    hide WordBytes, WordOf;
    var k := PartStart(q) + STATUS_OFFSET;
    BytesOfWord(f[k], f[k + 1], f[k + 2], f[k + 3]);
    assert f[k..k + 4] == [f[k], f[k + 1], f[k + 2], f[k + 3]];
  }

  lemma OneByteInterrupted(f: Flash, q: nat, b: Status, j: nat, v: bv8)
    requires q < 2 && |f| == FLASH_BYTES && j < 4
    requires var was := f[PartStart(q) + STATUS_OFFSET + j];
             Below(v, was) && Below(And8(was, WordBytes(StatusWord(b))[j]), v)
    ensures InterruptedProgram(f, f[PartStart(q) + STATUS_OFFSET + j := v], PartStart(q), HeaderPage(f, q, b))
  {
    hide And8, HeaderPage, WordBytes, StatusWord, Below;
    var at, k := PartStart(q), PartStart(q) + STATUS_OFFSET + j;
    var g, page := f[k := v], HeaderPage(f, q, b);
    HeaderPageAt(f, q, b, STATUS_OFFSET + j);
    forall i | at <= i < at + PAGE_BYTES
      ensures Below(g[i], f[i]) && Below(And8(f[i], page[i - at]), g[i])
    {
      if i != k {
        BelowReflexive(f[i]);
        AndBelow(f[i], page[i - at]);
      }
    }
  }

  /** Power loss leaves a word that is no status at all while a status moves down. */
  lemma TornStatus(f: Flash, q: nat, a: Status, b: Status) returns (g: Flash)
    requires q < 2 && |f| == FLASH_BYTES && HasStatus(f, q, a) && Rank(a) < Rank(b)
    ensures |g| == FLASH_BYTES && InterruptedProgram(f, g, PartStart(q), HeaderPage(f, q, b))
    ensures forall c :: !HasStatus(g, q, c)
  {
    hide And8, HeaderPage, WordBytes, StatusWord, HeaderAt, Below, FirstCleared, InterruptedProgram;
    var k := PartStart(q) + STATUS_OFFSET;
    var (j, v) := FirstCleared(a);
    FirstClearedBytes(a, b);
    StatusBytesAt(f, q);
    assert f[k..k + 4][j] == f[k + j];
    g := f[k + j := v];
    OneByteInterrupted(f, q, b, j, v);
    StatusBytesAt(g, q);
    assert g[k..k + 4] == f[k..k + 4][j := v];
  }

  predicate Lowers(f: Flash, q: nat, b: Status)
    requires q < 2 && |f| == FLASH_BYTES
  {
    exists a :: HasStatus(f, q, a) && Rank(a) < Rank(b)
  }

  /** The power loss cuts a rewrite short that lowers the status of partition q. */
  ghost predicate CutsStatusWrite(s: System, e: Event, q: nat, crc32: seq<bv8> -> bv32)
    requires q < 2 && |s.flash| == FLASH_BYTES
  {
    && e.PowerLoss? && s.running.App? && s.running.p < 2 && RewritesStatus(s.flash, s.running.p, e.cmd, q)
    && Lowers(s.flash, q, NewStatus(s.flash, s.running.p, e.cmd, crc32))
  }

  lemma RewriteIsProgram(f: Flash, g: Flash, p: nat, cmd: Command, crc32: seq<bv8> -> bv32, q: nat)
    requires p < 2 && q < 2 && |f| == FLASH_BYTES && RewritesStatus(f, p, cmd, q)
    ensures Interrupted(f, g, p, cmd, crc32)
        <==> InterruptedProgram(f, g, PartStart(q), HeaderPage(f, q, NewStatus(f, p, cmd, crc32)))
    ensures Completed(f, p, cmd, crc32).flash == StatusWritten(f, q, NewStatus(f, p, cmd, crc32))
  {
    hide InterruptedProgram, HeaderPage, StatusWritten, PassesVerification, Bootable;
  }

  /** Every step, power loss included, keeps the words of the header other than the status. */
  lemma NextKeepsImageWords(s: System, e: Event, s': System, crc32: seq<bv8> -> bv32, q: nat)
    requires q < 2 && |s.flash| == FLASH_BYTES && Next(s, e, s', crc32)
    requires !ErasesHeader(s, e, q) && !WritesHeader(s, e, q)
    ensures |s'.flash| == FLASH_BYTES && SameImageWords(s.flash, s'.flash, q)
  {
    hide Interrupted, InterruptedProgram, HeaderAt, Completed, BootChoice, WriteInside, RewritesStatus, NewStatus;
    if !e.PowerOn? {
      var f, g, p := s.flash, s'.flash, s.running.p;
      if e.Complete? {
        CompletedIsInterrupted(f, p, e.cmd, crc32);
      }
      if RewritesStatus(f, p, e.cmd, q) {
        RewriteIsProgram(f, g, p, e.cmd, crc32, q);
        InterruptedStatusWord(f, g, q, NewStatus(f, p, e.cmd, crc32));
        SameImageWordsIs(f, g, q);
      } else {
        CommandKeepsHeader(f, g, p, e.cmd, crc32, q);
      }
    }
  }

  lemma SameImageWordsIs(f: Flash, g: Flash, q: nat)
    requires q < 2 && SameOutside(f, g, PartStart(q) + STATUS_OFFSET, 4) && |f| == FLASH_BYTES
    ensures |g| == FLASH_BYTES
  {
  }

  lemma RewriteDescends(f: Flash, g: Flash, q: nat, b: Status)
    requires q < 2 && |f| == FLASH_BYTES && InterruptedProgram(f, g, PartStart(q), HeaderPage(f, q, b))
    requires !Lowers(f, q, b)
    ensures StatusDescends(f, g, q)
  {
    hide InterruptedProgram, HeaderPage, HeaderAt, StatusWord, Between;
    InterruptedStatusWord(f, g, q, b);
    forall a | HasStatus(f, q, a)
      ensures exists c :: Rank(a) <= Rank(c) && HasStatus(g, q, c)
    {
      BetweenSame(HeaderAt(g, q).status, a, b);
      assert Rank(a) <= Rank(a) && HasStatus(g, q, a);
    }
  }

  lemma NextDescends(s: System, e: Event, s': System, crc32: seq<bv8> -> bv32, q: nat)
    requires q < 2 && |s.flash| == FLASH_BYTES && Next(s, e, s', crc32) && !CutsStatusWrite(s, e, q, crc32)
    requires !ErasesHeader(s, e, q) && !WritesHeader(s, e, q)
    ensures StatusDescends(s.flash, s'.flash, q)
  {
    hide Interrupted, InterruptedProgram, HeaderAt, Completed, StatusDescends, BootChoice, WriteInside, RewritesStatus,
         NewStatus, Lowers;
    if e.PowerOn? {
      SameHeaderDescends(s.flash, s'.flash, q);
    } else {
      var f, g, p := s.flash, s'.flash, s.running.p;
      if e.Complete? {
        CompletedIsInterrupted(f, p, e.cmd, crc32);
      }
      if !RewritesStatus(f, p, e.cmd, q) {
        CommandKeepsHeader(f, g, p, e.cmd, crc32, q);
        SameHeaderDescends(f, g, q);
      } else {
        RewriteIsProgram(f, g, p, e.cmd, crc32, q);
        if e.Complete? {
          StatusWriteDescends(f, q, NewStatus(f, p, e.cmd, crc32), q);
        } else {
          RewriteDescends(f, g, q, NewStatus(f, p, e.cmd, crc32));
        }
      }
    }
  }

  /** When power fails during a command, the status descends in every outcome if and only if the command does not
      rewrite it to a lower one; else one outcome is a word that is no status. */
  lemma PowerLossDescendsExactly(s: System, e: Event, crc32: seq<bv8> -> bv32, q: nat)
    requires q < 2 && |s.flash| == FLASH_BYTES && e.PowerLoss?
    requires !ErasesHeader(s, e, q) && !WritesHeader(s, e, q)
    ensures (forall s' :: Next(s, e, s', crc32) ==> StatusDescends(s.flash, s'.flash, q))
        <==> !CutsStatusWrite(s, e, q, crc32)
  {
    hide Interrupted, InterruptedProgram, HeaderAt, HeaderPage, ErasesHeader, WritesHeader, NewStatus, StatusWord;
    if CutsStatusWrite(s, e, q, crc32) {
      var f, p := s.flash, s.running.p;
      var b := NewStatus(f, p, e.cmd, crc32);
      var a :| HasStatus(f, q, a) && Rank(a) < Rank(b);
      var g := TornStatus(f, q, a, b);
      RewriteIsProgram(f, g, p, e.cmd, crc32, q);
      assert Next(s, e, System(g, Off), crc32);
      assert !StatusDescends(f, System(g, Off).flash, q);
    } else {
      forall s' | Next(s, e, s', crc32)
        ensures StatusDescends(s.flash, s'.flash, q)
      {
        NextDescends(s, e, s', crc32, q);
      }
    }
  }

  /** On every run in which the header of q is neither erased nor written by hand, with power loss at any point,
      its words other than the status never change. */
  lemma {:induction false} RunsKeepImageWords(trace: seq<System>, events: seq<Event>, crc32: seq<bv8> -> bv32, q: nat)
    requires q < 2 && IsRun(trace, events, crc32)
    requires forall i :: 0 <= i < |events| ==>
               !ErasesHeader(trace[i], events[i], q) && !WritesHeader(trace[i], events[i], q)
    ensures SameImageWords(trace[0].flash, trace[|events|].flash, q)
  {
    hide Next, ErasesHeader, WritesHeader, HeaderAt;
    var n := 0;
    while n < |events|
      invariant n <= |events|
      invariant SameImageWords(trace[0].flash, trace[n].flash, q)
    {
      NextKeepsImageWords(trace[n], events[n], trace[n + 1], crc32, q);
      n := n + 1;
    }
  }

  /** If, besides, power is not lost while the status of q is being rewritten to a lower one, the status only moves
      down the chain. */
  lemma {:induction false} RunsDescend(trace: seq<System>, events: seq<Event>, crc32: seq<bv8> -> bv32, q: nat)
    requires q < 2 && IsRun(trace, events, crc32)
    requires forall i :: 0 <= i < |events| ==>
               && !ErasesHeader(trace[i], events[i], q) && !WritesHeader(trace[i], events[i], q)
               && !CutsStatusWrite(trace[i], events[i], q, crc32)
    ensures StatusDescends(trace[0].flash, trace[|events|].flash, q)
  {
    hide Next, ErasesHeader, WritesHeader, CutsStatusWrite, StatusDescends, HeaderAt;
    var n := 0;
    SameHeaderDescends(trace[0].flash, trace[0].flash, q);
    while n < |events|
      invariant n <= |events|
      invariant StatusDescends(trace[0].flash, trace[n].flash, q)
    {
      NextDescends(trace[n], events[n], trace[n + 1], crc32, q);
      DescendsTransitive(trace[0].flash, trace[n].flash, trace[n + 1].flash, q);
      n := n + 1;
    }
  }

  // ----- What the status Valid vouches for -----

  /** The event erases or writes something of partition q. */
  predicate Touches(s: System, e: Event, q: nat) {
    && s.running.App? && Complement(s.running.p) == q
    && (e.Complete? || e.PowerLoss?) && (e.cmd.Erase? || e.cmd.Write?)
  }

  /** All of a partition but the status word of its header. */
  predicate SameImage(f: Flash, g: Flash, q: nat)
    requires q < 2
  {
    && |f| == |g| == FLASH_BYTES
    && var k := PartStart(q) + STATUS_OFFSET;
       forall i :: PartStart(q) <= i < PartStart(q) + PARTITION_BYTES && !(k <= i < k + 4) ==> g[i] == f[i]
  }

  lemma CommandKeepsImage(f: Flash, g: Flash, p: nat, cmd: Command, crc32: seq<bv8> -> bv32, q: nat)
    requires p < 2 && q < 2 && |f| == FLASH_BYTES && Interrupted(f, g, p, cmd, crc32)
    requires !(Complement(p) == q && (cmd.Erase? || cmd.Write?))
    ensures SameImage(f, g, q)
  {
    hide And8, Bootable, HeaderPage, PassesVerification, HeaderAt, InterruptedProgram, InterruptedErase, StatusWord;
    if RewritesStatus(f, p, cmd, q) {
      RewriteIsProgram(f, g, p, cmd, crc32, q);
      InterruptedStatusWord(f, g, q, NewStatus(f, p, cmd, crc32));
    } else {
      CommandKeepsOther(f, g, p, cmd, crc32);
    }
  }

  lemma SameImagePasses(f: Flash, g: Flash, q: nat, crc32: seq<bv8> -> bv32)
    requires q < 2 && SameImage(f, g, q)
    ensures PassesVerification(g, q, crc32) <==> PassesVerification(f, q, crc32)
  {
    hide WordOf, Value, IsOdd;
    var size, app := Value(HeaderAt(f, q).appSize), AppStart(q);
    assert HeaderAt(g, q).appSize == HeaderAt(f, q).appSize && HeaderAt(g, q).appCrc == HeaderAt(f, q).appCrc;
    if size <= APP_BYTES {
      assert f[app..app + size] == g[app..app + size];
    }
  }

  lemma OnlyValidGivesValid(w: bv32, b: Status)
    requires b.Stale? || b.Invalid?
    ensures And32(w, StatusWord(b)) != StatusWord(Valid)
  {
  }

  /** A finished command that leaves a partition Valid found it so, or was its verification, and passed. */
  lemma ValidWasVerified(f: Flash, p: nat, cmd: Command, crc32: seq<bv8> -> bv32, q: nat)
    requires p < 2 && q < 2 && |f| == FLASH_BYTES && (cmd.Write? ==> WriteInside(cmd.offset, cmd.data))
    requires !(Complement(p) == q && (cmd.Erase? || cmd.Write?))
    requires HasStatus(Completed(f, p, cmd, crc32).flash, q, Valid)
    ensures HasStatus(f, q, Valid) || (cmd.Verify? && Complement(p) == q && PassesVerification(f, q, crc32))
  {
    hide And32, HeaderAt, StatusWord, StatusWritten, PassesVerification, Interrupted, Bootable, EraseResult,
         WriteResult, VerifyResult;
    CompletedIsInterrupted(f, p, cmd, crc32);
    if RewritesStatus(f, p, cmd, q) {
      var b := NewStatus(f, p, cmd, crc32);
      RewriteIsProgram(f, f, p, cmd, crc32, q);
      StatusWrittenEffect(f, q, b);
      if !b.Valid? {
        OnlyValidGivesValid(HeaderAt(f, q).status, b);
      }
    } else {
      CommandKeepsHeader(f, Completed(f, p, cmd, crc32).flash, p, cmd, crc32, q);
    }
  }

  /** The power loss cuts a rewrite of the status short, and the image would not pass its verification. */
  ghost predicate CutsVerdict(s: System, e: Event, q: nat, crc32: seq<bv8> -> bv32)
    requires q < 2 && |s.flash| == FLASH_BYTES
  {
    && e.PowerLoss? && s.running.App? && s.running.p < 2 && RewritesStatus(s.flash, s.running.p, e.cmd, q)
    && !PassesVerification(s.flash, q, crc32)
  }

  lemma NextKeepsVouched(s: System, e: Event, s': System, crc32: seq<bv8> -> bv32, q: nat)
    requires q < 2 && |s.flash| == FLASH_BYTES && Next(s, e, s', crc32)
    requires !Touches(s, e, q) && !CutsVerdict(s, e, q, crc32)
    requires HasStatus(s.flash, q, Valid) ==> PassesVerification(s.flash, q, crc32)
    ensures |s'.flash| == FLASH_BYTES
    ensures HasStatus(s'.flash, q, Valid) ==> PassesVerification(s'.flash, q, crc32)
  {
    hide And8, HeaderAt, StatusWord, PassesVerification, Interrupted, Completed, BootChoice, RewritesStatus, SameImage;
    if !e.PowerOn? {
      var p := s.running.p;
      if e.Complete? {
        CompletedIsInterrupted(s.flash, p, e.cmd, crc32);
      }
      CommandKeepsImage(s.flash, s'.flash, p, e.cmd, crc32, q);
      SameImageIs(s.flash, s'.flash, q);
      SameImagePasses(s.flash, s'.flash, q, crc32);
      if HasStatus(s'.flash, q, Valid) {
        if e.Complete? {
          ValidWasVerified(s.flash, p, e.cmd, crc32, q);
        } else if !RewritesStatus(s.flash, p, e.cmd, q) {
          CommandKeepsHeader(s.flash, s'.flash, p, e.cmd, crc32, q);
        }
      }
    }
  }

  lemma SameImageIs(f: Flash, g: Flash, q: nat)
    requires q < 2 && SameImage(f, g, q)
    ensures |f| == |g| == FLASH_BYTES
  {
  }

  /** On every run in which partition q is neither erased nor written, and power is not lost while the status of an
      image that does not pass is being rewritten, Valid means that the image passes its verification: its CRC is the
      one in the header. */
  lemma {:induction false} RunsVouch(trace: seq<System>, events: seq<Event>, crc32: seq<bv8> -> bv32, q: nat)
    requires q < 2 && IsRun(trace, events, crc32)
    requires forall i :: 0 <= i < |events| ==>
               !Touches(trace[i], events[i], q) && !CutsVerdict(trace[i], events[i], q, crc32)
    requires HasStatus(trace[0].flash, q, Valid) ==> PassesVerification(trace[0].flash, q, crc32)
    ensures HasStatus(trace[|events|].flash, q, Valid) ==> PassesVerification(trace[|events|].flash, q, crc32)
  {
    hide Next, Touches, CutsVerdict, HasStatus, PassesVerification;
    var n := 0;
    while n < |events|
      invariant n <= |events|
      invariant HasStatus(trace[n].flash, q, Valid) ==> PassesVerification(trace[n].flash, q, crc32)
    {
      NextKeepsVouched(trace[n], events[n], trace[n + 1], crc32, q);
      n := n + 1;
    }
  }

  /** When power fails while a blank partition is being verified, Valid still vouches for the image in every outcome if
      and only if the image passes: the word for Invalid is reached through the one for Valid. */
  lemma PowerLossVouchesExactly(s: System, crc32: seq<bv8> -> bv32)
    requires |s.flash| == FLASH_BYTES && s.running.App? && s.running.p < 2
    requires HasStatus(s.flash, Complement(s.running.p), Blank)
    ensures (forall s' :: Next(s, PowerLoss(Verify), s', crc32) ==>
               |s'.flash| == FLASH_BYTES
               && (HasStatus(s'.flash, Complement(s.running.p), Valid) ==>
                     PassesVerification(s'.flash, Complement(s.running.p), crc32)))
        <==> PassesVerification(s.flash, Complement(s.running.p), crc32)
  {
    hide And8, HeaderAt, HeaderPage, StatusWord, PassesVerification, Interrupted, InterruptedProgram, SameImage;
    var f, p, q := s.flash, s.running.p, Complement(s.running.p);
    if PassesVerification(f, q, crc32) {
      forall s' | Next(s, PowerLoss(Verify), s', crc32)
        ensures |s'.flash| == FLASH_BYTES
        ensures HasStatus(s'.flash, q, Valid) ==> PassesVerification(s'.flash, q, crc32)
      {
        CommandKeepsImage(f, s'.flash, p, Verify, crc32, q);
        SameImageIs(f, s'.flash, q);
        SameImagePasses(f, s'.flash, q, crc32);
      }
    } else {
      var g := TornToValid(f, q);
      RewriteIsProgram(f, g, p, Verify, crc32, q);
      assert Next(s, PowerLoss(Verify), System(g, Off), crc32);
      CommandKeepsImage(f, g, p, Verify, crc32, q);
      SameImagePasses(f, g, q, crc32);
      assert HasStatus(System(g, Off).flash, q, Valid);
    }
  }

  lemma BlankBytes()
    ensures WordBytes(StatusWord(Blank)) == [0xFF, 0xFF, 0xFF, 0xFF]
    ensures WordBytes(StatusWord(Valid)) == [0xFF, 0xFF, 0xAD, 0xFF]
    ensures WordBytes(StatusWord(Invalid)) == [0xAD, 0xDE, 0xAD, 0xDE]
    ensures Below(0xAD, 0xFF) && Below(And8(0xFF, 0xAD), 0xAD)
  {
  }

  /** Where Invalid is written over Blank, the third byte may be done before the others are begun. */
  lemma TornToValid(f: Flash, q: nat) returns (g: Flash)
    requires q < 2 && |f| == FLASH_BYTES && HasStatus(f, q, Blank)
    ensures |g| == FLASH_BYTES && InterruptedProgram(f, g, PartStart(q), HeaderPage(f, q, Invalid))
    ensures HasStatus(g, q, Valid)
  {
    hide And8, HeaderPage, WordBytes, StatusWord, HeaderAt, Below, InterruptedProgram;
    var k := PartStart(q) + STATUS_OFFSET;
    BlankBytes();
    StatusBytesAt(f, q);
    assert f[k..k + 4][2] == f[k + 2];
    g := f[k + 2 := 0xAD];
    OneByteInterrupted(f, q, Invalid, 2, 0xAD);
    StatusBytesAt(g, q);
    assert g[k..k + 4] == f[k..k + 4][2 := 0xAD];
    var blank: seq<bv8> := [0xFF, 0xFF, 0xFF, 0xFF];
    assert blank[2 := 0xAD] == [0xFF, 0xFF, 0xAD, 0xFF];
    SameBytesSameWord(HeaderAt(g, q).status, StatusWord(Valid));
  }

  lemma SameBytesSameWord(a: bv32, b: bv32)
    requires WordBytes(a) == WordBytes(b)
    ensures a == b
  {
    hide WordBytes;
    WordOfBytes(a);
    WordOfBytes(b);
  }
}
