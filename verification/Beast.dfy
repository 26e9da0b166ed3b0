/**
 Beast frames: an escape byte, a type, then a timestamp, a signal level and the message, in which every byte
 that equals the escape byte is doubled.
 */
module Beast {
  import opened Arith
  import opened Bytes

  const ESCAPE: byte := 0x1a
  const MODE_S_SHORT: byte := 0x32
  const MODE_S_LONG: byte := 0x33
  const UAT: byte := 0xec
  const UAT_SHORT: byte := 115   // 's'
  const UAT_LONG: byte := 108    // 'l'
  const UAT_UPLINK: byte := 117  // 'u'

  const MODE_S_FRAME_MAX_BYTES: nat := 43
  const UAT_ADSB_FRAME_MAX_BYTES: nat := 112
  const UAT_UPLINK_FRAME_MAX_BYTES: nat := 1120

  // ----- Escapes -----

  function EscapedByte(x: byte): seq<byte> { if x == ESCAPE then [x, x] else [x] }

  function Escaped(b: seq<byte>): (r: seq<byte>)
    ensures |b| <= |r| <= 2 * |b|
    decreases |b|
  {
    if b == [] then [] else EscapedByte(b[0]) + Escaped(b[1..])
  }

  lemma {:induction false} EscapedConcat(a: seq<byte>, b: seq<byte>)
    ensures Escaped(a + b) == Escaped(a) + Escaped(b)
    decreases |a|
  {
    hide EscapedByte;
    if a == [] {
      assert a + b == b;
    } else {
      EscapedConcat(a[1..], b);
      assert (a + b)[1..] == a[1..] + b;
    }
  }

  lemma EscapedSnoc(b: seq<byte>, x: byte)
    ensures Escaped(b + [x]) == Escaped(b) + EscapedByte(x)
  {
    EscapedConcat(b, [x]);
    assert [x][1..] == [];
    assert Escaped([x]) == EscapedByte(x) + [];
  }

  method WriteBufferWithBeastEscapes(to: array<byte>, at: nat, from: seq<byte>) returns (n: nat)
    requires at + |Escaped(from)| <= to.Length
    modifies to
    ensures n == |Escaped(from)| && to[..] == Overwrite(old(to[..]), at, Escaped(from))
  {
    hide Escaped, Overwrite;
    ghost var was := to[..];
    n := 0;
    EscapedNothing();
    NothingWritten(was, at);
    for i := 0 to |from|
      invariant n == |Escaped(from[..i])| && at + n + |Escaped(from[i..])| <= to.Length
      invariant to[..] == Overwrite(was, at, Escaped(from[..i]))
    {
      ghost var done, step := Escaped(from[..i]), EscapedByte(from[i]);
      NextEscaped(from, i);
      WriteByte(to, at + n, from[i]);
      n := n + 1;
      if from[i] == ESCAPE {
        WriteByte(to, at + n, ESCAPE);
        n := n + 1;
        OverwriteMore(Overwrite(was, at, done), at + |done|, [from[i]], [ESCAPE]);
        assert [from[i]] + [ESCAPE] == step;
      }
      OverwriteMore(was, at, done, step);
    }
    assert from[..|from|] == from;
  }

  lemma EscapedNothing()
    ensures Escaped([]) == []
  {
  }

  lemma NextEscaped(from: seq<byte>, i: nat)
    requires i < |from|
    ensures Escaped(from[..i + 1]) == Escaped(from[..i]) + EscapedByte(from[i])
    ensures Escaped(from[i..]) == EscapedByte(from[i]) + Escaped(from[i + 1..])
  {
    assert from[..i + 1] == from[..i] + [from[i]];
    EscapedSnoc(from[..i], from[i]);
  }

  method WriteByte(to: array<byte>, at: nat, x: byte)
    requires at < to.Length
    modifies to
    ensures to[..] == Overwrite(old(to[..]), at, [x])
  {
    to[at] := x;
  }

  // ----- Timestamp and signal level -----

  /** GetMLAT12MHzCounter. */
  function Counter12MHz(mlat48MHz: nat): (c: nat)
    ensures c < 0x1_0000_0000_0000
  {
    mlat48MHz / 4 % 0x1_0000_0000_0000
  }

  /** The six bytes of the counter, most significant first, shifted down one byte at a time. */
  function StampBytes(counter: nat): (b: seq<byte>)
    ensures |b| == 6
  {
    var c1 := counter / 256;
    var c2 := c1 / 256;
    var c3 := c2 / 256;
    var c4 := c3 / 256;
    var c5 := c4 / 256;
    [c5 % 256, c4 % 256, c3 % 256, c2 % 256, c1 % 256, counter % 256]
  }

  function StampValue(b: seq<byte>): nat
    requires |b| == 6
  {
    ((((b[0] as int * 256 + b[1] as int) * 256 + b[2] as int) * 256 + b[3] as int) * 256 + b[4] as int) * 256
    + b[5] as int
  }

  lemma StampRoundTrip(counter: nat)
    requires counter < 0x1_0000_0000_0000
    ensures StampValue(StampBytes(counter)) == counter
  {
    var c1 := counter / 256;
    var c2 := c1 / 256;
    var c3 := c2 / 256;
    var c4 := c3 / 256;
    var c5 := c4 / 256;
    assert counter == 256 * c1 + counter % 256;
    assert c1 == 256 * c2 + c1 % 256;
    assert c2 == 256 * c3 + c2 % 256;
    assert c3 == 256 * c4 + c3 % 256;
    assert c4 == 256 * c5 + c4 % 256;
    assert c5 == c5 % 256;
    assert StampBytes(counter) == [c5 % 256, c4 % 256, c3 % 256, c2 % 256, c1 % 256, counter % 256];
    hide StampBytes;
  }

  /** kRSSIdBmToRSSIdBFS, with 61 entries. */
  function LevelEntry(i: nat): byte {
    match i
    case 0 => 1 case 1 => 2 case 2 => 2 case 3 => 2 case 4 => 2 case 5 => 2
    case 6 => 2 case 7 => 3 case 8 => 3 case 9 => 3 case 10 => 3 case 11 => 4
    case 12 => 4 case 13 => 4 case 14 => 5 case 15 => 5 case 16 => 6 case 17 => 6
    case 18 => 7 case 19 => 7 case 20 => 8 case 21 => 9 case 22 => 10 case 23 => 10
    case 24 => 11 case 25 => 12 case 26 => 14 case 27 => 15 case 28 => 16 case 29 => 18
    case 30 => 19 case 31 => 21 case 32 => 23 case 33 => 25 case 34 => 27 case 35 => 29
    case 36 => 32 case 37 => 35 case 38 => 38 case 39 => 42 case 40 => 45 case 41 => 49
    case 42 => 54 case 43 => 59 case 44 => 64 case 45 => 70 case 46 => 76 case 47 => 83
    case 48 => 90 case 49 => 99 case 50 => 108 case 51 => 117 case 52 => 128 case 53 => 139
    case 54 => 152 case 55 => 166 case 56 => 181 case 57 => 197 case 58 => 215 case 59 => 234
    case _ => 255
  }

  /** The power level of a signal strength in dBm, by table, clamped at both ends. */
  function Level(dbm: int): byte { LevelEntry(Min(Max(dbm + 100, 0), 60)) }

  lemma LevelSteps(i: nat)
    requires i < 60
    ensures LevelEntry(i) <= LevelEntry(i + 1)
  {
  }

  lemma TableNeverEscapes(i: nat)
    requires i < 61
    ensures LevelEntry(i) != ESCAPE
  {
  }

  /** A level never needs an escape. */
  lemma LevelNeverEscapes(dbm: int)
    ensures Escaped([Level(dbm)]) == [Level(dbm)]
  {
    hide LevelEntry;
    TableNeverEscapes(Min(Max(dbm + 100, 0), 60));
    EscapedSnoc([], Level(dbm));
    assert [] + [Level(dbm)] == [Level(dbm)];
  }

  /** The table is clamped at -100 dBm and at -40 dBm. */
  lemma LevelEnds(dbm: int)
    ensures (dbm <= -100 ==> Level(dbm) == 1) && (dbm >= -40 ==> Level(dbm) == 255)
  {
  }

  /** A stronger signal never has a lower level. */
  lemma {:induction false} LevelMonotone(a: int, b: int)
    requires a <= b
    ensures Level(a) <= Level(b)
    decreases b - a
  {
    hide LevelEntry;
    if a < b {
      LevelMonotone(a, b - 1);
      var i := Min(Max(b - 1 + 100, 0), 60);
      if 0 <= b - 1 + 100 < 60 {
        LevelSteps(i);
      }
    }
  }

  // ----- Frames -----

  datatype Kind = ModeSShort | ModeSLong | UatShort | UatLong | UatUplink

  /** What a frame carries: the message, the low 48 bits of its 12 MHz timestamp, and its signal level. */
  datatype Frame = Frame(kind: Kind, counter: nat, level: byte, message: seq<byte>)

  function MessageBytes(kind: Kind): nat {
    match kind
    case ModeSShort => 7
    case ModeSLong => 14
    case UatShort => 30
    case UatLong => 48
    case UatUplink => 552
  }

  predicate WellFormed(f: Frame) {
    f.counter < 0x1_0000_0000_0000 && |f.message| == MessageBytes(f.kind)
  }

  /** The unescaped bytes that say which kind of frame this is. */
  function Header(kind: Kind): (h: seq<byte>)
    ensures 2 <= |h| <= 3 && h[0] == ESCAPE && h[1] != ESCAPE
  {
    match kind
    case ModeSShort => [ESCAPE, MODE_S_SHORT]
    case ModeSLong => [ESCAPE, MODE_S_LONG]
    case UatShort => [ESCAPE, UAT, UAT_SHORT]
    case UatLong => [ESCAPE, UAT, UAT_LONG]
    case UatUplink => [ESCAPE, UAT, UAT_UPLINK]
  }

  /** The bytes of a frame: header, then timestamp, level and message with escapes. */
  function Encoded(f: Frame): (b: seq<byte>) {
    Header(f.kind) + Escaped(StampBytes(f.counter)) + Escaped([f.level]) + Escaped(f.message)
  }

  lemma {:induction false} PlainBytes(b: seq<byte>)
    requires ESCAPE !in b
    ensures Escaped(b) == b
    decreases |b|
  {
    if b != [] {
      PlainBytes(b[1..]);
    }
  }

  /** Where nothing needs an escape, the bytes lie as the format says: the escape character and the type, the counter
      with its most significant byte first, the level, the message. */
  lemma FrameLayout(f: Frame)
    requires WellFormed(f) && ESCAPE !in StampBytes(f.counter) && f.level != ESCAPE && ESCAPE !in f.message
    ensures var e, h := Encoded(f), if f.kind.ModeSShort? || f.kind.ModeSLong? then 2 else 3;
            && |e| == h + 7 + |f.message| && e[h + 6] == f.level && e[h + 7..] == f.message
            && f.counter == e[h] as int * 0x100_0000_0000 + e[h + 1] as int * 0x1_0000_0000
                            + e[h + 2] as int * 0x100_0000 + e[h + 3] as int * 0x1_0000
                            + e[h + 4] as int * 0x100 + e[h + 5] as int
            && e[..h] == match f.kind
                         case ModeSShort => [0x1a, 0x32]
                         case ModeSLong => [0x1a, 0x33]
                         case UatShort => [0x1a, 0xec, 115]
                         case UatLong => [0x1a, 0xec, 108]
                         case UatUplink => [0x1a, 0xec, 117]
  {
    hide Escaped, StampBytes;
    PlainBytes(StampBytes(f.counter));
    PlainBytes([f.level]);
    PlainBytes(f.message);
    StampRoundTrip(f.counter);
    var e, h, stamp := Encoded(f), Header(f.kind), StampBytes(f.counter);
    assert e == h + stamp + [f.level] + f.message;
    assert e[|h|..|h| + 6] == stamp;
  }

  /** The frame that a packet of this kind, time and signal strength becomes. */
  function FrameOf(kind: Kind, mlat48MHz: nat, dbm: int, message: seq<byte>): Frame {
    Frame(kind, Counter12MHz(mlat48MHz), Level(dbm), message)
  }

  function MaxBytes(kind: Kind): nat {
    match kind
    case ModeSShort => MODE_S_FRAME_MAX_BYTES
    case ModeSLong => MODE_S_FRAME_MAX_BYTES
    case UatShort => UAT_ADSB_FRAME_MAX_BYTES
    case UatLong => UAT_ADSB_FRAME_MAX_BYTES
    case UatUplink => UAT_UPLINK_FRAME_MAX_BYTES
  }

  /** Every frame fits its declared maximum, although that leaves the leading escape byte out: it counts two
      bytes for a level, which never needs the second. */
  lemma FrameFits(kind: Kind, mlat48MHz: nat, dbm: int, message: seq<byte>)
    requires |message| == MessageBytes(kind)
    ensures |Encoded(FrameOf(kind, mlat48MHz, dbm, message))| <= MaxBytes(kind)
  {
    hide Level, Escaped, Counter12MHz, StampBytes;
    LevelNeverEscapes(dbm);
  }

  lemma {:induction false} AllEscapes(n: nat)
    ensures |Escaped(seq(n, _ => ESCAPE))| == 2 * n
  {
    if n > 0 {
      AllEscapes(n - 1);
      assert seq(n, _ => ESCAPE)[1..] == seq(n - 1, _ => ESCAPE);
    }
  }

  /** The maximum is reached by some packet of the longest kind. */
  lemma MaximumIsReached(kind: Kind, dbm: int)
    requires kind == ModeSLong || kind == UatLong || kind == UatUplink
    ensures |Encoded(FrameOf(kind, 0x6868_6868_6868, dbm, seq(MessageBytes(kind), _ => ESCAPE)))| == MaxBytes(kind)
  {
    hide Level, Escaped, StampBytes, Counter12MHz;
    LevelNeverEscapes(dbm);
    AllEscapes(MessageBytes(kind));
    AllEscapes(6);
    StampOfEscapes();
  }

  lemma StampOfEscapes()
    ensures StampBytes(Counter12MHz(0x6868_6868_6868)) == seq(6, _ => ESCAPE)
  {
    assert Counter12MHz(0x6868_6868_6868) == 0x1a1a_1a1a_1a1a;
    assert 0x1a1a_1a1a_1a1a / 256 == 0x1a_1a1a_1a1a && 0x1a_1a1a_1a1a / 256 == 0x1a1a_1a1a;
    assert 0x1a1a_1a1a / 256 == 0x1a_1a1a && 0x1a_1a1a / 256 == 0x1a1a && 0x1a1a / 256 == 0x1a;
    var b := StampBytes(0x1a1a_1a1a_1a1a);
    assert b[0] == ESCAPE && b[1] == ESCAPE && b[2] == ESCAPE && b[3] == ESCAPE && b[4] == ESCAPE && b[5] == ESCAPE;
  }

  // ----- Reading a stream back -----

  datatype Reading<T> = Failed | Read(value: T, rest: seq<byte>)

  /** n bytes with their escapes undone; a single escape byte starts the next frame and is an error here. */
  function Unescape(b: seq<byte>, n: nat): (r: Reading<seq<byte>>)
    ensures r.Read? ==> |r.value| == n
    decreases n
  {
    if n == 0 then Read([], b)
    else if b == [] then Failed
    else
      var k := if b[0] == ESCAPE then 2 else 1;
      if k == 2 && (|b| < 2 || b[1] != ESCAPE) then Failed
      else
        var tail := Unescape(b[k..], n - 1);
        if tail.Read? then Read([b[0]] + tail.value, tail.rest) else Failed
  }

  function KindOf(b: seq<byte>): Reading<Kind> {
    if |b| < 3 || b[0] != ESCAPE then Failed
    else if b[1] == MODE_S_SHORT then Read(ModeSShort, b[2..])
    else if b[1] == MODE_S_LONG then Read(ModeSLong, b[2..])
    else if b[1] != UAT then Failed
    else if b[2] == UAT_SHORT then Read(UatShort, b[3..])
    else if b[2] == UAT_LONG then Read(UatLong, b[3..])
    else if b[2] == UAT_UPLINK then Read(UatUplink, b[3..])
    else Failed
  }

  /** A reader of one frame at the front of a stream. */
  function ReadFrame(b: seq<byte>): Reading<Frame> {
    var kind := KindOf(b);
    if kind.Failed? then Failed
    else
      var body := Unescape(kind.rest, 7 + MessageBytes(kind.value));
      if body.Failed? then Failed
      else Read(Frame(kind.value, StampValue(body.value[..6]), body.value[6], body.value[7..]), body.rest)
  }

  lemma EscapedParts(x: seq<byte>)
    ensures Escaped(x) == if x == [] then [] else EscapedByte(x[0]) + Escaped(x[1..])
  {
  }

  lemma NothingToUnescape(b: seq<byte>)
    ensures Unescape(b, 0) == Read([], b)
  {
  }

  lemma UnescapeByte(x: byte, tail: seq<byte>, n: nat)
    requires n > 0 && Unescape(tail, n - 1).Read?
    ensures Unescape(EscapedByte(x) + tail, n)
         == Read([x] + Unescape(tail, n - 1).value, Unescape(tail, n - 1).rest)
  {
    var e := EscapedByte(x);
    var b := e + tail;
    assert b[|e|..] == tail && b[0] == x && (x == ESCAPE ==> b[1] == ESCAPE);
    hide EscapedByte;
  }

  lemma {:induction false} UnescapeEscaped(x: seq<byte>, rest: seq<byte>)
    ensures Unescape(Escaped(x) + rest, |x|) == Read(x, rest)
    decreases |x|
  {
    hide EscapedByte, Escaped, Unescape;
    EscapedParts(x);
    if x == [] {
      assert Escaped(x) + rest == rest;
      NothingToUnescape(rest);
    } else {
      var tail := Escaped(x[1..]) + rest;
      UnescapeEscaped(x[1..], rest);
      assert Escaped(x) + rest == EscapedByte(x[0]) + tail;
      UnescapeByte(x[0], tail, |x|);
      assert [x[0]] + x[1..] == x;
    }
  }

  lemma KindRead(kind: Kind, tail: seq<byte>)
    requires tail != []
    ensures KindOf(Header(kind) + tail) == Read(kind, tail)
  {
    var h := Header(kind);
    assert (h + tail)[|h|..] == tail;
    assert forall i :: 0 <= i < |h| ==> (h + tail)[i] == h[i];
  }

  /** A frame is read back whole, whatever follows it. */
  lemma FrameReadsBack(f: Frame, rest: seq<byte>)
    requires WellFormed(f)
    ensures ReadFrame(Encoded(f) + rest) == Read(f, rest)
  {
    hide Escaped, Unescape, StampBytes, StampValue, Header, KindOf;
    var stamp := StampBytes(f.counter);
    var x := stamp + [f.level] + f.message;
    EscapedConcat(stamp + [f.level], f.message);
    EscapedConcat(stamp, [f.level]);
    var tail := Escaped(x) + rest;
    assert Encoded(f) + rest == Header(f.kind) + tail;
    KindRead(f.kind, tail);
    UnescapeEscaped(x, rest);
    assert x[..6] == stamp && x[6] == f.level && x[7..] == f.message;
    StampRoundTrip(f.counter);
  }

  function EncodedAll(fs: seq<Frame>): seq<byte>
    decreases |fs|
  {
    if fs == [] then [] else Encoded(fs[0]) + EncodedAll(fs[1..])
  }

  /** A reader of a whole stream. */
  function ReadAll(b: seq<byte>): Reading<seq<Frame>>
    decreases |b|
  {
    if b == [] then Read([], [])
    else
      var first := ReadFrame(b);
      if first.Failed? || |first.rest| >= |b| then Failed
      else
        var others := ReadAll(first.rest);
        if others.Failed? then Failed else Read([first.value] + others.value, [])
  }

  /** Any concatenation of frames splits back into the same frames. */
  lemma {:induction false} StreamReadsBack(fs: seq<Frame>)
    requires forall i :: 0 <= i < |fs| ==> WellFormed(fs[i])
    ensures ReadAll(EncodedAll(fs)) == Read(fs, [])
    decreases |fs|
  {
    hide ReadFrame, Encoded;
    if fs != [] {
      var rest := EncodedAll(fs[1..]);
      FrameReadsBack(fs[0], rest);
      FrameNotEmpty(fs[0]);
      StreamReadsBack(fs[1..]);
      assert [fs[0]] + fs[1..] == fs;
    }
  }

  lemma FrameNotEmpty(f: Frame)
    ensures |Encoded(f)| >= 2
  {
  }

  /** So no two sequences of frames share a stream. */
  lemma StreamUnique(fs: seq<Frame>, gs: seq<Frame>)
    requires forall i :: 0 <= i < |fs| ==> WellFormed(fs[i])
    requires forall i :: 0 <= i < |gs| ==> WellFormed(gs[i])
    requires EncodedAll(fs) == EncodedAll(gs)
    ensures fs == gs
  {
    StreamReadsBack(fs);
    StreamReadsBack(gs);
  }

  // ----- Building frames -----

  /** Timestamp, level and message behind a header that is already in place. */
  method WriteBody(buf: array<byte>, at: nat, mlat48MHz: nat, dbm: int, message: seq<byte>) returns (n: nat)
    requires at + |Body(mlat48MHz, dbm, message)| <= buf.Length
    modifies buf
    ensures n == at + |Body(mlat48MHz, dbm, message)|
    ensures buf[..] == Overwrite(old(buf[..]), at, Body(mlat48MHz, dbm, message))
  {
    hide Escaped, Overwrite, StampBytes, Level;
    ghost var was := buf[..];
    var stamp, level := StampBytes(Counter12MHz(mlat48MHz)), [Level(dbm)];
    n := at;
    var k := WriteBufferWithBeastEscapes(buf, n, stamp);
    n := n + k;
    k := WriteBufferWithBeastEscapes(buf, n, level);
    OverwriteMore(was, at, Escaped(stamp), Escaped(level));
    n := n + k;
    k := WriteBufferWithBeastEscapes(buf, n, message);
    OverwriteMore(was, at, Escaped(stamp) + Escaped(level), Escaped(message));
    n := n + k;
  }

  function Body(mlat48MHz: nat, dbm: int, message: seq<byte>): seq<byte> {
    Escaped(StampBytes(Counter12MHz(mlat48MHz))) + Escaped([Level(dbm)]) + Escaped(message)
  }

  lemma EncodedParts(kind: Kind, mlat48MHz: nat, dbm: int, message: seq<byte>)
    ensures Encoded(FrameOf(kind, mlat48MHz, dbm, message)) == Header(kind) + Body(mlat48MHz, dbm, message)
  {
    hide Escaped, StampBytes, Level, Header;
    var s, l, m := Escaped(StampBytes(Counter12MHz(mlat48MHz))), Escaped([Level(dbm)]), Escaped(message);
    assert Header(kind) + s + l + m == Header(kind) + (s + l + m);
  }

  /** A message of another length leaves only the escape byte behind and returns 0. */
  method BuildModeSBeastFrame(buf: array<byte>, mlat48MHz: nat, dbm: int, message: seq<byte>) returns (n: nat)
    requires MODE_S_FRAME_MAX_BYTES <= buf.Length
    modifies buf
    ensures |message| != 7 && |message| != 14 ==> n == 0 && buf[..] == Overwrite(old(buf[..]), 0, [ESCAPE])
    ensures |message| == 7 || |message| == 14 ==>
              var e := Encoded(FrameOf(if |message| == 7 then ModeSShort else ModeSLong, mlat48MHz, dbm, message));
              n == |e| <= buf.Length && buf[..] == Overwrite(old(buf[..]), 0, e)
  {
    hide Escaped, Overwrite, Encoded, FrameOf, Body;
    ghost var was := buf[..];
    WriteByte(buf, 0, ESCAPE);
    if |message| == 7 {
      WriteByte(buf, 1, MODE_S_SHORT);
    } else if |message| == 14 {
      WriteByte(buf, 1, MODE_S_LONG);
    } else {
      return 0;
    }
    ghost var kind := if |message| == 7 then ModeSShort else ModeSLong;
    OverwriteMore(was, 0, [ESCAPE], [Header(kind)[1]]);
    assert [ESCAPE] + [Header(kind)[1]] == Header(kind);
    FrameFits(kind, mlat48MHz, dbm, message);
    EncodedParts(kind, mlat48MHz, dbm, message);
    n := WriteBody(buf, 2, mlat48MHz, dbm, message);
    OverwriteMore(was, 0, Header(kind), Body(mlat48MHz, dbm, message));
  }

  /** Header and body of a UAT frame. */
  method BuildUATFrame(buf: array<byte>, kind: Kind, mlat48MHz: nat, dbm: int, message: seq<byte>) returns (n: nat)
    requires kind.UatShort? || kind.UatLong? || kind.UatUplink?
    requires |message| == MessageBytes(kind) && MaxBytes(kind) <= buf.Length
    modifies buf
    ensures var e := Encoded(FrameOf(kind, mlat48MHz, dbm, message));
            n == |e| <= buf.Length && buf[..] == Overwrite(old(buf[..]), 0, e)
  {
    hide Escaped, Overwrite, Encoded, FrameOf, Body;
    ghost var was := buf[..];
    WriteByte(buf, 0, ESCAPE);
    WriteByte(buf, 1, UAT);
    OverwriteMore(was, 0, [ESCAPE], [UAT]);
    WriteByte(buf, 2, Header(kind)[2]);
    OverwriteMore(was, 0, [ESCAPE] + [UAT], [Header(kind)[2]]);
    assert [ESCAPE] + [UAT] + [Header(kind)[2]] == Header(kind);
    FrameFits(kind, mlat48MHz, dbm, message);
    EncodedParts(kind, mlat48MHz, dbm, message);
    n := WriteBody(buf, 3, mlat48MHz, dbm, message);
    OverwriteMore(was, 0, Header(kind), Body(mlat48MHz, dbm, message));
  }

  method BuildUATADSBBeastFrame(buf: array<byte>, mlat48MHz: nat, dbm: int, message: seq<byte>) returns (n: nat)
    requires UAT_ADSB_FRAME_MAX_BYTES <= buf.Length
    modifies buf
    ensures |message| != 30 && |message| != 48 ==> n == 0 && buf[..] == old(buf[..])
    ensures |message| == 30 || |message| == 48 ==>
              var e := Encoded(FrameOf(if |message| == 30 then UatShort else UatLong, mlat48MHz, dbm, message));
              n == |e| <= buf.Length && buf[..] == Overwrite(old(buf[..]), 0, e)
  {
    hide Encoded, FrameOf, Overwrite;
    if |message| != 30 && |message| != 48 {
      return 0;
    }
    n := BuildUATFrame(buf, if |message| == 30 then UatShort else UatLong, mlat48MHz, dbm, message);
  }

  method BuildUATUplinkBeastFrame(buf: array<byte>, mlat48MHz: nat, dbm: int, message: seq<byte>) returns (n: nat)
    requires UAT_UPLINK_FRAME_MAX_BYTES <= buf.Length
    modifies buf
    ensures |message| != 552 ==> n == 0 && buf[..] == old(buf[..])
    ensures |message| == 552 ==>
              var e := Encoded(FrameOf(UatUplink, mlat48MHz, dbm, message));
              n == |e| <= buf.Length && buf[..] == Overwrite(old(buf[..]), 0, e)
  {
    hide Encoded, FrameOf, Overwrite;
    if |message| != 552 {
      return 0;
    }
    n := BuildUATFrame(buf, UatUplink, mlat48MHz, dbm, message);
  }
}
