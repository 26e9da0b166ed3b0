/**
 CompositeArray: one buffer that holds a header with three counts, then the Mode S, UAT ADS-B and
 UAT uplink packets back to back.  Packing drains three queues into it, parsing reads it back, and
 merging splices a second buffer into it in place by a chain of overlapping moves.
 */
module CompositeArray {
  import opened Arith
  import opened Bytes
  import opened Queues

  const HEADER_BYTES: nat := 8
  const MODE_S_BYTES: nat := 32     // sizeof(RawModeSPacket)
  const ADSB_BYTES: nat := 64       // sizeof(RawUATADSBPacket)
  const UPLINK_BYTES: nat := 568    // sizeof(RawUATUplinkPacket)
  const MAX_LEN_BYTES: nat := 2000  // RawPackets::kMaxLenBytes

  /** The memory image of one raw packet. */
  type Packet = seq<byte>

  /** The abstract value of a composite array: three packet sections. */
  datatype Composite = Composite(modeS: seq<Packet>, adsb: seq<Packet>, uplink: seq<Packet>)

  predicate AllOfSize(ps: seq<Packet>, size: nat) {
    forall i :: 0 <= i < |ps| ==> |ps[i]| == size
  }

  /** f is the packets ps laid end to end. */
  ghost predicate LaidOut(f: seq<byte>, ps: seq<Packet>)
    decreases |ps|
  {
    if ps == [] then f == []
    else |ps[0]| <= |f| && f[..|ps[0]|] == ps[0] && LaidOut(f[|ps[0]|..], ps[1..])
  }

  function Split(b: seq<byte>, size: nat): seq<Packet>
    requires size > 0
    decreases |b|
  {
    if |b| < size then [] else [b[..size]] + Split(b[size..], size)
  }

  function Times(n: nat, size: nat): nat { n * size }

  lemma TimesStep(n: nat, size: nat)
    ensures if n == 0 then Times(n, size) == 0 else Times(n, size) == Times(n - 1, size) + size
  {
  }

  lemma {:induction false} SplitCount(b: seq<byte>, n: nat, size: nat)
    requires size > 0 && |b| == Times(n, size)
    ensures |Split(b, size)| == n
  {
    hide Times;
    TimesStep(n, size);
    if n > 0 {
      SplitCount(b[size..], n - 1, size);
    }
  }

  lemma {:induction false} SplitConcat(a: seq<byte>, b: seq<byte>, n: nat, size: nat)
    requires size > 0 && |a| == Times(n, size)
    ensures Split(a + b, size) == Split(a, size) + Split(b, size)
  {
    hide Times;
    TimesStep(n, size);
    if n == 0 {
      assert a + b == b;
    } else {
      SplitConcat(a[size..], b, n - 1, size);
      assert (a + b)[size..] == a[size..] + b;
      assert (a + b)[..size] == a[..size];
    }
  }

  /** Splitting at the packet size undoes laying packets end to end. */
  lemma {:induction false} SplitLaidOut(f: seq<byte>, ps: seq<Packet>, size: nat)
    requires size > 0 && AllOfSize(ps, size) && LaidOut(f, ps)
    ensures |f| == |ps| * size
    ensures Split(f, size) == ps
    decreases |ps|
  {
    if ps != [] {
      SplitLaidOut(f[size..], ps[1..], size);
      assert |ps| * size == (|ps| - 1) * size + size;
      assert ps == [ps[0]] + ps[1..];
    }
  }

  lemma {:induction false} LaidOutSnoc(f: seq<byte>, ps: seq<Packet>, p: Packet)
    requires LaidOut(f, ps)
    ensures LaidOut(f + p, ps + [p])
    decreases |ps|
  {
    if ps == [] {
      assert ps + [p] == [p] && f + p == p;
      assert p[..|p|] == p && p[|p|..] == [];
      assert [p][1..] == [];
    } else {
      var n := |ps[0]|;
      LaidOutSnoc(f[n..], ps[1..], p);
      assert (ps + [p])[1..] == ps[1..] + [p] && (ps + [p])[0] == ps[0];
      assert (f + p)[n..] == f[n..] + p && (f + p)[..n] == f[..n];
    }
  }

  // ----- Layout -----

  function ModeSLen(n: nat): nat { 32 * n }

  function AdsbLen(n: nat): nat { 64 * n }

  function UplinkLen(n: nat): nat { 568 * n }

  function TotalBytes(n: nat, m: nat, k: nat): nat {
    HEADER_BYTES + ModeSLen(n) + AdsbLen(m) + UplinkLen(k)
  }

  /** The length that the counts in the header claim. */
  function ClaimedBytes(b: seq<byte>): nat
    requires |b| >= HEADER_BYTES
  {
    TotalBytes(U16At(b, 0), U16At(b, 2), U16At(b, 4))
  }

  predicate WellFormed(b: seq<byte>) {
    |b| >= HEADER_BYTES && ClaimedBytes(b) <= |b|
  }

  function AdsbStart(b: seq<byte>): nat requires WellFormed(b) {
    HEADER_BYTES + ModeSLen(U16At(b, 0))
  }

  function UplinkStart(b: seq<byte>): nat requires WellFormed(b) {
    AdsbStart(b) + AdsbLen(U16At(b, 2))
  }

  function ModeSBytes(b: seq<byte>): seq<byte> requires WellFormed(b) {
    b[HEADER_BYTES..AdsbStart(b)]
  }

  function AdsbBytes(b: seq<byte>): seq<byte> requires WellFormed(b) {
    b[AdsbStart(b)..UplinkStart(b)]
  }

  function UplinkBytes(b: seq<byte>): seq<byte> requires WellFormed(b) {
    b[UplinkStart(b)..ClaimedBytes(b)]
  }

  function View(b: seq<byte>): Composite
    requires WellFormed(b)
  {
    Composite(Split(ModeSBytes(b), MODE_S_BYTES), Split(AdsbBytes(b), ADSB_BYTES), Split(UplinkBytes(b), UPLINK_BYTES))
  }

  function PackedBytes(c: Composite): nat {
    TotalBytes(|c.modeS|, |c.adsb|, |c.uplink|)
  }

  // ----- Parsing -----

  datatype Parse = Rejected | Accepted(lenBytes: uint16, modeS: nat, adsb: nat, uplink: nat)

  /** UnpackRawPacketsBuffer: the claimed length is kept in a uint16_t. */
  function UnpackRawPacketsBuffer(b: seq<byte>, bufLen: uint16): Parse
    requires bufLen <= |b|
  {
    if bufLen < HEADER_BYTES then Rejected
    else
      var lenBytes := U16(ClaimedBytes(b));
      if bufLen < lenBytes then Rejected
      else
        var adsb := HEADER_BYTES + ModeSLen(U16At(b, 0));
        Accepted(lenBytes, HEADER_BYTES, adsb, adsb + AdsbLen(U16At(b, 2)))
  }

  /** Every buffer that really holds what its header claims is accepted, with the true section starts. */
  lemma ParseAcceptsWellFormed(b: seq<byte>, bufLen: uint16)
    requires bufLen <= |b| && WellFormed(b[..bufLen])
    ensures UnpackRawPacketsBuffer(b, bufLen)
         == Accepted(ClaimedBytes(b), HEADER_BYTES, AdsbStart(b[..bufLen]), UplinkStart(b[..bufLen]))
  {
    assert ClaimedBytes(b) == ClaimedBytes(b[..bufLen]) <= bufLen;
  }

  /** Acceptance means well formed exactly when the uint16_t length does not wrap into range. */
  lemma ParseSoundExactly(b: seq<byte>, bufLen: uint16)
    requires HEADER_BYTES <= bufLen <= |b|
    ensures (UnpackRawPacketsBuffer(b, bufLen).Accepted? ==> WellFormed(b[..bufLen]))
        <==> (ClaimedBytes(b) < U16_LIMIT || ClaimedBytes(b) % U16_LIMIT > bufLen)
  {
    assert ClaimedBytes(b) == ClaimedBytes(b[..bufLen]);
  }

  /** A header that claims 2048 Mode S packets (65544 bytes) is accepted in a buffer of 8 bytes. */
  lemma ParseWrapExample()
    ensures exists b: seq<byte> :: |b| == 8 && UnpackRawPacketsBuffer(b, 8).Accepted? && !WellFormed(b)
  {
    var b: seq<byte> := [0, 8, 0, 0, 0, 0, 0, 0];
    assert U16At(b, 0) == 2048 && U16At(b, 2) == 0 && U16At(b, 4) == 0;
    assert ClaimedBytes(b) == 65544;
    assert UnpackRawPacketsBuffer(b, 8).Accepted?;
  }

  // ----- Merging -----

  /** What merging promises: each section is the destination's packets, then the source's. */
  function Merged(d: Composite, s: Composite): Composite {
    Composite(d.modeS + s.modeS, d.adsb + s.adsb, d.uplink + s.uplink)
  }

  datatype MaybeComposite = Refused | Fits(c: Composite)

  /** Merging with the size limit: refused as soon as the result would not fit. */
  function TryMerge(d: MaybeComposite, s: MaybeComposite): MaybeComposite {
    if d.Fits? && s.Fits? && PackedBytes(Merged(d.c, s.c)) <= MAX_LEN_BYTES then Fits(Merged(d.c, s.c)) else Refused
  }

  /** Repeated merges associate, refusals included. */
  lemma MergeAssociates(a: MaybeComposite, b: MaybeComposite, c: MaybeComposite)
    ensures TryMerge(TryMerge(a, b), c) == TryMerge(a, TryMerge(b, c))
  {
    if a.Fits? && b.Fits? && c.Fits? {
      assert Merged(Merged(a.c, b.c), c.c) == Merged(a.c, Merged(b.c, c.c));
    }
  }

  /** s with x inserted at offset at, the tail bytes after it moved up and the overflow overwritten. */
  function Spliced(s: seq<byte>, at: nat, tail: nat, x: seq<byte>): (r: seq<byte>)
    requires at + tail + |x| <= |s|
    ensures |r| == |s|
  {
    seq(|s|, i requires 0 <= i < |s| =>
      if i < at then s[i]
      else if i < at + |x| then x[i - at]
      else if i < at + |x| + tail then s[i - |x|]
      else s[i])
  }

  /** One merge step: the splice, then the new count in the header. */
  function Inserted(d: seq<byte>, at: nat, tail: nat, x: seq<byte>, field: nat, count: uint16): (r: seq<byte>)
    requires HEADER_BYTES <= at && at + tail + |x| <= |d| && field + 2 <= HEADER_BYTES
    ensures |r| == |d|
  {
    Overwrite(Spliced(d, at, tail, x), field, U16Bytes(count))
  }

  /** Both buffers hold what they claim, and the merge fits its limit and its destination. */
  predicate Mergeable(d: seq<byte>, s: seq<byte>) {
    && WellFormed(d) && WellFormed(s)
    && ClaimedBytes(d) + ClaimedBytes(s) - HEADER_BYTES <= Min(MAX_LEN_BYTES, |d|)
  }

  /** The three merge steps on plain offsets: a section of m bytes and one of k bytes start at offset a;
      x goes before both, y between them, z after them. */
  function ThreeInserted(d: seq<byte>, a: nat, m: nat, k: nat, x: seq<byte>, y: seq<byte>, z: seq<byte>,
                         cx: uint16, cy: uint16, cz: uint16): (r: seq<byte>)
    requires HEADER_BYTES <= a && a + m + k + |x| + |y| + |z| <= |d|
    ensures |r| == |d|
  {
    var d1 := Inserted(d, a, m + k, x, 0, cx);
    var d2 := Inserted(d1, a + |x| + m, k, y, 2, cy);
    Inserted(d2, a + |x| + m + |y| + k, 0, z, 4, cz)
  }

  /** Where the byte at index i has to come from after the three insertions. */
  function PlacedByte(d: seq<byte>, a: nat, m: nat, k: nat, x: seq<byte>, y: seq<byte>, z: seq<byte>, i: nat): byte
    requires HEADER_BYTES <= a && a + m + k + |x| + |y| + |z| <= |d| && i < |d|
  {
    if i < a then d[i]
    else if i < a + |x| then x[i - a]
    else if i < a + |x| + m then d[i - |x|]
    else if i < a + |x| + m + |y| then y[i - a - |x| - m]
    else if i < a + |x| + m + |y| + k then d[i - |x| - |y|]
    else if i < a + |x| + m + |y| + k + |z| then z[i - a - |x| - m - |y| - k]
    else d[i]
  }

  /** The overlapping moves put every byte where it belongs. */
  lemma ThreeInsertedAt(d: seq<byte>, a: nat, m: nat, k: nat, x: seq<byte>, y: seq<byte>, z: seq<byte>,
                        cx: uint16, cy: uint16, cz: uint16, i: nat)
    requires HEADER_BYTES <= a && a + m + k + |x| + |y| + |z| <= |d|
    requires HEADER_BYTES <= i < |d|
    ensures ThreeInserted(d, a, m, k, x, y, z, cx, cy, cz)[i] == PlacedByte(d, a, m, k, x, y, z, i)
  {
  }

  lemma ThreeInsertedHeader(d: seq<byte>, a: nat, m: nat, k: nat, x: seq<byte>, y: seq<byte>, z: seq<byte>,
                            cx: uint16, cy: uint16, cz: uint16)
    requires HEADER_BYTES <= a && a + m + k + |x| + |y| + |z| <= |d|
    ensures var r := ThreeInserted(d, a, m, k, x, y, z, cx, cy, cz);
            U16At(r, 0) == cx && U16At(r, 2) == cy && U16At(r, 4) == cz
  {
  }

  /** The merge of two buffers. */
  function MergeSteps(d: seq<byte>, s: seq<byte>): (r: seq<byte>)
    requires Mergeable(d, s)
    ensures |r| == |d|
  {
    ThreeInserted(d, AdsbStart(d), AdsbLen(U16At(d, 2)), UplinkLen(U16At(d, 4)),
                  ModeSBytes(s), AdsbBytes(s), UplinkBytes(s),
                  U16At(d, 0) + U16At(s, 0), U16At(d, 2) + U16At(s, 2), U16At(d, 4) + U16At(s, 4))
  }

  /** Behind the header every byte of r comes from where it has to. */
  ghost predicate Placed(d: seq<byte>, a: nat, m: nat, k: nat, x: seq<byte>, y: seq<byte>, z: seq<byte>, r: seq<byte>)
    requires HEADER_BYTES <= a && a + m + k + |x| + |y| + |z| <= |d| == |r|
  {
    forall i :: HEADER_BYTES <= i < |d| ==> r[i] == PlacedByte(d, a, m, k, x, y, z, i)
  }

  function Slice(b: seq<byte>, from: nat, to: nat): seq<byte>
    requires from <= to <= |b|
  {
    b[from..to]
  }

  lemma PlacedSections(d: seq<byte>, a: nat, m: nat, k: nat, x: seq<byte>, y: seq<byte>, z: seq<byte>, r: seq<byte>)
    requires HEADER_BYTES <= a && a + m + k + |x| + |y| + |z| <= |d| == |r|
    requires Placed(d, a, m, k, x, y, z, r)
    ensures var l1, l2, l3 := a + |x|, a + |x| + m + |y|, a + |x| + m + |y| + k + |z|;
            && Slice(r, HEADER_BYTES, l1) == Slice(d, HEADER_BYTES, a) + x
            && Slice(r, l1, l2) == Slice(d, a, a + m) + y
            && Slice(r, l2, l3) == Slice(d, a + m, a + m + k) + z
            && Slice(r, l3, |r|) == Slice(d, l3, |r|)
  {
  }

  lemma SectionsAt(b: seq<byte>, l1: nat, l2: nat, l3: nat)
    requires WellFormed(b) && AdsbStart(b) == l1 && UplinkStart(b) == l2 && ClaimedBytes(b) == l3
    ensures HEADER_BYTES <= l1 <= l2 <= l3 <= |b|
    ensures ModeSBytes(b) == Slice(b, HEADER_BYTES, l1) && AdsbBytes(b) == Slice(b, l1, l2)
    ensures UplinkBytes(b) == Slice(b, l2, l3)
  {
    hide U16At;
  }

  /** Adding up the counts moves the section starts by the bytes that are inserted before them. */
  lemma MergedStarts(d: seq<byte>, s: seq<byte>, r: seq<byte>)
    requires Mergeable(d, s) && |r| == |d|
    requires U16At(r, 0) == U16At(d, 0) + U16At(s, 0)
    requires U16At(r, 2) == U16At(d, 2) + U16At(s, 2)
    requires U16At(r, 4) == U16At(d, 4) + U16At(s, 4)
    ensures WellFormed(d) && WellFormed(s) && WellFormed(r)
    ensures var x, y, z := |ModeSBytes(s)|, |AdsbBytes(s)|, |UplinkBytes(s)|;
            var a, m, k := AdsbStart(d), AdsbLen(U16At(d, 2)), UplinkLen(U16At(d, 4));
            && HEADER_BYTES <= a && UplinkStart(d) == a + m && ClaimedBytes(d) == a + m + k
            && AdsbStart(r) == a + x && UplinkStart(r) == a + x + m + y && ClaimedBytes(r) == a + x + m + y + k + z
            && a + m + k + x + y + z <= |d|
  {
    hide U16At;
  }

  /** Bytes in the right places make each section the destination's followed by the source's. */
  lemma MergedSections(d: seq<byte>, s: seq<byte>, r: seq<byte>)
    requires Mergeable(d, s) && |r| == |d|
    requires U16At(r, 0) == U16At(d, 0) + U16At(s, 0)
    requires U16At(r, 2) == U16At(d, 2) + U16At(s, 2)
    requires U16At(r, 4) == U16At(d, 4) + U16At(s, 4)
    requires Placed(d, AdsbStart(d), AdsbLen(U16At(d, 2)), UplinkLen(U16At(d, 4)),
                    ModeSBytes(s), AdsbBytes(s), UplinkBytes(s), r)
    ensures WellFormed(r)
    ensures ModeSBytes(r) == ModeSBytes(d) + ModeSBytes(s)
    ensures AdsbBytes(r) == AdsbBytes(d) + AdsbBytes(s)
    ensures UplinkBytes(r) == UplinkBytes(d) + UplinkBytes(s)
    ensures Slice(r, ClaimedBytes(r), |r|) == Slice(d, ClaimedBytes(r), |r|)
  {
    hide U16At, Slice, Placed, WellFormed, ModeSBytes, AdsbBytes, UplinkBytes, AdsbStart, UplinkStart, ClaimedBytes,
         AdsbLen, UplinkLen;
    MergedStarts(d, s, r);
    var x, y, z := ModeSBytes(s), AdsbBytes(s), UplinkBytes(s);
    var a, m, k := AdsbStart(d), AdsbLen(U16At(d, 2)), UplinkLen(U16At(d, 4));
    SectionsAt(d, a, a + m, a + m + k);
    SectionsAt(r, a + |x|, a + |x| + m + |y|, a + |x| + m + |y| + k + |z|);
    PlacedSections(d, a, m, k, x, y, z, r);
  }

  /** What merging promises about the bytes of the destination. */
  ghost predicate IsMergeOf(d: seq<byte>, s: seq<byte>, r: seq<byte>)
    requires WellFormed(d) && WellFormed(s)
  {
    && WellFormed(r) && |r| == |d|
    && View(r) == Merged(View(d), View(s))
    && r[ClaimedBytes(r)..] == d[ClaimedBytes(r)..]
  }

  /** Sections that are joined byte by byte show the packets one behind the other. */
  lemma JoinedView(d: seq<byte>, s: seq<byte>, r: seq<byte>)
    requires WellFormed(d) && WellFormed(s) && WellFormed(r)
    requires ModeSBytes(r) == ModeSBytes(d) + ModeSBytes(s)
    requires AdsbBytes(r) == AdsbBytes(d) + AdsbBytes(s)
    requires UplinkBytes(r) == UplinkBytes(d) + UplinkBytes(s)
    ensures View(r) == Merged(View(d), View(s))
  {
    SectionLengths(d);
    hide Split, WellFormed, ModeSBytes, AdsbBytes, UplinkBytes, U16At;
    SplitConcat(ModeSBytes(d), ModeSBytes(s), U16At(d, 0), MODE_S_BYTES);
    SplitConcat(AdsbBytes(d), AdsbBytes(s), U16At(d, 2), ADSB_BYTES);
    SplitConcat(UplinkBytes(d), UplinkBytes(s), U16At(d, 4), UPLINK_BYTES);
  }

  lemma SectionLengths(b: seq<byte>)
    requires WellFormed(b)
    ensures |ModeSBytes(b)| == U16At(b, 0) * MODE_S_BYTES
    ensures |AdsbBytes(b)| == U16At(b, 2) * ADSB_BYTES
    ensures |UplinkBytes(b)| == U16At(b, 4) * UPLINK_BYTES
  {
    hide U16At;
  }

  lemma StepsArePlaced(d: seq<byte>, s: seq<byte>)
    requires Mergeable(d, s)
    ensures Placed(d, AdsbStart(d), AdsbLen(U16At(d, 2)), UplinkLen(U16At(d, 4)),
                   ModeSBytes(s), AdsbBytes(s), UplinkBytes(s), MergeSteps(d, s))
  {
    hide U16At, ThreeInserted, PlacedByte;
    var a, m, k := AdsbStart(d), AdsbLen(U16At(d, 2)), UplinkLen(U16At(d, 4));
    var x, y, z := ModeSBytes(s), AdsbBytes(s), UplinkBytes(s);
    var cx, cy, cz := U16At(d, 0) + U16At(s, 0), U16At(d, 2) + U16At(s, 2), U16At(d, 4) + U16At(s, 4);
    forall i | HEADER_BYTES <= i < |d|
      ensures MergeSteps(d, s)[i] == PlacedByte(d, a, m, k, x, y, z, i)
    {
      ThreeInsertedAt(d, a, m, k, x, y, z, cx, cy, cz, i);
    }
  }

  lemma StepsHeader(d: seq<byte>, s: seq<byte>)
    requires Mergeable(d, s)
    ensures var r := MergeSteps(d, s);
            && U16At(r, 0) == U16At(d, 0) + U16At(s, 0) && U16At(r, 2) == U16At(d, 2) + U16At(s, 2)
            && U16At(r, 4) == U16At(d, 4) + U16At(s, 4)
  {
    hide U16At, ThreeInserted;
    ThreeInsertedHeader(d, AdsbStart(d), AdsbLen(U16At(d, 2)), UplinkLen(U16At(d, 4)),
                        ModeSBytes(s), AdsbBytes(s), UplinkBytes(s),
                        U16At(d, 0) + U16At(s, 0), U16At(d, 2) + U16At(s, 2), U16At(d, 4) + U16At(s, 4));
  }

  /** The merged bytes are well formed and show each section as destination then source. */
  lemma MergeStepsView(d: seq<byte>, s: seq<byte>)
    requires Mergeable(d, s)
    ensures IsMergeOf(d, s, MergeSteps(d, s))
  {
    hide Placed, MergeSteps, U16At, View, Merged, Slice, ClaimedBytes, ModeSBytes, AdsbBytes, UplinkBytes, AdsbStart;
    StepsHeader(d, s);
    StepsArePlaced(d, s);
    MergedSections(d, s, MergeSteps(d, s));
    JoinedView(d, s, MergeSteps(d, s));
    SliceToEnd(MergeSteps(d, s), d, ClaimedBytes(MergeSteps(d, s)));
  }

  lemma SliceToEnd(r: seq<byte>, d: seq<byte>, from: nat)
    requires from <= |r| == |d| && Slice(r, from, |r|) == Slice(d, from, |r|)
    ensures r[from..] == d[from..]
  {
  }

  lemma ViewBytes(b: seq<byte>)
    requires WellFormed(b)
    ensures PackedBytes(View(b)) == ClaimedBytes(b)
  {
    SplitCount(ModeSBytes(b), U16At(b, 0), MODE_S_BYTES);
    SplitCount(AdsbBytes(b), U16At(b, 2), ADSB_BYTES);
    SplitCount(UplinkBytes(b), U16At(b, 4), UPLINK_BYTES);
  }

  /** On the abstract values the merge is TryMerge: it succeeds and refuses on the same pairs. */
  lemma MergeStepsRefineTryMerge(d: seq<byte>, s: seq<byte>)
    requires WellFormed(d) && WellFormed(s)
    requires ClaimedBytes(d) + ClaimedBytes(s) - HEADER_BYTES <= MAX_LEN_BYTES ==> Mergeable(d, s)
    ensures TryMerge(Fits(View(d)), Fits(View(s)))
         == if Mergeable(d, s) then Fits(View(MergeSteps(d, s))) else Refused
  {
    ViewBytes(d);
    ViewBytes(s);
    if Mergeable(d, s) {
      MergeStepsView(d, s);
    }
  }

  /** One step of the merge: move the tail up over itself, copy the new section x into the gap, and
      write the summed count. */
  method InsertSection(dst: array<byte>, at: nat, tail: nat, src: array<byte>, from: nat, n: nat,
                       field: nat, count: uint16, ghost d: seq<byte>, ghost x: seq<byte>)
    requires dst != src && HEADER_BYTES <= at && at + tail + n <= dst.Length && from + n <= src.Length
    requires field + 2 <= HEADER_BYTES
    requires d == dst[..] && x == src[from..from + n]
    modifies dst
    ensures dst[..] == Inserted(d, at, tail, x, field, count)
  {
    if tail > 0 {
      MemMove(dst, at + n, at, tail);
    }
    if n > 0 {
      MemCpy(dst, at, src, from, n);
    }
    assert dst[..] == Spliced(d, at, tail, x);
    PutU16(dst, field, count);
  }

  /** The three steps, once the size check has passed: n, m, k and p, q, t are the section lengths in bytes. */
  method MoveSections(dst: array<byte>, src: array<byte>, n: nat, m: nat, k: nat, p: nat, q: nat, t: nat,
                      cx: uint16, cy: uint16, cz: uint16)
    requires dst != src
    requires HEADER_BYTES + n + m + k + p + q + t <= dst.Length && HEADER_BYTES + p + q + t <= src.Length
    modifies dst
    ensures dst[..] == ThreeInserted(old(dst[..]), HEADER_BYTES + n, m, k, old(src[..])[HEADER_BYTES..HEADER_BYTES + p],
                                     old(src[..])[HEADER_BYTES + p..HEADER_BYTES + p + q],
                                     old(src[..])[HEADER_BYTES + p + q..HEADER_BYTES + p + q + t], cx, cy, cz)
  {
    ghost var d := dst[..];
    ghost var s := src[..];
    ghost var x, y, z := s[HEADER_BYTES..HEADER_BYTES + p], s[HEADER_BYTES + p..HEADER_BYTES + p + q],
                         s[HEADER_BYTES + p + q..HEADER_BYTES + p + q + t];
    var adsbStart := HEADER_BYTES + n;
    var srcModeS := HEADER_BYTES;
    var srcAdsb := srcModeS + p;
    var srcUplink := srcAdsb + q;

    // Step 1: the source's Mode S section goes after the destination's.
    InsertSection(dst, adsbStart, m + k, src, srcModeS, p, 0, cx, d, x);
    ghost var d1 := dst[..];

    // Step 2: the source's ADS-B section goes after the shifted one.
    var uplinkStart := adsbStart + p + m;
    InsertSection(dst, uplinkStart, k, src, srcAdsb, q, 2, cy, d1, y);
    ghost var d2 := dst[..];

    // Step 3: the source's uplink section is appended.
    InsertSection(dst, uplinkStart + q + k, 0, src, srcUplink, t, 4, cz, d2, z);
  }

  lemma MergeStepsFromCounts(d: seq<byte>, s: seq<byte>, n: nat, m: nat, k: nat, p: nat, q: nat, t: nat)
    requires Mergeable(d, s)
    requires n == ModeSLen(U16At(d, 0)) && m == AdsbLen(U16At(d, 2)) && k == UplinkLen(U16At(d, 4))
    requires p == ModeSLen(U16At(s, 0)) && q == AdsbLen(U16At(s, 2)) && t == UplinkLen(U16At(s, 4))
    ensures HEADER_BYTES + n + m + k + p + q + t <= |d| && HEADER_BYTES + p + q + t <= |s|
    ensures MergeSteps(d, s)
         == ThreeInserted(d, HEADER_BYTES + n, m, k, s[HEADER_BYTES..HEADER_BYTES + p],
                          s[HEADER_BYTES + p..HEADER_BYTES + p + q],
                          s[HEADER_BYTES + p + q..HEADER_BYTES + p + q + t],
                          U16At(d, 0) + U16At(s, 0), U16At(d, 2) + U16At(s, 2), U16At(d, 4) + U16At(s, 4))
  {
  }

  method MergeFitting(dst: array<byte>, src: array<byte>)
    requires dst != src && Mergeable(dst[..], src[..])
    modifies dst
    ensures dst[..] == MergeSteps(old(dst[..]), old(src[..]))
  {
    hide ThreeInserted, U16At;
    ghost var d, s := dst[..], src[..];
    var n: nat, m: nat, k: nat := U16At(dst[..], 0), U16At(dst[..], 2), U16At(dst[..], 4);
    var p: nat, q: nat, r: nat := U16At(src[..], 0), U16At(src[..], 2), U16At(src[..], 4);
    MergeStepsFromCounts(d, s, ModeSLen(n), AdsbLen(m), UplinkLen(k), ModeSLen(p), AdsbLen(q), UplinkLen(r));
    MoveSections(dst, src, ModeSLen(n), AdsbLen(m), UplinkLen(k), ModeSLen(p), AdsbLen(q), UplinkLen(r),
                 n + p, m + q, k + r);
  }

  method MergeRawPacketsBuffers(dst: array<byte>, src: array<byte>) returns (ok: bool)
    requires dst != src && dst.Length >= HEADER_BYTES && src.Length >= HEADER_BYTES
    requires ClaimedBytes(dst[..]) + ClaimedBytes(src[..]) - HEADER_BYTES <= MAX_LEN_BYTES ==>
               Mergeable(dst[..], src[..])
    modifies dst
    ensures ok <==> ClaimedBytes(old(dst[..])) + ClaimedBytes(old(src[..])) - HEADER_BYTES <= MAX_LEN_BYTES
    ensures !ok ==> dst[..] == old(dst[..])
    ensures ok ==> Mergeable(old(dst[..]), old(src[..])) && IsMergeOf(old(dst[..]), old(src[..]), dst[..])
    ensures ok ==> var d, s, r := View(old(dst[..])), View(old(src[..])), View(dst[..]);
                   r.modeS == d.modeS + s.modeS && r.adsb == d.adsb + s.adsb && r.uplink == d.uplink + s.uplink
  {
    ghost var d, s := dst[..], src[..];
    var combined := TotalBytes(U16At(dst[..], 0) as nat + U16At(src[..], 0) as nat,
                               U16At(dst[..], 2) as nat + U16At(src[..], 2) as nat,
                               U16At(dst[..], 4) as nat + U16At(src[..], 4) as nat);
    if combined > MAX_LEN_BYTES {
      return false;
    }
    MergeFitting(dst, src);
    MergeStepsView(d, s);
    ok := true;
  }
}
