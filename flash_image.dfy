/** What the flash holds after the updater's calls: each merged segment is
    erased sector by sector and then written in chunks; the result is the
    segment data where a segment covers an address, 0xFF where only an
    erase reached, and the old byte elsewhere. The bytes outside sector 0
    and sectors 4 to 7 are never changed, even by a flash that fails half
    way. */
module FlashImage {
  import opened Wrappers
  import opened JsText
  import opened FlashLayout
  import opened Dfu
  import opened Segments
  import opened SegmentMerge
  import opened FlashEngine

  // -----------------------------------------------------------------------
  // The chunks

  /** The data the block-2 downloads of `ops` carry, in order. */
  function Downloaded(ops: seq<Op>): seq<byte> {
    if ops == [] then []
    else (if ops[0].Download? && ops[0].blockNum == 2 then ops[0].data else []) + Downloaded(ops[1..])
  }

  lemma {:induction false} DownloadedConcat(a: seq<Op>, b: seq<Op>)
    ensures Downloaded(a + b) == Downloaded(a) + Downloaded(b)
  {
    if a == [] {
      assert a + b == b;
    } else {
      var x := if a[0].Download? && a[0].blockNum == 2 then a[0].data else [];
      assert (a + b)[0] == a[0] && (a + b)[1..] == a[1..] + b;
      assert Downloaded(a + b) == x + Downloaded(a[1..] + b);
      DownloadedConcat(a[1..], b);
      assert x + (Downloaded(a[1..]) + Downloaded(b)) == (x + Downloaded(a[1..])) + Downloaded(b);
    }
  }

  /** One chunk: SET_ADDRESS moves the address pointer to the chunk's address,
      the download stores the chunk there, the poll changes nothing. */
  lemma ChunkHeadFacts(s: Segment, sent: nat, x: int, v: byte, p: int)
    requires sent < |s.data|
    ensures Downloaded(ChunkHead(s, sent)) == s.data[sent..sent + ChunkSize(s, sent)]
    ensures CellAfter(ChunkHead(s, sent), x, v, p) ==
      if s.address + sent <= x < s.address + sent + ChunkSize(s, sent) then s.data[x - s.address] else v
    ensures PointerAfter(ChunkHead(s, sent), p) == s.address + sent
    ensures InSafeRange(s) ==> Guarded(ChunkHead(s, sent), p)
  {
    ChunkHeadData(s, sent);
    ChunkHeadCell(s, sent, x, v, p);
    ChunkHeadPointer(s, sent, p);
    if InSafeRange(s) {
      ChunkHeadGuarded(s, sent, p);
    }
  }

  lemma ChunkHeadData(s: Segment, sent: nat)
    requires sent < |s.data|
    ensures Downloaded(ChunkHead(s, sent)) == s.data[sent..sent + ChunkSize(s, sent)]
  {
    var d := s.data[sent..sent + ChunkSize(s, sent)];
    var h := ChunkHead(s, sent);
    var t1 := h[1..];
    var t2 := t1[1..];
    assert t1[0] == Download(d, 2) && t2[0] == PollUntilIdle(DfuDnloadIdle) && t2[1..] == [];
    assert Downloaded(t2) == [];
    assert Downloaded(t1) == d + [];
  }

  lemma ChunkHeadCell(s: Segment, sent: nat, x: int, v: byte, p: int)
    requires sent < |s.data|
    ensures CellAfter(ChunkHead(s, sent), x, v, p) ==
      if s.address + sent <= x < s.address + sent + ChunkSize(s, sent) then s.data[x - s.address] else v
  {
    var a := s.address + sent;
    var d := s.data[sent..sent + ChunkSize(s, sent)];
    var h := ChunkHead(s, sent);
    var t1 := h[1..];
    var t2 := t1[1..];
    assert t1[0] == Download(d, 2) && t2[0] == PollUntilIdle(DfuDnloadIdle) && t2[1..] == [];
    var w := CellAfterOp(Download(d, 2), x, v, a);
    assert CellAfter(t2, x, w, a) == w;
    assert CellAfter(t1, x, v, a) == w;
    assert CellAfter(h, x, v, p) == CellAfter(t1, x, v, a);
  }

  lemma ChunkHeadPointer(s: Segment, sent: nat, p: int)
    requires sent < |s.data|
    ensures PointerAfter(ChunkHead(s, sent), p) == s.address + sent
  {
    var a := s.address + sent;
    var h := ChunkHead(s, sent);
    var t1 := h[1..];
    var t2 := t1[1..];
    assert t1[0].Download? && t2[0] == PollUntilIdle(DfuDnloadIdle) && t2[1..] == [];
    assert PointerAfter(t2, a) == a;
    assert PointerAfter(t1, a) == a;
    assert PointerAfter(h, p) == PointerAfter(t1, a);
  }

  lemma ChunkHeadGuarded(s: Segment, sent: nat, p: int)
    requires sent < |s.data| && InSafeRange(s)
    ensures Guarded(ChunkHead(s, sent), p)
  {
    var a := s.address + sent;
    var d := s.data[sent..sent + ChunkSize(s, sent)];
    var h := ChunkHead(s, sent);
    var t1 := h[1..];
    var t2 := t1[1..];
    assert t1[0] == Download(d, 2) && t2[0] == PollUntilIdle(DfuDnloadIdle) && t2[1..] == [];
    assert Guarded(t2, a);
    assert OpGuarded(t1[0], a);
    assert Guarded(t1, a);
  }

  /** Manifestation moves the address pointer and downloads nothing to block 2. */
  lemma ManifestFacts(first: int, x: int, v: byte, p: int)
    ensures CellAfter(ManifestOps(first), x, v, p) == v
    ensures Guarded(ManifestOps(first), p)
  {
    var m := ManifestOps(first);
    var t1 := m[1..];
    var t2 := t1[1..];
    assert t1[0] == Download([], 0) && t2[0] == PollUntilManifest && t2[1..] == [];
    assert CellAfter(t2, x, v, first) == v;
    assert CellAfter(t1, x, v, first) == v;
    assert CellAfter(m, x, v, p) == CellAfter(t1, x, v, first);
    assert Guarded(t2, first);
    assert Guarded(t1, first);
  }

  /** The chunks carry exactly the bytes of the segment from `sent` on, so
      the chunk sizes add up to the length of what is left. */
  lemma {:induction false} ChunksCover(s: Segment, sent: nat)
    requires sent <= |s.data|
    ensures Downloaded(ChunkOps(s, sent)) == s.data[sent..]
    decreases |s.data| - sent
  {
    if sent < |s.data| {
      var c := ChunkSize(s, sent);
      var h := ChunkHead(s, sent);
      DownloadedConcat(h, ChunkOps(s, sent + c));
      ChunkHeadFacts(s, sent, 0, 0, 0);
      ChunksCover(s, sent + c);
      assert s.data[sent..sent + c] + s.data[sent + c..] == s.data[sent..];
    }
  }

  /** Every chunk downloads between 1 and 2048 bytes, and the chunk loop
      makes three calls per chunk. */
  lemma {:induction false} ChunkSizes(s: Segment, sent: nat)
    requires sent <= |s.data|
    ensures |ChunkOps(s, sent)| % 3 == 0
    ensures forall k :: 0 <= k < |ChunkOps(s, sent)| && ChunkOps(s, sent)[k].Download? ==>
      0 < |ChunkOps(s, sent)[k].data| <= TransferSize
    decreases |s.data| - sent
  {
    if sent < |s.data| {
      var c := ChunkSize(s, sent);
      var h := ChunkHead(s, sent);
      var t := ChunkOps(s, sent + c);
      var all: seq<Op> := h + t;
      ChunkSizes(s, sent + c);
      forall k | 0 <= k < |all| && all[k].Download?
        ensures 0 < |all[k].data| <= TransferSize
      {
        if k >= 3 {
          assert all[k] == t[k - 3];
        }
      }
    }
  }

  // -----------------------------------------------------------------------
  // The effect of the calls on one byte

  /** The byte at `x` after the erase and the writes of `s`. */
  function SegmentCell(s: Segment, x: int, v: byte): byte {
    if s.address <= x < End(s) then s.data[x - s.address]
    else if ErasesCell(s.address, |s.data|, x) then 0xFF
    else v
  }

  /** The byte at `x` after the segments, one after the other. */
  function Flashed(ms: seq<Segment>, x: int, v: byte): byte {
    if ms == [] then v else Flashed(ms[1..], x, SegmentCell(ms[0], x, v))
  }

  /** The chunks from `sent` on write the rest of the segment, wherever
      the address pointer stood before. */
  lemma {:induction false} ChunkOpsEffect(s: Segment, sent: nat, x: int, v: byte, p: int)
    requires sent <= |s.data|
    ensures CellAfter(ChunkOps(s, sent), x, v, p) ==
      if s.address + sent <= x < End(s) then s.data[x - s.address] else v
    decreases |s.data| - sent
  {
    if sent < |s.data| {
      var c := ChunkSize(s, sent);
      var h := ChunkHead(s, sent);
      CellAfterConcat(h, ChunkOps(s, sent + c), x, v, p);
      ChunkHeadFacts(s, sent, x, v, p);
      var w := CellAfter(h, x, v, p);
      ChunkOpsEffect(s, sent + c, x, w, PointerAfter(h, p));
    }
  }

  lemma SegmentOpsEffect(s: Segment, x: int, v: byte, p: int)
    ensures CellAfter(SegmentOps(s), x, v, p) == SegmentCell(s, x, v)
  {
    var e := [Erase(s.address, |s.data|)];
    CellAfterConcat(e, ChunkOps(s, 0), x, v, p);
    ChunkOpsEffect(s, 0, x, CellAfter(e, x, v, p), PointerAfter(e, p));
  }

  lemma {:induction false} WriteOpsEffect(ms: seq<Segment>, x: int, v: byte, p: int)
    ensures CellAfter(WriteOps(ms), x, v, p) == Flashed(ms, x, v)
  {
    if ms != [] {
      CellAfterConcat(SegmentOps(ms[0]), WriteOps(ms[1..]), x, v, p);
      SegmentOpsEffect(ms[0], x, v, p);
      WriteOpsEffect(ms[1..], x, SegmentCell(ms[0], x, v), PointerAfter(SegmentOps(ms[0]), p));
    }
  }

  /** The whole plan: manifestation writes nothing, so the flash holds
      what the segment writes left. */
  lemma FlashOpsEffect(ms: seq<Segment>, x: int, v: byte, p: int)
    requires ms != []
    ensures CellAfter(FlashOps(ms), x, v, p) == Flashed(ms, x, v)
  {
    var m := ManifestOps(ms[0].address);
    CellAfterConcat(WriteOps(ms), m, x, v, p);
    WriteOpsEffect(ms, x, v, p);
    ManifestFacts(ms[0].address, x, CellAfter(WriteOps(ms), x, v, p), PointerAfter(WriteOps(ms), p));
  }

  // -----------------------------------------------------------------------
  // Separated segments keep their bytes

  /** The erase of a segment reaches no further than the sector of its
      last byte, the point from which the corrected merge rule lets the
      next segment start. */
  lemma EraseEndCovers(c: Segment, x: int)
    requires c.address <= x < End(c)
    ensures x < EraseEnd(c)
    ensures InFlash(x) ==> SectorEnd(x) <= EraseEnd(c)
  {
    var last := End(c) - 1;
    if InFlash(last) {
      SectorAround(last);
      if InFlash(x) {
        SectorsMonotone(x, last);
      }
    } else if InFlash(x) {
      SectorOf(x);
      SectorOf(last);
      SectorAround(x);
    }
  }

  /** Segments that all start past `x` and past the end of its sector
      leave the byte at `x` alone. */
  lemma {:induction false} Untouched(ms: seq<Segment>, x: int, v: byte)
    requires forall j :: 0 <= j < |ms| ==> x < ms[j].address
    requires InFlash(x) ==> forall j :: 0 <= j < |ms| ==> SectorEnd(x) <= ms[j].address
    ensures Flashed(ms, x, v) == v
  {
    if ms != [] {
      assert SegmentCell(ms[0], x, v) == v;
      Untouched(ms[1..], x, v);
    }
  }

  /** When no two neighbours would be merged under the corrected rule,
      every covered address ends up holding the byte of the last segment
      that covers it. */
  lemma {:induction false} FlashedSeparated(ms: seq<Segment>, x: int, v: byte)
    requires Apart(SectorAware, ms)
    ensures ValueAt(ms, x).Some? ==> Flashed(ms, x, v) == ValueAt(ms, x).value
  {
    if ms != [] && ValueAt(ms, x).Some? {
      var tail := ms[1..];
      assert Apart(SectorAware, tail) by {
        forall i | 0 < i < |tail| ensures !ShouldMerge(SectorAware, tail[i - 1], tail[i]) {
          assert tail[i - 1] == ms[i] && tail[i] == ms[i + 1];
        }
      }
      if ValueAt(tail, x).Some? {
        FlashedSeparated(tail, x, SegmentCell(ms[0], x, v));
      } else {
        EraseEndCovers(ms[0], x);
        ApartIsSpaced(SectorAware, ms);
        forall j | 0 <= j < |tail| ensures EraseEnd(ms[0]) <= tail[j].address {
          SortedPairwise(ms, 1, j + 1);
        }
        Untouched(tail, x, SegmentCell(ms[0], x, v));
      }
    }
  }

  /** The flash path with the corrected merge rule: every byte the sorted
      segments give a value ends up in flash with that value. */
  lemma MergedFlashKeepsBytes(sorted: seq<Segment>, x: int, v: byte, p: int)
    requires SortedByAddress(sorted) && sorted != []
    ensures Merge(SectorAware, sorted) != []
    ensures ValueAt(sorted, x).Some? ==>
      CellAfter(FlashOps(Merge(SectorAware, sorted)), x, v, p) == ValueAt(sorted, x).value
  {
    var ms := Merge(SectorAware, sorted);
    MergeIsSpaced(SectorAware, sorted);
    MergeValues(SectorAware, sorted, x);
    FlashOpsEffect(ms, x, v, p);
    FlashedSeparated(ms, x, v);
  }

  /** The merge as written leaves two one-byte segments 8 KB apart in
      sector 4 unmerged: their gap is not under 4096 bytes. */
  lemma AsWrittenKeepsApart()
    ensures var sorted := [Segment(0x0801_0000, [0x11]), Segment(0x0801_2000, [0x22])];
      SortedByAddress(sorted) && Merge(AsWritten, sorted) == sorted
  {
    var first := Segment(0x0801_0000, [0x11]);
    var second := Segment(0x0801_2000, [0x22]);
    var sorted := [first, second];
    assert sorted[1..] == [second];
    assert !ShouldMerge(AsWritten, first, second);
    assert MergeFrom(AsWritten, second, []) == [second];
  }

  /** ... and then the erase for the second segment wipes the sector that
      holds the first: its byte reads back as 0xFF. */
  lemma AsWrittenLosesBytes(v: byte, p: int)
    ensures var sorted := [Segment(0x0801_0000, [0x11]), Segment(0x0801_2000, [0x22])];
      && SortedByAddress(sorted)
      && ValueAt(sorted, 0x0801_0000) == Some(0x11)
      && CellAfter(FlashOps(Merge(AsWritten, sorted)), 0x0801_0000, v, p) == 0xFF
  {
    var first := Segment(0x0801_0000, [0x11]);
    var second := Segment(0x0801_2000, [0x22]);
    var sorted := [first, second];
    AsWrittenKeepsApart();
    FlashOpsEffect(sorted, 0x0801_0000, v, p);
    SecondErasesFirst();
    assert sorted[1..] == [second];
    assert Flashed([second], 0x0801_0000, 0x11) == 0xFF;
  }

  /** The second segment's erase reaches the first segment's byte. */
  lemma SecondErasesFirst()
    ensures SegmentCell(Segment(0x0801_2000, [0x22]), 0x0801_0000, 0x11) == 0xFF
  {
    SectorOf(0x0801_0000);
  }

  // -----------------------------------------------------------------------
  // The EEPROM is never touched

  lemma {:induction false} ChunkOpsGuarded(s: Segment, sent: nat, p: int)
    requires sent <= |s.data| && InSafeRange(s)
    ensures Guarded(ChunkOps(s, sent), p)
    decreases |s.data| - sent
  {
    if sent < |s.data| {
      var c := ChunkSize(s, sent);
      var h := ChunkHead(s, sent);
      ChunkHeadFacts(s, sent, 0, 0, p);
      ChunkOpsGuarded(s, sent + c, PointerAfter(h, p));
      GuardedConcat(h, ChunkOps(s, sent + c), p);
    }
  }

  lemma {:induction false} WriteOpsGuarded(ms: seq<Segment>, p: int)
    requires forall i :: 0 <= i < |ms| ==> InSafeRange(ms[i])
    ensures Guarded(WriteOps(ms), p)
  {
    if ms != [] {
      var s := ms[0];
      var e := [Erase(s.address, |s.data|)];
      ChunkOpsGuarded(s, 0, p);
      GuardedConcat(e, ChunkOps(s, 0), p);
      WriteOpsGuarded(ms[1..], PointerAfter(SegmentOps(s), p));
      GuardedConcat(SegmentOps(s), WriteOps(ms[1..]), p);
    }
  }

  /** Every erase and every write of the plan stays inside sector 0 or
      sectors 4 to 7 when the segments do. */
  lemma PlanGuarded(ms: seq<Segment>, p: int)
    requires ms != [] && forall i :: 0 <= i < |ms| ==> InSafeRange(ms[i])
    ensures Guarded(FlashOps(ms), p)
  {
    var m := ManifestOps(ms[0].address);
    WriteOpsGuarded(ms, p);
    ManifestFacts(ms[0].address, 0, 0, PointerAfter(WriteOps(ms), p));
    GuardedConcat(WriteOps(ms), m, p);
  }

  /** Whatever calls throw, the calls actually made leave every byte
      outside the safe ranges, the emulated EEPROM included, as it was. */
  lemma FlashRunKeepsProtected(ms: seq<Segment>, base: nat, fails: set<nat>, x: int, v: byte, p: int)
    requires ms != [] && forall i :: 0 <= i < |ms| ==> InSafeRange(ms[i])
    requires Protected(x)
    ensures CellAfter(FlashRun(ms, base, fails).trace, x, v, p) == v
  {
    var trace := FlashRun(ms, base, fails).trace;
    FlashRunFollowsPlan(ms, base, fails);
    PlanGuarded(ms, p);
    GuardedPrefix(FlashOps(ms), p, |trace|);
    GuardedKeepsProtected(trace, x, v, p);
  }

  /** The EEPROM bytes are protected. */
  lemma EepromProtected(x: int)
    requires EepromStart <= x < EepromEnd
    ensures Protected(x)
  {
  }
}
