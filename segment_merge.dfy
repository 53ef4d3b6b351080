/** Sorting and merging the safe segments (the middle of `_flashFirmwareHex`).

    The segments are sorted by address with the stable `Array.prototype.sort`,
    then folded left to right: a segment is merged into the one being built
    when it overlaps it, touches it or starts less than 4096 bytes after its
    end. A merged buffer is prefilled with 0xFF (erased flash), the earlier
    data is copied in, then the later data, so the later segment wins where
    the two overlap. */
module SegmentMerge {
  import opened Wrappers
  import opened JsText
  import opened Segments
  import opened FlashLayout

  // -----------------------------------------------------------------------
  // Sorting by address (stable)

  /** Each segment starts no lower than the one before it. */
  predicate SortedByAddress(s: seq<Segment>) {
    forall i :: 0 < i < |s| ==> s[i - 1].address <= s[i].address
  }

  /** Sortedness between neighbours gives sortedness between any two. */
  lemma {:induction false} SortedPairwise(s: seq<Segment>, i: int, j: int)
    requires SortedByAddress(s) && 0 <= i <= j < |s|
    ensures s[i].address <= s[j].address
    decreases j - i
  {
    if i < j {
      SortedPairwise(s, i, j - 1);
    }
  }

  /** Puts `x` before the first element whose address is not smaller, so
      that among equal addresses `x` stays ahead of the later ones. */
  function Insert(x: Segment, s: seq<Segment>): (r: seq<Segment>)
    ensures |r| == |s| + 1
    ensures r[0] == x || (s != [] && r[0] == s[0])
  {
    if s == [] || x.address <= s[0].address then [x] + s
    else [s[0]] + Insert(x, s[1..])
  }

  lemma {:induction false} InsertPermutes(x: Segment, s: seq<Segment>)
    ensures multiset(Insert(x, s)) == multiset(s) + multiset{x}
  {
    if s != [] && x.address > s[0].address {
      InsertPermutes(x, s[1..]);
      assert s == [s[0]] + s[1..];
    }
  }

  lemma {:induction false} InsertSorted(x: Segment, s: seq<Segment>)
    requires SortedByAddress(s)
    ensures SortedByAddress(Insert(x, s))
  {
    if s != [] && x.address > s[0].address {
      InsertSorted(x, s[1..]);
      var rest := Insert(x, s[1..]);
      assert forall i :: 0 < i < |rest| ==> ([s[0]] + rest)[i] == rest[i - 1];
    }
  }

  /** `safeSegments.sort((a, b) => a.address - b.address)` */
  function SortByAddress(s: seq<Segment>): (r: seq<Segment>)
    ensures |r| == |s|
  {
    if s == [] then [] else Insert(s[0], SortByAddress(s[1..]))
  }

  /** The sort returns the same segments, each as often as before. */
  lemma {:induction false} SortPermutes(s: seq<Segment>)
    ensures multiset(SortByAddress(s)) == multiset(s)
  {
    if s != [] {
      SortPermutes(s[1..]);
      InsertPermutes(s[0], SortByAddress(s[1..]));
      assert multiset(s) == multiset{s[0]} + multiset(s[1..]) by {
        assert s == [s[0]] + s[1..];
      }
    }
  }

  /** The sort returns its segments in address order. */
  lemma {:induction false} SortSorts(s: seq<Segment>)
    ensures SortedByAddress(SortByAddress(s))
  {
    if s != [] {
      SortSorts(s[1..]);
      InsertSorted(s[0], SortByAddress(s[1..]));
    }
  }

  /** The segments at address `k`, in order. */
  function AtAddress(s: seq<Segment>, k: int): seq<Segment> {
    if s == [] then []
    else (if s[0].address == k then [s[0]] else []) + AtAddress(s[1..], k)
  }

  lemma {:induction false} InsertAtAddress(x: Segment, s: seq<Segment>, k: int)
    requires SortedByAddress(s)
    ensures AtAddress(Insert(x, s), k) == (if x.address == k then [x] else []) + AtAddress(s, k)
  {
    if s == [] || x.address <= s[0].address {
      assert ([x] + s)[1..] == s;
      if x.address == k && s != [] && s[0].address != k {
        // every later segment has an address above k: none of them is at k
        AtAddressAbove(s, k);
      }
    } else {
      InsertAtAddress(x, s[1..], k);
      var rest := Insert(x, s[1..]);
      assert ([s[0]] + rest)[1..] == rest;
      if x.address == k {
        assert s[0].address < k;
      }
    }
  }

  /** A sorted list that starts above `k` has nothing at `k`. */
  lemma {:induction false} AtAddressAbove(s: seq<Segment>, k: int)
    requires SortedByAddress(s) && s != [] && s[0].address > k
    ensures AtAddress(s, k) == []
  {
    if |s| > 1 {
      AtAddressAbove(s[1..], k);
    }
  }

  /** The sort is stable: segments with the same address keep their order. */
  lemma {:induction false} SortIsStable(s: seq<Segment>, k: int)
    ensures AtAddress(SortByAddress(s), k) == AtAddress(s, k)
  {
    if s != [] {
      SortIsStable(s[1..], k);
      SortSorts(s[1..]);
      InsertAtAddress(s[0], SortByAddress(s[1..]), k);
    }
  }

  /** Sorting a sorted list changes nothing. */
  lemma {:induction false} SortSortedIsIdentity(s: seq<Segment>)
    requires SortedByAddress(s)
    ensures SortByAddress(s) == s
  {
    if s != [] {
      SortSortedIsIdentity(s[1..]);
      assert s == [s[0]] + s[1..];
    }
  }

  // -----------------------------------------------------------------------
  // Merging

  /** The smallest gap that keeps two neighbouring segments apart. */
  const MergeGap := 4096

  /** The merge test. As written it is `next.address <= currentEnd ||
      gap < 4096`, the first test being implied by the second. The
      sector-aware rule also merges a segment that starts inside the last
      sector erased for the current one, which the 4096-byte threshold
      alone does not catch: sectors are 16 KB to 128 KB long. */
  datatype MergeRule = AsWritten | SectorAware

  predicate ShouldMerge(rule: MergeRule, current: Segment, next: Segment) {
    || next.address <= End(current)
    || next.address - End(current) < MergeGap
    || (rule == SectorAware && next.address < EraseEnd(current))
  }

  /** The address just past the last sector that erasing `current` clears;
      `End(current)` when no sector is erased. */
  function EraseEnd(current: Segment): int {
    if |current.data| == 0 || !InFlash(End(current) - 1) then End(current)
    else SectorEnd(End(current) - 1)
  }

  function Max(x: int, y: int): int {
    if x < y then y else x
  }

  /** Byte `k` of the merged buffer before `next` is copied in: the data of
      `current`, then the 0xFF fill. */
  function Underlay(current: Segment, k: int): byte {
    if 0 <= k < |current.data| then current.data[k] else 0xFF
  }

  /** The segment that replaces `current` when `next` is merged into it. */
  function Combine(current: Segment, next: Segment): (merged: Segment)
    requires current.address <= next.address
  {
    var offset := next.address - current.address;
    var newLength := Max(End(current), End(next)) - current.address;
    Segment(current.address, seq(newLength, k requires 0 <= k < newLength =>
      if offset <= k < offset + |next.data| then next.data[k - offset] else Underlay(current, k)))
  }

  /** The byte a segment holds for address `a`, if it covers `a`. */
  function ByteAt(s: Segment, a: int): Option<byte> {
    if s.address <= a < End(s) then Some(s.data[a - s.address]) else None
  }

  /** In a merged segment the later segment wins; the earlier one shows
      where the later does not reach; the rest of the span is 0xFF. */
  lemma CombineByteAt(current: Segment, next: Segment, a: int)
    requires current.address <= next.address
    ensures ByteAt(Combine(current, next), a) ==
      if ByteAt(next, a).Some? then ByteAt(next, a)
      else if ByteAt(current, a).Some? then ByteAt(current, a)
      else if current.address <= a < Max(End(current), End(next)) then Some(0xFF)
      else None
  {
  }

  /** `current` starts no later than the sorted segments still to come. */
  predicate Follows(current: Segment, rest: seq<Segment>) {
    SortedByAddress(rest) && (rest != [] ==> current.address <= rest[0].address)
  }

  /** The fold over the sorted segments, `current` being the segment under
      construction. */
  function MergeFrom(rule: MergeRule, current: Segment, rest: seq<Segment>): (merged: seq<Segment>)
    requires Follows(current, rest)
    ensures merged != []
    decreases |rest|
  {
    if rest == [] then [current]
    else if ShouldMerge(rule, current, rest[0]) then MergeFrom(rule, Combine(current, rest[0]), rest[1..])
    else [current] + MergeFrom(rule, rest[0], rest[1..])
  }

  /** One step of the fold. */
  lemma MergeFromNext(rule: MergeRule, current: Segment, rest: seq<Segment>)
    requires Follows(current, rest) && rest != []
    ensures ShouldMerge(rule, current, rest[0]) ==>
      Follows(Combine(current, rest[0]), rest[1..]) &&
      MergeFrom(rule, current, rest) == MergeFrom(rule, Combine(current, rest[0]), rest[1..])
    ensures !ShouldMerge(rule, current, rest[0]) ==>
      Follows(rest[0], rest[1..]) &&
      MergeFrom(rule, current, rest) == [current] + MergeFrom(rule, rest[0], rest[1..])
  {
  }

  /** The merged segments of a sorted list. */
  function Merge(rule: MergeRule, sorted: seq<Segment>): (merged: seq<Segment>)
    requires SortedByAddress(sorted)
  {
    if sorted == [] then [] else MergeFrom(rule, sorted[0], sorted[1..])
  }

  /** Merged buffers are rebuilt in place: prefilled with 0xFF, then the
      data of `current`, then that of `next` at its offset. */
  method CombineInto(current: Segment, next: Segment) returns (merged: Segment)
    requires current.address <= next.address
    ensures merged == Combine(current, next)
  {
    var currentEnd := current.address + |current.data|;
    var newLength := Max(currentEnd, next.address + |next.data|) - current.address;
    var newData := new byte[newLength];
    var k := 0;
    while k < newLength
      invariant 0 <= k <= newLength
      invariant forall j :: 0 <= j < k ==> newData[j] == 0xFF
    {
      newData[k] := 0xFF;
      k := k + 1;
    }
    k := 0;
    while k < |current.data|
      invariant 0 <= k <= |current.data|
      invariant forall j :: 0 <= j < newLength ==> newData[j] == (if j < k then current.data[j] else 0xFF)
    {
      newData[k] := current.data[k];
      k := k + 1;
    }
    var offset := next.address - current.address;
    k := 0;
    while k < |next.data|
      invariant 0 <= k <= |next.data|
      invariant forall j :: 0 <= j < newLength ==>
        newData[j] == (if offset <= j < offset + k then next.data[j - offset] else Underlay(current, j))
    {
      newData[offset + k] := next.data[k];
      k := k + 1;
    }
    merged := Segment(current.address, newData[..]);
  }

  /** One pass of the merge loop: `next` joins `current`, or `current` is
      finished and `next` starts the following segment. */
  lemma MergeLoopStep(rule: MergeRule, merged: seq<Segment>, current: Segment, sorted: seq<Segment>, i: nat)
    requires i < |sorted| && Follows(current, sorted[i..])
    ensures var next := sorted[i];
      var whole := merged + MergeFrom(rule, current, sorted[i..]);
      && current.address <= next.address
      && (ShouldMerge(rule, current, next) ==>
            Follows(Combine(current, next), sorted[i + 1..]) &&
            whole == merged + MergeFrom(rule, Combine(current, next), sorted[i + 1..]))
      && (!ShouldMerge(rule, current, next) ==>
            Follows(next, sorted[i + 1..]) &&
            whole == (merged + [current]) + MergeFrom(rule, next, sorted[i + 1..]))
  {
    assert sorted[i..][0] == sorted[i] && sorted[i..][1..] == sorted[i + 1..];
    MergeFromNext(rule, current, sorted[i..]);
    if !ShouldMerge(rule, current, sorted[i]) {
      var tail := MergeFrom(rule, sorted[i], sorted[i + 1..]);
      assert merged + ([current] + tail) == (merged + [current]) + tail;
    }
  }

  /** The merge loop. */
  method MergeSegments(rule: MergeRule, sorted: seq<Segment>) returns (merged: seq<Segment>)
    requires SortedByAddress(sorted)
    ensures merged == Merge(rule, sorted)
  {
    merged := [];
    if |sorted| > 0 {
      var current := sorted[0];
      var i := 1;
      while i < |sorted|
        invariant 1 <= i <= |sorted|
        invariant Follows(current, sorted[i..])
        invariant merged + MergeFrom(rule, current, sorted[i..]) == Merge(rule, sorted)
      {
        var next := sorted[i];
        var currentEnd := current.address + |current.data|;
        var gap := next.address - currentEnd;
        MergeLoopStep(rule, merged, current, sorted, i);
        if next.address <= currentEnd || gap < 4096 || (rule == SectorAware && next.address < EraseEnd(current)) {
          current := CombineInto(current, next);
        } else {
          merged := merged + [current];
          current := next;
        }
        i := i + 1;
      }
      assert sorted[i..] == [];
      merged := merged + [current];
    }
  }

  // -----------------------------------------------------------------------
  // What the merge guarantees

  /** Every segment ends at least 4096 bytes before the next one starts. */
  predicate Spaced(s: seq<Segment>) {
    forall i :: 0 < i < |s| ==> s[i].address - End(s[i - 1]) >= MergeGap
  }

  lemma SpacedIsSorted(s: seq<Segment>)
    requires Spaced(s)
    ensures SortedByAddress(s)
  {
  }

  /** No two neighbours would be merged. */
  predicate Apart(rule: MergeRule, s: seq<Segment>) {
    forall i :: 0 < i < |s| ==> !ShouldMerge(rule, s[i - 1], s[i])
  }

  lemma ApartIsSpaced(rule: MergeRule, s: seq<Segment>)
    requires Apart(rule, s)
    ensures Spaced(s) && SortedByAddress(s)
  {
  }

  /** The first merged segment starts where `current` does and reaches at
      least as far; the merged segments are spaced. */
  lemma {:induction false} MergeFromShape(rule: MergeRule, current: Segment, rest: seq<Segment>)
    requires Follows(current, rest)
    ensures var m := MergeFrom(rule, current, rest);
      |m| >= 1 && m[0].address == current.address && End(m[0]) >= End(current) && Apart(rule, m)
    decreases |rest|
  {
    if rest != [] {
      if ShouldMerge(rule, current, rest[0]) {
        MergeFromShape(rule, Combine(current, rest[0]), rest[1..]);
      } else {
        MergeFromShape(rule, rest[0], rest[1..]);
      }
    }
  }

  /** The merged segments are in address order and at least 4096 bytes
      apart, so no two of them share an address. */
  lemma MergeIsSpaced(rule: MergeRule, sorted: seq<Segment>)
    requires SortedByAddress(sorted)
    ensures Apart(rule, Merge(rule, sorted))
    ensures Spaced(Merge(rule, sorted))
    ensures SortedByAddress(Merge(rule, sorted))
    ensures |Merge(rule, sorted)| <= |sorted|
    ensures sorted != [] ==> Merge(rule, sorted) != [] && Merge(rule, sorted)[0].address == sorted[0].address
  {
    if sorted != [] {
      MergeFromShape(rule, sorted[0], sorted[1..]);
      MergeFromLength(rule, sorted[0], sorted[1..]);
      ApartIsSpaced(rule, Merge(rule, sorted));
    }
  }

  lemma {:induction false} MergeFromLength(rule: MergeRule, current: Segment, rest: seq<Segment>)
    requires Follows(current, rest)
    ensures |MergeFrom(rule, current, rest)| <= |rest| + 1
    decreases |rest|
  {
    if rest != [] {
      if ShouldMerge(rule, current, rest[0]) {
        MergeFromLength(rule, Combine(current, rest[0]), rest[1..]);
      } else {
        MergeFromLength(rule, rest[0], rest[1..]);
      }
    }
  }

  /** Segments that are already apart are left alone. */
  lemma {:induction false} MergeFromApart(rule: MergeRule, current: Segment, rest: seq<Segment>)
    requires Apart(rule, rest) && (rest != [] ==> !ShouldMerge(rule, current, rest[0]))
    ensures Follows(current, rest)
    ensures MergeFrom(rule, current, rest) == [current] + rest
    decreases |rest|
  {
    ApartIsSpaced(rule, rest);
    if rest != [] {
      assert [rest[0]] + rest[1..] == rest;
      MergeFromApart(rule, rest[0], rest[1..]);
    }
  }

  /** Merging is idempotent. */
  lemma MergeIdempotent(rule: MergeRule, sorted: seq<Segment>)
    requires SortedByAddress(sorted)
    ensures SortedByAddress(Merge(rule, sorted))
    ensures Merge(rule, Merge(rule, sorted)) == Merge(rule, sorted)
  {
    MergeIsSpaced(rule, sorted);
    var m := Merge(rule, sorted);
    if m != [] {
      assert m == [m[0]] + m[1..];
      MergeFromApart(rule, m[0], m[1..]);
    }
  }

  /** The byte a list of segments gives address `a` when each is written
      over the ones before it: the last segment that covers `a` wins. */
  function ValueAt(segs: seq<Segment>, a: int): Option<byte> {
    if segs == [] then None
    else
      var later := ValueAt(segs[1..], a);
      if later.Some? then later else ByteAt(segs[0], a)
  }

  /** The farthest end among `segs`, and `floor`. */
  function Reach(segs: seq<Segment>, floor: int): int {
    if segs == [] then floor else Reach(segs[1..], Max(floor, End(segs[0])))
  }

  lemma ValueAtCons(x: Segment, rest: seq<Segment>, a: int)
    ensures ValueAt([x] + rest, a) ==
      if ValueAt(rest, a).Some? then ValueAt(rest, a) else ByteAt(x, a)
  {
    assert ([x] + rest)[1..] == rest;
  }

  lemma {:induction false} ReachAtLeast(segs: seq<Segment>, floor: int)
    ensures Reach(segs, floor) >= floor
    decreases |segs|
  {
    if segs != [] {
      ReachAtLeast(segs[1..], Max(floor, End(segs[0])));
    }
  }

  /** The merged segments cover nothing before `current` or beyond the
      farthest end. */
  lemma {:induction false} MergeFromBounds(rule: MergeRule, current: Segment, rest: seq<Segment>, a: int)
    requires Follows(current, rest)
    ensures ValueAt(MergeFrom(rule, current, rest), a).Some? ==>
      current.address <= a < Reach(rest, End(current))
    decreases |rest|
  {
    if rest == [] {
      ValueAtCons(current, [], a);
      assert [current] + [] == [current];
    } else {
      var next := rest[0];
      if ShouldMerge(rule, current, next) {
        MergeFromBounds(rule, Combine(current, next), rest[1..], a);
      } else {
        MergeFromBounds(rule, next, rest[1..], a);
        ValueAtCons(current, MergeFrom(rule, next, rest[1..]), a);
        ReachAtLeast(rest, End(current));
        assert Max(End(current), End(next)) == End(next);
      }
    }
  }

  lemma {:induction false} MergeFromValues(rule: MergeRule, current: Segment, rest: seq<Segment>, a: int)
    requires Follows(current, rest)
    ensures var m := ValueAt(MergeFrom(rule, current, rest), a);
      var v := ValueAt([current] + rest, a);
      (v.Some? ==> m == v) && (v.None? ==> m == None || m == Some(0xFF))
    decreases |rest|
  {
    ValueAtCons(current, rest, a);
    if rest == [] {
      ValueAtCons(current, [], a);
    } else {
      var next := rest[0];
      assert [next] + rest[1..] == rest;
      ValueAtCons(next, rest[1..], a);
      if ShouldMerge(rule, current, next) {
        var combined := Combine(current, next);
        MergeFromValues(rule, combined, rest[1..], a);
        ValueAtCons(combined, rest[1..], a);
        CombineByteAt(current, next, a);
      } else {
        MergeFromValues(rule, next, rest[1..], a);
        MergeFromBounds(rule, next, rest[1..], a);
        ValueAtCons(current, MergeFrom(rule, next, rest[1..]), a);
      }
    }
  }

  /** The farthest end of a non-empty sorted list. */
  function FarthestEnd(sorted: seq<Segment>): int
    requires sorted != []
  {
    Reach(sorted[1..], End(sorted[0]))
  }

  /** Merging does not change what is written: where some segment covers
      an address, the merged image holds the byte of the last such segment;
      elsewhere it holds the 0xFF fill or nothing, and it holds nothing
      outside the first start and the farthest end. */
  lemma MergeValues(rule: MergeRule, sorted: seq<Segment>, a: int)
    requires SortedByAddress(sorted)
    ensures ValueAt(sorted, a).Some? ==> ValueAt(Merge(rule, sorted), a) == ValueAt(sorted, a)
    ensures ValueAt(sorted, a).None? ==>
      ValueAt(Merge(rule, sorted), a) == None || ValueAt(Merge(rule, sorted), a) == Some(0xFF)
    ensures ValueAt(Merge(rule, sorted), a).Some? ==> sorted[0].address <= a < FarthestEnd(sorted)
  {
    if sorted != [] {
      assert sorted == [sorted[0]] + sorted[1..];
      MergeFromValues(rule, sorted[0], sorted[1..], a);
      MergeFromBounds(rule, sorted[0], sorted[1..], a);
    }
  }

  /** Inside sector 0 or inside sectors 4 to 7, the two ranges the safety
      filter lets through. */
  predicate InSafeRange(s: Segment) {
    || (0x0800_0000 <= s.address && End(s) <= 0x0800_4000)
    || (0x0801_0000 <= s.address && End(s) <= 0x0808_0000)
  }

  lemma SafeIff(s: Segment)
    ensures IsSafe(ToRaw(s)) <==> InSafeRange(s)
  {
    IsSafeIff(ToRaw(s));
  }

  lemma {:induction false} MergeFromSafe(rule: MergeRule, current: Segment, rest: seq<Segment>)
    requires Follows(current, rest) && InSafeRange(current)
    requires forall i :: 0 <= i < |rest| ==> InSafeRange(rest[i])
    ensures forall i :: 0 <= i < |MergeFrom(rule, current, rest)| ==> InSafeRange(MergeFrom(rule, current, rest)[i])
    decreases |rest|
  {
    if rest != [] {
      var next := rest[0];
      assert InSafeRange(next);
      if ShouldMerge(rule, current, next) {
        MergeFromSafe(rule, Combine(current, next), rest[1..]);
      } else {
        MergeFromSafe(rule, next, rest[1..]);
      }
    }
  }

  /** Two segments in different safe ranges are at least 48 KB apart, so
      they are never merged: merged segments stay as safe as their parts. */
  lemma MergeKeepsSafety(rule: MergeRule, sorted: seq<Segment>)
    requires SortedByAddress(sorted)
    requires forall i :: 0 <= i < |sorted| ==> IsSafe(ToRaw(sorted[i]))
    ensures forall i :: 0 <= i < |Merge(rule, sorted)| ==> IsSafe(ToRaw(Merge(rule, sorted)[i]))
  {
    forall i | 0 <= i < |sorted| ensures InSafeRange(sorted[i]) {
      SafeIff(sorted[i]);
    }
    if sorted != [] {
      MergeFromSafe(rule, sorted[0], sorted[1..]);
      forall i | 0 <= i < |Merge(rule, sorted)| ensures IsSafe(ToRaw(Merge(rule, sorted)[i])) {
        SafeIff(Merge(rule, sorted)[i]);
      }
    }
  }
}
