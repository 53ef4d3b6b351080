/** The safety filter of the firmware updater (`_filterSafeSegments`).

    A segment is kept only when all of it, from its first to its last
    byte, lies inside one of two hard-coded flash ranges: sector 0 (the
    vector table) and sectors 4 to 7 (the application). Everything else,
    the EEPROM-emulation sectors 1 to 3, system memory, option bytes and
    RAM included, is dropped whole; a segment that only partly overlaps a
    safe range is dropped, not cut. */
module Segments {
  import opened JsText
  import IntelHex

  /** A segment whose address is a number, as every segment that passes
      the filter is. */
  datatype Segment = Segment(address: int, data: seq<byte>)

  /** The address just past the segment's last byte. */
  function End(s: Segment): int {
    s.address + |s.data|
  }

  /** The segment as the reader produced it. */
  function ToRaw(s: Segment): IntelHex.RawSegment {
    IntelHex.RawSegment(Num(s.address), s.data)
  }

  function Raws(segs: seq<Segment>): (raws: seq<IntelHex.RawSegment>)
    ensures |raws| == |segs|
  {
    if segs == [] then [] else [ToRaw(segs[0])] + Raws(segs[1..])
  }

  /** A range of addresses with an inclusive end, as the filter writes it. */
  datatype Range = Range(start: int, end: int)

  const SectorZero := Range(0x0800_0000, 0x0800_3FFF)
  const Application := Range(0x0801_0000, 0x0807_FFFF)
  const SafeRanges := [SectorZero, Application]

  /** `segStart >= range.start && segEnd <= range.end`, where `segEnd` is
      `address + length - 1`; a NaN address fails every comparison. */
  predicate Within(s: IntelHex.RawSegment, r: Range) {
    s.address.Num? && s.address.value >= r.start && s.address.value + |s.data| - 1 <= r.end
  }

  /** The loop over the ranges: true as soon as one range holds the
      whole segment. */
  predicate FitsSomeRange(s: IntelHex.RawSegment, ranges: seq<Range>) {
    if ranges == [] then false
    else if Within(s, ranges[0]) then true
    else FitsSomeRange(s, ranges[1..])
  }

  predicate IsSafe(s: IntelHex.RawSegment) {
    FitsSomeRange(s, SafeRanges)
  }

  /** The safety test spelled out over the two ranges. */
  lemma IsSafeIff(s: IntelHex.RawSegment)
    ensures IsSafe(s) <==> (s.address.Num? &&
      ((0x0800_0000 <= s.address.value && s.address.value + |s.data| <= 0x0800_4000) ||
       (0x0801_0000 <= s.address.value && s.address.value + |s.data| <= 0x0808_0000)))
  {
    assert SafeRanges[0] == SectorZero && SafeRanges[1..] == [Application];
    assert [Application][0] == Application && [Application][1..] == [];
    assert FitsSomeRange(s, SafeRanges) == (Within(s, SectorZero) || FitsSomeRange(s, [Application]));
    assert FitsSomeRange(s, [Application]) == (Within(s, Application) || FitsSomeRange(s, []));
  }

  /** `segments.filter(...)`: the safe segments, in their original order. */
  function FilterSafeSegments(raw: seq<IntelHex.RawSegment>): (safe: seq<Segment>)
    ensures |safe| <= |raw|
    ensures forall i :: 0 <= i < |safe| ==> IsSafe(ToRaw(safe[i]))
    ensures forall i :: 0 <= i < |safe| ==> ToRaw(safe[i]) in raw
    ensures forall i :: 0 <= i < |raw| && IsSafe(raw[i]) ==> raw[i] in Raws(safe)
  {
    if raw == [] then []
    else
      var rest := FilterSafeSegments(raw[1..]);
      if IsSafe(raw[0]) then
        IsSafeIff(raw[0]);
        RawsConcat([Segment(raw[0].address.value, raw[0].data)], rest);
        [Segment(raw[0].address.value, raw[0].data)] + rest
      else rest
  }

  lemma RawsConcat(a: seq<Segment>, b: seq<Segment>)
    ensures Raws(a + b) == Raws(a) + Raws(b)
  {
    if a != [] {
      assert (a + b)[0] == a[0] && (a + b)[1..] == a[1..] + b;
      RawsConcat(a[1..], b);
      var h := [ToRaw(a[0])];
      assert Raws(a) == h + Raws(a[1..]);
      assert Raws(a + b) == h + (Raws(a[1..]) + Raws(b));
      assert h + (Raws(a[1..]) + Raws(b)) == (h + Raws(a[1..])) + Raws(b);
    } else {
      assert a + b == b;
    }
  }

  /** `a` is `b` with some elements left out, the rest kept in order. */
  predicate IsSubsequence<T(==)>(a: seq<T>, b: seq<T>)
    decreases |b|
  {
    if a == [] then true
    else if b == [] then false
    else if a[0] == b[0] then IsSubsequence(a[1..], b[1..])
    else IsSubsequence(a, b[1..])
  }

  /** The filter only leaves segments out: the ones it keeps come in the
      order the reader produced them. */
  lemma {:induction false} FilterKeepsOrder(raw: seq<IntelHex.RawSegment>)
    ensures IsSubsequence(Raws(FilterSafeSegments(raw)), raw)
  {
    if raw != [] {
      FilterKeepsOrder(raw[1..]);
      var rest := FilterSafeSegments(raw[1..]);
      if IsSafe(raw[0]) {
        IsSafeIff(raw[0]);
        var s := Segment(raw[0].address.value, raw[0].data);
        RawsConcat([s], rest);
        assert Raws([s] + rest)[1..] == Raws(rest);
      } else {
        var out := Raws(rest);
        assert out != [] ==> out[0] == ToRaw(rest[0]) && IsSafe(out[0]) && out[0] != raw[0];
      }
    }
  }

  /** The filter keeps each safe segment exactly as often as the reader
      produced it, and no unsafe one. With FilterKeepsOrder this pins the
      result down: the safe segments of the input, in input order. */
  lemma {:induction false} FilterCounts(raw: seq<IntelHex.RawSegment>, r: IntelHex.RawSegment)
    ensures multiset(Raws(FilterSafeSegments(raw)))[r] == if IsSafe(r) then multiset(raw)[r] else 0
  {
    if raw != [] {
      FilterCounts(raw[1..], r);
      assert raw == [raw[0]] + raw[1..];
      var rest := FilterSafeSegments(raw[1..]);
      if IsSafe(raw[0]) {
        IsSafeIff(raw[0]);
        var s := Segment(raw[0].address.value, raw[0].data);
        RawsConcat([s], rest);
        assert Raws([s] + rest) == [raw[0]] + Raws(rest);
      }
    }
  }

  /** No byte of a kept segment lands outside flash or in the EEPROM
      sectors 1 to 3 (0x08004000 up to 0x08010000). */
  lemma FilteredAvoidsEeprom(raw: seq<IntelHex.RawSegment>, i: nat, a: int)
    requires i < |FilterSafeSegments(raw)|
    requires var s := FilterSafeSegments(raw)[i]; s.address <= a < End(s)
    ensures 0x0800_0000 <= a < 0x0808_0000
    ensures !(0x0800_4000 <= a < 0x0801_0000)
  {
    IsSafeIff(ToRaw(FilterSafeSegments(raw)[i]));
  }
}
