/** The flash layout of the STM32F446 as the updater configures it when the
    bootloader does not describe its own memory: eight sectors, four of
    16 KB, one of 64 KB and three of 128 KB, from 0x08000000 to 0x08080000.
    Sectors 1 to 3 (0x08004000 up to 0x08010000) hold the emulated EEPROM. */
module FlashLayout {
  import opened Wrappers

  /** One entry of `memoryInfo.segments`: `[start, end)` cut into sectors
      of `sectorSize` bytes. */
  datatype MemorySegment = MemorySegment(start: int, sectorSize: int, end: int)

  const DefaultMemoryMap: seq<MemorySegment> := [
    MemorySegment(0x0800_0000, 16384, 0x0800_4000),
    MemorySegment(0x0800_4000, 16384, 0x0800_8000),
    MemorySegment(0x0800_8000, 16384, 0x0800_C000),
    MemorySegment(0x0800_C000, 16384, 0x0801_0000),
    MemorySegment(0x0801_0000, 65536, 0x0802_0000),
    MemorySegment(0x0802_0000, 131072, 0x0804_0000),
    MemorySegment(0x0804_0000, 131072, 0x0806_0000),
    MemorySegment(0x0806_0000, 131072, 0x0808_0000)
  ]

  const FlashStart := 0x0800_0000
  const FlashEnd := 0x0808_0000
  /** The emulated EEPROM: sectors 1 to 3. */
  const EepromStart := 0x0800_4000
  const EepromEnd := 0x0801_0000

  /** The memory segment that holds address `a`, if any. */
  function FindSegment(segs: seq<MemorySegment>, a: int): (r: Option<MemorySegment>)
    ensures r.Some? ==> r.value in segs && r.value.start <= a < r.value.end
  {
    if segs == [] then None
    else if segs[0].start <= a < segs[0].end then Some(segs[0])
    else FindSegment(segs[1..], a)
  }

  predicate InFlash(a: int) {
    FindSegment(DefaultMemoryMap, a).Some?
  }

  /** The first address of the sector that holds `a`. */
  function SectorStart(a: int): int
    requires InFlash(a)
  {
    var seg := FindSegment(DefaultMemoryMap, a).value;
    seg.start + (a - seg.start) / seg.sectorSize * seg.sectorSize
  }

  /** The address just past the sector that holds `a`. */
  function SectorEnd(a: int): int
    requires InFlash(a)
  {
    var seg := FindSegment(DefaultMemoryMap, a).value;
    SectorStart(a) + seg.sectorSize
  }

  /** The lookup over the default map, written out. */
  lemma FindDefault(a: int)
    ensures FindSegment(DefaultMemoryMap, a) ==
      if a < 0x0800_0000 || 0x0808_0000 <= a then None
      else if a < 0x0800_4000 then Some(DefaultMemoryMap[0])
      else if a < 0x0800_8000 then Some(DefaultMemoryMap[1])
      else if a < 0x0800_C000 then Some(DefaultMemoryMap[2])
      else if a < 0x0801_0000 then Some(DefaultMemoryMap[3])
      else if a < 0x0802_0000 then Some(DefaultMemoryMap[4])
      else if a < 0x0804_0000 then Some(DefaultMemoryMap[5])
      else if a < 0x0806_0000 then Some(DefaultMemoryMap[6])
      else Some(DefaultMemoryMap[7])
  {
    var m := DefaultMemoryMap;
    assert FindSegment(m, a) == if m[0].start <= a < m[0].end then Some(m[0]) else FindSegment(m[1..], a);
    var m1 := m[1..];
    assert FindSegment(m1, a) == if m1[0].start <= a < m1[0].end then Some(m1[0]) else FindSegment(m1[1..], a);
    var m2 := m1[1..];
    assert FindSegment(m2, a) == if m2[0].start <= a < m2[0].end then Some(m2[0]) else FindSegment(m2[1..], a);
    var m3 := m2[1..];
    assert FindSegment(m3, a) == if m3[0].start <= a < m3[0].end then Some(m3[0]) else FindSegment(m3[1..], a);
    var m4 := m3[1..];
    assert FindSegment(m4, a) == if m4[0].start <= a < m4[0].end then Some(m4[0]) else FindSegment(m4[1..], a);
    var m5 := m4[1..];
    assert FindSegment(m5, a) == if m5[0].start <= a < m5[0].end then Some(m5[0]) else FindSegment(m5[1..], a);
    var m6 := m5[1..];
    assert FindSegment(m6, a) == if m6[0].start <= a < m6[0].end then Some(m6[0]) else FindSegment(m6[1..], a);
    var m7 := m6[1..];
    assert FindSegment(m7, a) == if m7[0].start <= a < m7[0].end then Some(m7[0]) else FindSegment(m7[1..], a);
    assert m7[1..] == [];
  }

  lemma DivisionBelowDivisor(x: int, n: int)
    requires 0 <= x < n
    ensures x / n == 0
  {
  }

  /** Each memory segment of the default map is a single sector, so the
      sector of an address is the segment that holds it. */
  lemma SectorOf(a: int)
    ensures InFlash(a) <==> FlashStart <= a < FlashEnd
    ensures InFlash(a) ==>
      (SectorStart(a), SectorEnd(a)) ==
        if a < 0x0800_4000 then (0x0800_0000, 0x0800_4000)
        else if a < 0x0800_8000 then (0x0800_4000, 0x0800_8000)
        else if a < 0x0800_C000 then (0x0800_8000, 0x0800_C000)
        else if a < 0x0801_0000 then (0x0800_C000, 0x0801_0000)
        else if a < 0x0802_0000 then (0x0801_0000, 0x0802_0000)
        else if a < 0x0804_0000 then (0x0802_0000, 0x0804_0000)
        else if a < 0x0806_0000 then (0x0804_0000, 0x0806_0000)
        else (0x0806_0000, 0x0808_0000)
  {
    FindDefault(a);
    if InFlash(a) {
      SectorIsSegment(a);
    }
  }

  lemma SectorIsSegment(a: int)
    requires InFlash(a)
    ensures var seg := FindSegment(DefaultMemoryMap, a).value;
      SectorStart(a) == seg.start && SectorEnd(a) == seg.start + seg.sectorSize
  {
    FindDefault(a);
    var seg := FindSegment(DefaultMemoryMap, a).value;
    DivisionBelowDivisor(a - seg.start, seg.sectorSize);
    var q := (a - seg.start) / seg.sectorSize;
    assert q * seg.sectorSize == 0;
  }

  /** The sector of an address lies around it. */
  lemma SectorAround(a: int)
    requires InFlash(a)
    ensures SectorStart(a) <= a < SectorEnd(a)
    ensures FlashStart <= SectorStart(a) && SectorEnd(a) <= FlashEnd
  {
    SectorOf(a);
  }

  /** Sectors come in address order. */
  lemma SectorsMonotone(a: int, b: int)
    requires InFlash(a) && InFlash(b) && a <= b
    ensures SectorStart(a) <= SectorStart(b)
    ensures SectorEnd(a) <= SectorEnd(b)
    ensures SectorEnd(a) <= b || SectorStart(a) == SectorStart(b)
  {
    SectorOf(a);
    SectorOf(b);
  }

  /** No sector straddles the borders of the emulated EEPROM: a sector
      either lies inside it or ends before it or starts after it. */
  lemma SectorsRespectEeprom(a: int)
    requires InFlash(a)
    ensures EepromStart <= a < EepromEnd ==>
      EepromStart <= SectorStart(a) && SectorEnd(a) <= EepromEnd
    ensures a < EepromStart ==> SectorEnd(a) <= EepromStart
    ensures EepromEnd <= a ==> EepromEnd <= SectorStart(a)
  {
    SectorOf(a);
  }
}
