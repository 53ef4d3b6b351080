/** `_flashFirmwareHex` from end to end: parse the HEX text, keep the safe
    segments, sort and merge them, and flash the result. */
module FlashHex {
  import opened Wrappers
  import opened JsText
  import opened Dfu
  import opened Segments
  import opened SegmentMerge
  import opened FlashEngine
  import opened FlashImage
  import IntelHex

  /** The merged segments the flash loop receives, or the error thrown
      before the device is used. */
  function Prepare(rule: MergeRule, hexString: string): (r: Result<seq<Segment>, Error>)
    ensures r.Ok? ==> r.value != []
  {
    match IntelHex.ParseHex(hexString)
    case Err(e) => Err(HexRangeError(e.byteCount))
    case Ok(raw) =>
      var safe := FilterSafeSegments(raw);
      if safe == [] then Err(NoValidSegments)
      else
        SortSorts(safe);
        Ok(Merge(rule, SortByAddress(safe)))
  }

  /** The calls made and the result of flashing a HEX text. */
  function HexFlashRun(rule: MergeRule, hexString: string, base: nat, fails: set<nat>): Run {
    match Prepare(rule, hexString)
    case Err(e) => Run([], Fail(e))
    case Ok(ms) => FlashRun(ms, base, fails)
  }

  /** `_flashFirmwareHex(hexString)` */
  method FlashFirmwareHex(dev: Device, rule: MergeRule, hexString: string) returns (out: Outcome<Error>)
    modifies dev
    ensures var r := HexFlashRun(rule, hexString, |old(dev.log)|, dev.fails);
      dev.log == old(dev.log) + r.trace && out == r.outcome
  {
    var parsed := IntelHex.ParseIntelHex(hexString);
    if parsed.Err? {
      return Fail(HexRangeError(parsed.error.byteCount));
    }
    var safe := FilterSafeSegments(parsed.value);
    if |safe| == 0 {
      return Fail(NoValidSegments);
    }
    var sorted := SortByAddress(safe);
    SortSorts(safe);
    var merged := MergeSegments(rule, sorted);
    MergeIsSpaced(rule, sorted);
    var written;
    out, written := FlashSegments(dev, merged);
  }

  /** What the merged segments are: non-empty, safe, no two neighbours
      that the rule would merge, and holding every byte the sorted safe
      segments give a value. */
  lemma PreparedSegments(rule: MergeRule, hexString: string, x: int)
    requires Prepare(rule, hexString).Ok?
    ensures var ms := Prepare(rule, hexString).value;
      var sorted := SortByAddress(FilterSafeSegments(IntelHex.ParseHex(hexString).value));
      && ms != []
      && SortedByAddress(sorted)
      && ms == Merge(rule, sorted)
      && Apart(rule, ms)
      && (forall i :: 0 <= i < |ms| ==> InSafeRange(ms[i]))
      && (ValueAt(sorted, x).Some? ==> ValueAt(ms, x) == ValueAt(sorted, x))
  {
    var safe := FilterSafeSegments(IntelHex.ParseHex(hexString).value);
    var sorted := SortByAddress(safe);
    SortSorts(safe);
    SortPermutes(safe);
    MergeIsSpaced(rule, sorted);
    MergeValues(rule, sorted, x);
    forall i | 0 <= i < |sorted| ensures IsSafe(ToRaw(sorted[i])) {
      assert sorted[i] in multiset(safe);
    }
    MergeKeepsSafety(rule, sorted);
    var ms := Merge(rule, sorted);
    forall i | 0 <= i < |ms| ensures InSafeRange(ms[i]) {
      SafeIff(ms[i]);
    }
  }

  /** A HEX text whose parse fails, or none of whose segments is safe,
      makes no device call at all. */
  lemma RejectedHexMakesNoCall(rule: MergeRule, hexString: string, base: nat, fails: set<nat>)
    requires IntelHex.ParseHex(hexString).Err? ||
      FilterSafeSegments(IntelHex.ParseHex(hexString).value) == []
    ensures HexFlashRun(rule, hexString, base, fails).trace == []
    ensures HexFlashRun(rule, hexString, base, fails).outcome ==
      if IntelHex.ParseHex(hexString).Err?
      then Fail(HexRangeError(IntelHex.ParseHex(hexString).error.byteCount))
      else Fail(NoValidSegments)
  {
  }

  /** Whatever the HEX text and whichever calls throw, the calls made
      erase and write only inside sector 0 and sectors 4 to 7, wherever
      the address pointer stood before. */
  lemma HexFlashGuarded(rule: MergeRule, hexString: string, base: nat, fails: set<nat>, p: int)
    ensures Guarded(HexFlashRun(rule, hexString, base, fails).trace, p)
  {
    if Prepare(rule, hexString).Ok? {
      PreparedSegments(rule, hexString, 0);
      var ms := Prepare(rule, hexString).value;
      FlashRunFollowsPlan(ms, base, fails);
      PlanGuarded(ms, p);
      GuardedPrefix(FlashOps(ms), p, |FlashRun(ms, base, fails).trace|);
    }
  }

  /** So they never change a byte outside those sectors: the emulated
      EEPROM keeps its contents. */
  lemma HexFlashKeepsProtected(rule: MergeRule, hexString: string, base: nat, fails: set<nat>,
                               x: int, v: byte, p: int)
    requires Protected(x)
    ensures CellAfter(HexFlashRun(rule, hexString, base, fails).trace, x, v, p) == v
  {
    HexFlashGuarded(rule, hexString, base, fails, p);
    GuardedKeepsProtected(HexFlashRun(rule, hexString, base, fails).trace, x, v, p);
  }

  /** With the corrected merge rule, a flash that succeeds leaves every
      byte the sorted safe segments give a value at that value. */
  lemma HexFlashWritesImage(hexString: string, base: nat, fails: set<nat>, x: int, v: byte, p: int)
    requires HexFlashRun(SectorAware, hexString, base, fails).outcome.Pass?
    ensures var sorted := SortByAddress(FilterSafeSegments(IntelHex.ParseHex(hexString).value));
      ValueAt(sorted, x).Some? ==>
      CellAfter(HexFlashRun(SectorAware, hexString, base, fails).trace, x, v, p) == ValueAt(sorted, x).value
  {
    PreparedSegments(SectorAware, hexString, x);
    var ms := Prepare(SectorAware, hexString).value;
    FlashRunFollowsPlan(ms, base, fails);
    FlashOpsEffect(ms, x, v, p);
    FlashedSeparated(ms, x, v);
  }
}
