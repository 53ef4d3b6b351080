/** The update state machine of the firmware updater (`performUpdate`)
    and the device handling around the flash: connecting to the
    bootloader and bringing it to dfuIDLE, leaving DFU mode, and the
    best-effort recovery after an error. */
module Updater {
  import opened Wrappers
  import opened JsText
  import opened Dfu
  import opened SegmentMerge
  import opened FlashEngine
  import opened FlashHex
  import opened Segments
  import opened FlashImage
  import IntelHex
  import HexText

  /** The values of `updateState`. */
  datatype UpdateState =
    | Idle | CheckingVersion | Downloading | WaitingDfu | EnteringDfu
    | ConnectingDfu | Flashing | Rebooting | Complete | Error

  /** The fields of `updateInfo` that `performUpdate` reads. */
  datatype UpdateInfo = UpdateInfo(
    isLocalFile: bool,
    firmwareData: Option<string>,
    fileName: Option<string>,
    downloadUrl: Option<string>)

  // -----------------------------------------------------------------------
  // Call sequences

  /** The calls of `plan` that are made when the calls numbered from
      `base` on throw as `fails` says: all of them, or those up to and
      including the first that throws. */
  function Cut(plan: seq<Op>, base: nat, fails: set<nat>): (trace: seq<Op>)
    ensures |trace| <= |plan| && trace == plan[..|trace|]
  {
    var i := FirstFailure(plan, base, fails);
    if i < |plan| then plan[..i + 1] else plan
  }

  /** `getState()`, then `clearStatus()` if the state read was dfuERROR,
      then `abort()` if it was not dfuIDLE. */
  function NormaliseOps(s: DfuState): seq<Op> {
    [GetState] + (if s == DfuError then [ClearStatus] else []) + (if s != DfuIdle then [Abort] else [])
  }

  /** `open()` and the state normalisation. */
  function ConnectOps(s: DfuState): seq<Op> {
    [Open] + NormaliseOps(s)
  }

  /** `getStatus()`, `clearStatus()` if dfuERROR, `abort()`, `close()`. */
  function RecoverOps(s: DfuState): seq<Op> {
    [GetStatus] + (if s == DfuError then [ClearStatus] else []) + [Abort, Close]
  }

  /** The state the device reports after `ops`, each of them succeeding. */
  function StateAfter(ops: seq<Op>, s: DfuState): DfuState {
    if ops == [] then s else StateAfter(ops[1..], After(ops[0], s))
  }

  lemma {:induction false} StateAfterConcat(a: seq<Op>, b: seq<Op>, s: DfuState)
    ensures StateAfter(a + b, s) == StateAfter(b, StateAfter(a, s))
  {
    if a == [] {
      assert a + b == b;
    } else {
      assert (a + b)[0] == a[0] && (a + b)[1..] == a[1..] + b;
      StateAfterConcat(a[1..], b, After(a[0], s));
    }
  }

  /** Whatever state the bootloader is found in, the normalisation leaves
      it in dfuIDLE when no call throws; one found in dfuIDLE is only
      asked for its state. */
  lemma NormaliseReachesIdle(s: DfuState)
    ensures StateAfter(ConnectOps(s), s) == DfuIdle
    ensures s == DfuIdle ==> NormaliseOps(s) == [GetState]
  {
    var clear: seq<Op> := if s == DfuError then [ClearStatus] else [];
    var abort: seq<Op> := if s != DfuIdle then [Abort] else [];
    StateAfterConcat([Open, GetState], clear + abort, s);
    StateAfterConcat(clear, abort, StateAfter([Open, GetState], s));
    assert ConnectOps(s) == [Open, GetState] + (clear + abort);
  }

  /** The recovery leaves the bootloader in dfuIDLE before it closes it. */
  lemma RecoverReachesIdle(s: DfuState)
    ensures StateAfter(RecoverOps(s), s) == DfuIdle
  {
    var clear: seq<Op> := if s == DfuError then [ClearStatus] else [];
    StateAfterConcat([GetStatus] + clear, [Abort, Close], s);
    assert RecoverOps(s) == ([GetStatus] + clear) + [Abort, Close];
    assert StateAfter([Close], DfuIdle) == DfuIdle;
  }

  lemma AppendAssoc<T>(a: seq<T>, b: seq<T>, c: seq<T>)
    ensures (a + b) + c == a + (b + c)
  {
  }

  lemma Regroup(t: seq<UpdateState>, a: UpdateState, b: UpdateState, x: seq<UpdateState>, y: seq<UpdateState>)
    ensures t + [a] + [b] + x + y == t + ([a, b] + x + y)
  {
  }

  /** Calls that neither erase nor download. */
  predicate NoWrites(ops: seq<Op>) {
    forall i :: 0 <= i < |ops| ==> !ops[i].Erase? && !ops[i].Download?
  }

  lemma {:induction false} NoWritesGuarded(ops: seq<Op>, p: int)
    requires NoWrites(ops)
    ensures Guarded(ops, p)
  {
    if ops != [] {
      NoWritesGuarded(ops[1..], NextPointer(ops[0], p));
    }
  }

  /** The calls appended to `log` from position `k` on erase and write only
      inside sector 0 and sectors 4 to 7, wherever the address pointer stood. */
  ghost predicate GuardedFrom(log: seq<Op>, k: nat) {
    k <= |log| && forall p :: Guarded(log[k..], p)
  }

  lemma GuardedFromExtend(log: seq<Op>, k: nat, more: seq<Op>)
    requires GuardedFrom(log, k)
    requires forall p :: Guarded(more, p)
    ensures GuardedFrom(log + more, k)
  {
    forall p ensures Guarded((log + more)[k..], p) {
      assert (log + more)[k..] == log[k..] + more;
      GuardedConcat(log[k..], more, p);
    }
  }

  lemma GuardedFromChain(log: seq<Op>, k: nat, longer: seq<Op>)
    requires GuardedFrom(log, k) && |log| <= |longer| && longer[..|log|] == log
    requires GuardedFrom(longer, |log|)
    ensures GuardedFrom(longer, k)
  {
    assert longer == log + longer[|log|..];
    GuardedFromExtend(log, k, longer[|log|..]);
  }

  lemma GuardedFromAppend(log: seq<Op>, more: seq<Op>)
    requires forall p :: Guarded(more, p)
    ensures GuardedFrom(log + more, |log|)
  {
    assert (log + more)[|log|..] == more;
  }

  /** A prefix of calls that neither erase nor download does neither. */
  lemma CutNoWrites(plan: seq<Op>, base: nat, fails: set<nat>)
    requires NoWrites(plan)
    ensures NoWrites(Cut(plan, base, fails))
  {
  }

  /** Connecting and recovering neither erase nor write the flash. */
  lemma SessionCallsNoWrites(s: DfuState, base: nat, fails: set<nat>)
    ensures NoWrites(Cut(ConnectOps(s), base, fails))
    ensures NoWrites(Cut(RecoverOps(s), base, fails))
  {
    CutNoWrites(ConnectOps(s), base, fails);
    CutNoWrites(RecoverOps(s), base, fails);
  }

  lemma GuardedFromNoWrites(log: seq<Op>, more: seq<Op>)
    requires NoWrites(more)
    ensures GuardedFrom(log + more, |log|)
  {
    forall p ensures Guarded(more, p) {
      NoWritesGuarded(more, p);
    }
    GuardedFromAppend(log, more);
  }

  /** The flash of a HEX text erases and writes only inside the sectors
      the updater may touch. */
  lemma GuardedFromFlash(rule: MergeRule, log: seq<Op>, text: string, fails: set<nat>)
    ensures GuardedFrom(log + HexFlashRun(rule, text, |log|, fails).trace, |log|)
  {
    forall p ensures Guarded(HexFlashRun(rule, text, |log|, fails).trace, p) {
      HexFlashGuarded(rule, text, |log|, fails, p);
    }
    GuardedFromAppend(log, HexFlashRun(rule, text, |log|, fails).trace);
  }

  // -----------------------------------------------------------------------
  // What performUpdate throws

  /** `updateInfo.isLocalFile && updateInfo.firmwareData` */
  predicate LocalPath(info: UpdateInfo) {
    info.isLocalFile && Truthy(info.firmwareData)
  }

  /** The firmware text, or the error thrown before DFU mode is entered:
      a local file must be named `.hex` when it is named at all, and a
      download URL must end in `.hex`. `downloaded` is what
      `_downloadFirmwareText` returns, None when it throws. */
  function FetchFirmware(info: UpdateInfo, downloaded: Option<string>): Result<string, Error> {
    if LocalPath(info) then
      if Truthy(info.fileName) && !EndsWith(ToLowerAscii(info.fileName.value), ".hex") then Err(NotHexFile)
      else Ok(info.firmwareData.value)
    else if info.downloadUrl.None? then Err(TypeError)
    else if !EndsWith(ToLowerAscii(info.downloadUrl.value), ".hex") then Err(NotHexUrl)
    else if downloaded.None? then Err(DownloadFailed)
    else Ok(downloaded.value)
  }

  /** The number of the first call of the flash: the calls of the
      connection come before it. */
  function FlashBase(state: DfuState, base: nat, fails: set<nat>): nat {
    base + |Cut(ConnectOps(state), base, fails)|
  }

  /** The result of connecting and flashing `text`, the segments merged
      by `rule`. `present` says whether a bootloader with a DFU interface
      was found; it reports `state` and its calls are numbered from `base`
      on. Errors of the state normalisation are ignored; only `open()` can
      fail the connection. */
  function SessionOutcome(rule: MergeRule, text: string, present: bool, state: DfuState,
                          base: nat, fails: set<nat>): Outcome<Error> {
    if !present then Fail(ConnectionFailed(NoDfuInterface))
    else if base in fails then Fail(ConnectionFailed(CallFailed(base)))
    else HexFlashRun(rule, text, FlashBase(state, base, fails), fails).outcome
  }

  /** When `open()` throws, the session fails with a connection error. */
  lemma SessionConnectFails(rule: MergeRule, text: string, s: DfuState, base: nat, fails: set<nat>)
    requires base in fails
    ensures SessionOutcome(rule, text, true, s, base, fails) == Fail(ConnectionFailed(CallFailed(base)))
  {
  }

  /** The result of an update. */
  function UpdateOutcome(rule: MergeRule, info: UpdateInfo, downloaded: Option<string>,
                         present: bool, state: DfuState, base: nat, fails: set<nat>): Outcome<Error> {
    match FetchFirmware(info, downloaded)
    case Err(e) => Fail(e)
    case Ok(text) => SessionOutcome(rule, text, present, state, base, fails)
  }

  /** A fetched text goes on to the session. */
  lemma FetchedSession(rule: MergeRule, info: UpdateInfo, downloaded: Option<string>, text: string,
                       present: bool, s: DfuState, base: nat, fails: set<nat>)
    requires FetchFirmware(info, downloaded) == Ok(text)
    ensures UpdateOutcome(rule, info, downloaded, present, s, base, fails) ==
      SessionOutcome(rule, text, present, s, base, fails)
  {
  }

  /** A fetch error is the update's error. */
  lemma FetchFails(rule: MergeRule, info: UpdateInfo, downloaded: Option<string>,
                   present: bool, s: DfuState, base: nat, fails: set<nat>)
    requires FetchFirmware(info, downloaded).Err?
    ensures UpdateOutcome(rule, info, downloaded, present, s, base, fails) ==
      Fail(FetchFirmware(info, downloaded).error)
  {
  }

  /** The errors the flash of a HEX text throws. */
  predicate FlashError(e: Error) {
    e.HexRangeError? || e.NoValidSegments? || e.CallFailed? || e.ManifestationFailed?
  }

  lemma HexFlashErrors(rule: MergeRule, text: string, base: nat, fails: set<nat>)
    ensures var out := HexFlashRun(rule, text, base, fails).outcome;
      out.Fail? ==> FlashError(out.error)
  {
  }

  /** The calls made on the bootloader from the connection to the end of
      the flash, for the HEX text `text`: `open()` alone when it throws,
      since the flash is then never reached. */
  function UpdateCalls(rule: MergeRule, text: string, state: DfuState, base: nat, fails: set<nat>): seq<Op> {
    Cut(ConnectOps(state), base, fails)
      + (if base in fails then [] else HexFlashRun(rule, text, FlashBase(state, base, fails), fails).trace)
  }

  /** Every call the `try` block of an update makes on the bootloader:
      none when the fetch fails, otherwise the calls of the connection
      and the flash, and `close()` when they succeed. */
  function AttemptCalls(rule: MergeRule, info: UpdateInfo, downloaded: Option<string>,
                        state: DfuState, base: nat, fails: set<nat>): seq<Op> {
    match FetchFirmware(info, downloaded)
    case Err(_) => []
    case Ok(text) =>
      UpdateCalls(rule, text, state, base, fails)
        + (if SessionOutcome(rule, text, true, state, base, fails).Pass? then [Close] else [])
  }

  /** The device held once `close()`, the last of `calls` calls made on
      it, has returned: it is forgotten unless that call threw. */
  function KeptAfterClose(device: Device, calls: nat): Device? {
    if calls > 0 && calls - 1 in device.fails then device else null
  }

  /** `after` is `before` followed by the calls of the recovery, from
      whatever state the device was left in, up to the first that throws;
      `released` says whether the device was then forgotten, which it is
      exactly when none threw. */
  ghost predicate RecoveredAfter(before: seq<Op>, after: seq<Op>, fails: set<nat>, released: bool) {
    && |before| <= |after| && after[..|before|] == before
    && exists s: DfuState :: after[|before|..] == Cut(RecoverOps(s), |before|, fails)
         && (released <==> Clean(RecoverOps(s), |before|, fails))
  }

  lemma Recovered(before: seq<Op>, s: DfuState, fails: set<nat>)
    ensures var after := before + Cut(RecoverOps(s), |before|, fails);
      RecoveredAfter(before, after, fails, Clean(RecoverOps(s), |before|, fails))
      && GuardedFrom(after, |before|)
  {
    var after := before + Cut(RecoverOps(s), |before|, fails);
    assert after[..|before|] == before && after[|before|..] == Cut(RecoverOps(s), |before|, fails);
    SessionCallsNoWrites(s, |before|, fails);
    GuardedFromNoWrites(before, Cut(RecoverOps(s), |before|, fails));
  }

  /** The states `performUpdate` passes through when nothing throws. */
  function Progression(info: UpdateInfo, manual: bool): seq<UpdateState> {
    (if LocalPath(info) then [] else [Downloading])
      + [if manual then WaitingDfu else EnteringDfu, ConnectingDfu, Flashing, Rebooting, Complete]
  }

  /** How many states of the progression were set before `e` was thrown:
      a connection error comes after WAITING_DFU or ENTERING_DFU and
      CONNECTING_DFU, a flash error after FLASHING too, and any other
      error while the firmware is fetched. */
  function StagesBefore(info: UpdateInfo, e: Error): nat {
    var fetched := if LocalPath(info) then 0 else 1;
    if e.ConnectionFailed? then fetched + 2
    else if FlashError(e) then fetched + 3
    else fetched
  }

  /** The states set inside the `try` of an update with the given result:
      the whole progression, or the part of it before the error. */
  function StatesReached(info: UpdateInfo, manual: bool, out: Outcome<Error>): seq<UpdateState> {
    var states := Progression(info, manual);
    match out
    case Pass => states
    case Fail(e) => states[..Min(StagesBefore(info, e), |states|)]
  }

  /** All the states set during an update: after a failure, the `catch`
      sets ERROR. */
  function StatesVisited(info: UpdateInfo, manual: bool, out: Outcome<Error>): seq<UpdateState> {
    StatesReached(info, manual, out) + (if out.Fail? then [Error] else [])
  }

  /** The states set from entering DFU mode on. */
  function SessionStates(manual: bool, out: Outcome<Error>): seq<UpdateState> {
    [if manual then WaitingDfu else EnteringDfu, ConnectingDfu]
      + (if out.Fail? && out.error.ConnectionFailed? then [] else [Flashing])
      + (if out.Pass? then [Rebooting, Complete] else [])
  }

  /** A fetch error is thrown after DOWNLOADING, if set, and nothing more. */
  lemma FetchStates(info: UpdateInfo, manual: bool, downloaded: Option<string>)
    requires FetchFirmware(info, downloaded).Err?
    ensures StatesReached(info, manual, Fail(FetchFirmware(info, downloaded).error)) ==
      if LocalPath(info) then [] else [Downloading]
  {
  }

  /** After the fetch, the states are those of the session. */
  lemma StatesReachedSplit(info: UpdateInfo, manual: bool, out: Outcome<Error>)
    requires out.Fail? ==> out.error.ConnectionFailed? || FlashError(out.error)
    ensures StatesReached(info, manual, out) ==
      (if LocalPath(info) then [] else [Downloading]) + SessionStates(manual, out)
  {
  }

  /** An update either completes, having passed through every state of the
      progression in order, or ends in ERROR after a prefix of it that
      stops before COMPLETE. */
  lemma StatesVisitedShape(info: UpdateInfo, manual: bool, out: Outcome<Error>)
    ensures var v := StatesVisited(info, manual, out);
      && v != []
      && (v[|v| - 1] == Complete <==> out.Pass?)
      && (v[|v| - 1] == Error <==> out.Fail?)
      && (out.Fail? ==> v[..|v| - 1] == Progression(info, manual)[..|v| - 1] && Complete !in v)
  {
    var states := Progression(info, manual);
    assert Complete !in states[..|states| - 1];
    if out.Fail? {
      var n := Min(StagesBefore(info, out.error), |states|);
      assert n < |states| by {
        assert StagesBefore(info, out.error) <= |states| - 2;
      }
      assert states[..n] == states[..|states| - 1][..n];
    }
  }

  // -----------------------------------------------------------------------
  // The updater object

  class FirmwareUpdater {
    var updateState: UpdateState
    var dfuDevice: Device?
    /** Every value `updateState` has been given, in order. */
    ghost var trail: seq<UpdateState>

    constructor()
      ensures updateState == Idle && dfuDevice == null && trail == []
    {
      updateState := Idle;
      dfuDevice := null;
      trail := [];
    }

    method SetState(s: UpdateState)
      modifies this
      ensures updateState == s && trail == old(trail) + [s] && dfuDevice == old(dfuDevice)
    {
      updateState := s;
      trail := trail + [s];
    }

    /** `_connectDFU()`: `device` is the bootloader found over USB, null
        when none with a DFU interface is found. Errors of the state
        normalisation are caught and ignored; an error of `open()` is
        rethrown as a connection error. */
    method ConnectDfu(device: Device?) returns (out: Outcome<Error>)
      modifies this, device
      ensures updateState == old(updateState) && trail == old(trail)
      ensures device == null ==> out == Fail(ConnectionFailed(NoDfuInterface)) && dfuDevice == old(dfuDevice)
      ensures device != null ==> dfuDevice == device
      ensures device != null ==>
        device.log == old(device.log) + Cut(ConnectOps(old(device.state)), |old(device.log)|, device.fails)
      ensures device != null ==>
        out == (if |old(device.log)| in device.fails then Fail(ConnectionFailed(CallFailed(|old(device.log)|))) else Pass)
      ensures device != null && Clean(ConnectOps(old(device.state)), |old(device.log)|, device.fails) ==>
        device.state == DfuIdle
    {
      if device == null {
        return Fail(ConnectionFailed(NoDfuInterface));
      }
      dfuDevice := device;
      ghost var base := |device.log|;
      ghost var s := device.state;
      var ok := device.Call(Open);
      ConnectSplits(s, base, device.fails);
      if !ok {
        return Fail(ConnectionFailed(CallFailed(|device.log| - 1)));
      }
      NormaliseState(device);
      out := Pass;
    }

    /** The inner `try` of `_connectDFU()`: read the state, clear an error
        state, abort unless idle; an error ends it and is ignored. */
    method NormaliseState(device: Device)
      modifies device
      ensures device.log == old(device.log) + Cut(NormaliseOps(old(device.state)), |old(device.log)|, device.fails)
      ensures Clean(NormaliseOps(old(device.state)), |old(device.log)|, device.fails) ==> device.state == DfuIdle
    {
      ghost var base := |device.log|;
      ghost var plan := NormaliseOps(device.state);
      ghost var start := device.log;
      var state := device.ReadState();
      Step(plan, base, device.fails, 0);
      assert plan[..1] == [GetState];
      if state.None? {
        return;
      }
      ghost var n := 1;
      if state.value == DfuError {
        var ok := device.Call(ClearStatus);
        Step(plan, base, device.fails, 1);
        assert plan[..2] == [GetState, ClearStatus];
        n := 2;
        if !ok {
          return;
        }
      }
      assert device.log == start + plan[..n];
      if state.value != DfuIdle {
        var ok := device.Call(Abort);
        Step(plan, base, device.fails, n);
        assert plan[..n + 1] == plan[..n] + [Abort];
        n := n + 1;
        if !ok {
          return;
        }
      }
      assert plan[..n] == plan;
    }

    /** `_leaveDFUMode()`: close the device and forget it; an error of
        `close()` is caught, and the device is then kept. */
    method LeaveDfuMode()
      modifies this, dfuDevice
      ensures updateState == old(updateState) && trail == old(trail)
      ensures old(dfuDevice) == null ==> dfuDevice == null
      ensures old(dfuDevice) != null ==>
        && old(dfuDevice).log == old(dfuDevice.log) + [Close]
        && dfuDevice == (if |old(dfuDevice.log)| in old(dfuDevice).fails then old(dfuDevice) else null)
    {
      if dfuDevice != null {
        var ok := dfuDevice.Call(Close);
        if ok {
          dfuDevice := null;
        }
      }
    }

    /** `_recoverFromError()`: bring the device back to dfuIDLE, close it
        and forget it. Every error is caught and ends the recovery; with
        no device the first call throws and nothing happens. */
    method RecoverFromError()
      modifies this, dfuDevice
      ensures updateState == old(updateState) && trail == old(trail)
      ensures old(dfuDevice) == null ==> dfuDevice == null
      ensures old(dfuDevice) != null ==>
        var d := old(dfuDevice);
        && d.log == old(d.log) + Cut(RecoverOps(old(d.state)), |old(d.log)|, d.fails)
        && dfuDevice == (if Clean(RecoverOps(old(d.state)), |old(d.log)|, d.fails) then null else d)
    {
      if dfuDevice == null {
        return;
      }
      var ok := RecoverCalls(dfuDevice);
      if ok {
        dfuDevice := null;
      }
    }

    /** The calls of the recovery; `ok` is false when one of them threw. */
    method RecoverCalls(d: Device) returns (ok: bool)
      modifies d
      ensures d.log == old(d.log) + Cut(RecoverOps(old(d.state)), |old(d.log)|, d.fails)
      ensures ok <==> Clean(RecoverOps(old(d.state)), |old(d.log)|, d.fails)
    {
      ghost var base := |d.log|;
      ghost var plan := RecoverOps(d.state);
      ghost var start := d.log;
      var status := d.ReadStatus();
      Step(plan, base, d.fails, 0);
      assert plan[..1] == [GetStatus];
      if status.None? {
        return false;
      }
      ghost var n := 1;
      assert |plan| == (if status.value == DfuError then 4 else 3);
      if status.value == DfuError {
        ok := d.Call(ClearStatus);
        Step(plan, base, d.fails, 1);
        assert plan[..2] == [GetStatus, ClearStatus];
        n := 2;
        if !ok {
          return;
        }
      }
      assert d.log == start + plan[..n];
      ok := d.Call(Abort);
      Step(plan, base, d.fails, n);
      assert plan[..n + 1] == plan[..n] + [Abort];
      if !ok {
        return;
      }
      ok := d.Call(Close);
      Step(plan, base, d.fails, n + 1);
      assert plan[..n + 2] == plan[..n + 1] + [Close];
      assert |plan| == n + 2 && plan[..n + 2] == plan;
    }

    /** Step 1 of `performUpdate`: the firmware text of a local file, or
        the download, which first sets DOWNLOADING. */
    method Fetch(info: UpdateInfo, downloaded: Option<string>) returns (r: Result<string, Error>)
      modifies this
      ensures r == FetchFirmware(info, downloaded)
      ensures trail == old(trail) + (if LocalPath(info) then [] else [Downloading])
      ensures dfuDevice == old(dfuDevice)
    {
      if LocalPath(info) {
        if Truthy(info.fileName) && !EndsWith(ToLowerAscii(info.fileName.value), ".hex") {
          return Err(NotHexFile);
        }
        return Ok(info.firmwareData.value);
      }
      SetState(Downloading);
      if info.downloadUrl.None? {
        return Err(TypeError);
      }
      if !EndsWith(ToLowerAscii(info.downloadUrl.value), ".hex") {
        return Err(NotHexUrl);
      }
      if downloaded.None? {
        return Err(DownloadFailed);
      }
      return Ok(downloaded.value);
    }

    /** Steps 4 and 5 of `performUpdate`: connect to the bootloader and
        flash `text`, the segments merged by `rule`. */
    method ConnectAndFlash(device: Device?, rule: MergeRule, text: string) returns (out: Outcome<Error>)
      modifies this, device
      ensures device == null ==> out == SessionOutcome(rule, text, false, DfuIdle, 0, {})
      ensures device != null ==>
        out == SessionOutcome(rule, text, true, old(device.state), |old(device.log)|, device.fails)
      ensures trail == old(trail) + [ConnectingDfu] + (if out.Fail? && out.error.ConnectionFailed? then [] else [Flashing])
      ensures out.Fail? ==> out.error.ConnectionFailed? || FlashError(out.error)
      ensures dfuDevice == if device == null then old(dfuDevice) else device
      ensures device != null ==>
        device.log == old(device.log) + UpdateCalls(rule, text, old(device.state), |old(device.log)|, device.fails)
      ensures device != null ==> GuardedFrom(device.log, |old(device.log)|)
    {
      ghost var base := if device != null then |device.log| else 0;
      ghost var s0 := if device != null then device.state else DfuIdle;
      SetState(ConnectingDfu);
      out := ConnectDfu(device);
      if device == null {
        return;
      }
      ghost var connect := Cut(ConnectOps(s0), base, device.fails);
      ghost var mid := device.log;
      SessionCallsNoWrites(s0, base, device.fails);
      GuardedFromNoWrites(old(device.log), connect);
      if out.Fail? {
        SessionConnectFails(rule, text, s0, base, device.fails);
        assert connect + [] == connect;
        return;
      }
      ghost var n := FlashBase(s0, base, device.fails);
      out := FlashConnected(device, rule, text, n);
      ghost var trace := HexFlashRun(rule, text, n, device.fails).trace;
      GuardedFromChain(mid, base, device.log);
      AppendAssoc(old(device.log), connect, trace);
    }

    /** Step 5 of `performUpdate`, once the bootloader is connected. */
    method FlashConnected(device: Device, rule: MergeRule, text: string, ghost n: nat) returns (out: Outcome<Error>)
      requires |device.log| == n
      modifies this, device
      ensures var run := HexFlashRun(rule, text, n, device.fails);
        device.log == old(device.log) + run.trace && out == run.outcome
      ensures out.Fail? ==> FlashError(out.error)
      ensures trail == old(trail) + [Flashing] && dfuDevice == old(dfuDevice)
      ensures GuardedFrom(device.log, |old(device.log)|)
    {
      SetState(Flashing);
      out := FlashFirmwareHex(device, rule, text);
      HexFlashErrors(rule, text, |old(device.log)|, device.fails);
      GuardedFromFlash(rule, old(device.log), text, device.fails);
    }

    /** Steps 3 to 8 of `performUpdate`, once the HEX text is at hand. */
    method Session(device: Device?, rule: MergeRule, text: string, manual: bool) returns (out: Outcome<Error>)
      modifies this, device
      ensures device == null ==> out == SessionOutcome(rule, text, false, DfuIdle, 0, {})
      ensures device != null ==>
        out == SessionOutcome(rule, text, true, old(device.state), |old(device.log)|, device.fails)
      ensures out.Fail? ==> out.error.ConnectionFailed? || FlashError(out.error)
      ensures trail == old(trail) + SessionStates(manual, out)
      ensures out.Pass? ==> updateState == Complete
      ensures device == null ==> dfuDevice == old(dfuDevice)
      ensures device != null && out.Fail? ==> dfuDevice == device
      ensures out.Pass? ==> device != null && dfuDevice == KeptAfterClose(device, |device.log|)
      ensures device != null ==> GuardedFrom(device.log, |old(device.log)|)
      ensures device != null ==>
        device.log == old(device.log) + UpdateCalls(rule, text, old(device.state), |old(device.log)|, device.fails)
          + (if out.Pass? then [Close] else [])
    {
      var entry := if manual then WaitingDfu else EnteringDfu;
      SetState(entry);
      out := ConnectAndFlash(device, rule, text);
      ghost var flashing: seq<UpdateState> := if out.Fail? && out.error.ConnectionFailed? then [] else [Flashing];
      if out.Fail? {
        Regroup(old(trail), entry, ConnectingDfu, flashing, []);
        if device != null {
          assert device.log + [] == device.log;
        }
        return;
      }
      ghost var flashed := device.log;
      Reboot(device);
      assert device.log[..|flashed|] == flashed;
      GuardedFromChain(flashed, |old(device.log)|, device.log);
      Regroup(old(trail), entry, ConnectingDfu, flashing, [Rebooting, Complete]);
    }

    /** Steps 7 and 8 of `performUpdate`: leave DFU mode and complete. */
    method Reboot(device: Device)
      requires dfuDevice == device
      modifies this, device
      ensures trail == old(trail) + [Rebooting, Complete] && updateState == Complete
      ensures device.log == old(device.log) + [Close]
      ensures dfuDevice == KeptAfterClose(device, |device.log|)
      ensures GuardedFrom(device.log, |old(device.log)|)
    {
      SetState(Rebooting);
      LeaveDfuMode();
      GuardedFromNoWrites(old(device.log), [Close]);
      SetState(Complete);
      assert old(trail) + [Rebooting] + [Complete] == old(trail) + [Rebooting, Complete];
    }

    /** The `try` block of `performUpdate`: fetch the HEX text, enter DFU
        mode, connect, flash and leave DFU mode. Entering DFU mode
        automatically never throws and makes no call on the bootloader. */
    method Attempt(rule: MergeRule, info: UpdateInfo, manual: bool, downloaded: Option<string>, device: Device?)
        returns (out: Outcome<Error>)
      modifies this, device
      ensures device == null ==> out == UpdateOutcome(rule, info, downloaded, false, DfuIdle, 0, {})
      ensures device != null ==>
        out == UpdateOutcome(rule, info, downloaded, true, old(device.state), |old(device.log)|, device.fails)
      ensures trail == old(trail) + StatesReached(info, manual, out)
      ensures out.Pass? ==> updateState == Complete
      ensures device == null || FetchFirmware(info, downloaded).Err? ==> dfuDevice == old(dfuDevice)
      ensures device != null && FetchFirmware(info, downloaded).Ok? && out.Fail? ==> dfuDevice == device
      ensures out.Pass? ==> device != null && dfuDevice == KeptAfterClose(device, |device.log|)
      ensures device != null ==> GuardedFrom(device.log, |old(device.log)|)
      ensures device != null ==>
        device.log == old(device.log)
          + AttemptCalls(rule, info, downloaded, old(device.state), |old(device.log)|, device.fails)
    {
      ghost var fetching: seq<UpdateState> := if LocalPath(info) then [] else [Downloading];
      var text := Fetch(info, downloaded);
      if text.Err? {
        FetchStates(info, manual, downloaded);
        FetchFails(rule, info, downloaded, device != null, if device != null then device.state else DfuIdle,
          if device != null then |device.log| else 0, if device != null then device.fails else {});
        if device != null {
          assert GuardedFrom(device.log, |device.log|);
          assert device.log + [] == device.log;
        }
        out := Fail(text.error);
        assert StatesReached(info, manual, out) == fetching;
        return;
      }
      ghost var s0 := if device != null then device.state else DfuIdle;
      ghost var base := if device != null then |device.log| else 0;
      ghost var fails := if device != null then device.fails else {};
      out := Session(device, rule, text.value, manual);
      StatesReachedSplit(info, manual, out);
      AppendAssoc(old(trail), fetching, SessionStates(manual, out));
      FetchedSession(rule, info, downloaded, text.value, device != null, s0, base, fails);
      if device != null {
        AppendAssoc(old(device.log), UpdateCalls(rule, text.value, s0, base, fails),
          if out.Pass? then [Close] else []);
      }
    }

    /** `performUpdate(updateInfo, manualDfuMode)`, the segments merged by
        `rule`: the attempt, and on an error the `catch` that sets ERROR,
        recovers the device then held, if any, and rethrows. */
    method PerformUpdate(rule: MergeRule, info: UpdateInfo, manual: bool, downloaded: Option<string>, device: Device?)
        returns (out: Outcome<Error>)
      modifies this, device, dfuDevice
      ensures device == null ==> out == UpdateOutcome(rule, info, downloaded, false, DfuIdle, 0, {})
      ensures device != null ==>
        out == UpdateOutcome(rule, info, downloaded, true, old(device.state), |old(device.log)|, device.fails)
      ensures updateState == if out.Pass? then Complete else Error
      ensures trail == old(trail) + StatesVisited(info, manual, out)
      ensures out.Pass? ==>
        && device != null
        && device.log == old(device.log)
             + AttemptCalls(rule, info, downloaded, old(device.state), |old(device.log)|, device.fails)
        && dfuDevice == KeptAfterClose(device, |device.log|)
      // An error once the connection was attempted: the new device is held and recovered.
      ensures out.Fail? && device != null && FetchFirmware(info, downloaded).Ok? ==>
        RecoveredAfter(
          old(device.log) + AttemptCalls(rule, info, downloaded, old(device.state), |old(device.log)|, device.fails),
          device.log, device.fails, dfuDevice == null)
      // An error before it: the device held from before, if any, is recovered.
      ensures out.Fail? && (device == null || FetchFirmware(info, downloaded).Err?) ==>
        if old(dfuDevice) == null then dfuDevice == null
        else RecoveredAfter(old(dfuDevice.log), old(dfuDevice).log, old(dfuDevice).fails, dfuDevice == null)
      ensures device != null && FetchFirmware(info, downloaded).Err? && device != old(dfuDevice) ==>
        device.log == old(device.log)
      ensures device != null && FetchFirmware(info, downloaded).Ok? && old(dfuDevice) != null && old(dfuDevice) != device ==>
        old(dfuDevice).log == old(dfuDevice.log)
      ensures device != null ==> GuardedFrom(device.log, |old(device.log)|)
      ensures old(dfuDevice) != null ==> GuardedFrom(old(dfuDevice).log, |old(dfuDevice.log)|)
    {
      ghost var held := dfuDevice;
      ghost var heldLog := if held != null then held.log else [];
      out := Attempt(rule, info, manual, downloaded, device);
      if held != null && held != device {
        assert held.log == heldLog;
      }
      if out.Pass? {
        return;
      }
      SetState(Error);
      ghost var r := dfuDevice;
      ghost var before := if r != null then r.log else [];
      ghost var deviceLog := if device != null then device.log else [];
      CatchRecover();
      if r != null {
        if device != null {
          if r == device {
            GuardedFromChain(before, |old(device.log)|, device.log);
          } else {
            assert device.log == deviceLog;
          }
        }
        if held != null && r == held {
          GuardedFromChain(before, |heldLog|, held.log);
        }
      }
    }

    /** The recovery in the `catch` of `performUpdate`: the device held,
        if any, is recovered; nothing the recovery does escapes. */
    method CatchRecover()
      modifies this, dfuDevice
      ensures updateState == old(updateState) && trail == old(trail)
      ensures old(dfuDevice) == null ==> dfuDevice == null
      ensures old(dfuDevice) != null ==>
        && RecoveredAfter(old(dfuDevice.log), old(dfuDevice).log, old(dfuDevice).fails, dfuDevice == null)
        && GuardedFrom(old(dfuDevice).log, |old(dfuDevice.log)|)
    {
      if dfuDevice != null {
        ghost var r := dfuDevice;
        ghost var before := r.log;
        ghost var state := r.state;
        RecoverFromError();
        Recovered(before, state, r.fails);
      }
    }
  }

  // -----------------------------------------------------------------------
  // Where the connect and recovery sequences stop

  /** Once the calls of `plan` before `k` have not thrown, call `k` is the
      first to throw exactly when it throws. */
  lemma Step(plan: seq<Op>, base: nat, fails: set<nat>, k: nat)
    requires k < |plan| && !Tolerated(plan[k]) && FirstFailure(plan, base, fails) >= k
    ensures FirstFailure(plan, base, fails) == k <==> base + k in fails
  {
    FirstFailureIsFirst(plan, base, fails);
  }

  /** When `open()` does not throw, the connect sequence is `open()`
      followed by the normalisation, which succeeds exactly when the whole
      sequence does. */
  lemma ConnectSplits(s: DfuState, base: nat, fails: set<nat>)
    ensures base in fails ==> Cut(ConnectOps(s), base, fails) == [Open] && !Clean(ConnectOps(s), base, fails)
    ensures base !in fails ==>
      && Cut(ConnectOps(s), base, fails) == [Open] + Cut(NormaliseOps(s), base + 1, fails)
      && (Clean(ConnectOps(s), base, fails) <==> Clean(NormaliseOps(s), base + 1, fails))
  {
    FirstFailureConcat([Open], NormaliseOps(s), base, fails);
    assert FirstFailure([Open], base, fails) == (if base in fails then 0 else 1) by {
      assert [Open][1..] == [];
    }
    var i := FirstFailure(NormaliseOps(s), base + 1, fails);
    if base !in fails && i < |NormaliseOps(s)| {
      assert ConnectOps(s)[..i + 2] == [Open] + NormaliseOps(s)[..i + 1];
    }
  }

  // -----------------------------------------------------------------------
  // What an update does to the flash

  /** Calls that neither erase nor download leave every byte as it was. */
  lemma {:induction false} NoWritesKeepCell(ops: seq<Op>, x: int, v: byte, p: int)
    requires NoWrites(ops)
    ensures CellAfter(ops, x, v, p) == v
  {
    if ops != [] {
      assert CellAfterOp(ops[0], x, v, p) == v;
      NoWritesKeepCell(ops[1..], x, v, NextPointer(ops[0], p));
    }
  }

  /** Whatever an update's outcome, the calls it made on a device leave
      the emulated EEPROM (sectors 1 to 3) and everything outside the
      flash as they were. */
  lemma UpdateKeepsEeprom(log: seq<Op>, k: nat, x: int, v: byte, p: int)
    requires GuardedFrom(log, k) && Protected(x)
    ensures CellAfter(log[k..], x, v, p) == v
  {
    GuardedKeepsProtected(log[k..], x, v, p);
  }

  /** Under either merge rule, every call of an update's `try` block erases
      and writes only inside sector 0 and sectors 4 to 7, wherever the
      address pointer stood before. */
  lemma AttemptGuarded(rule: MergeRule, info: UpdateInfo, downloaded: Option<string>,
                       s: DfuState, base: nat, fails: set<nat>, p: int)
    ensures Guarded(AttemptCalls(rule, info, downloaded, s, base, fails), p)
  {
    if FetchFirmware(info, downloaded).Ok? {
      var text := FetchFirmware(info, downloaded).value;
      var connect := Cut(ConnectOps(s), base, fails);
      var n := FlashBase(s, base, fails);
      var flash := if base in fails then [] else HexFlashRun(rule, text, n, fails).trace;
      var close: seq<Op> := if SessionOutcome(rule, text, true, s, base, fails).Pass? then [Close] else [];
      SessionCallsNoWrites(s, base, fails);
      NoWritesGuarded(connect, p);
      HexFlashGuarded(rule, text, n, fails, PointerAfter(connect, p));
      GuardedConcat(connect, flash, p);
      NoWritesGuarded(close, PointerAfter(connect + flash, p));
      GuardedConcat(connect + flash, close, p);
    }
  }

  /** So, under either rule and whatever the outcome, an update leaves the
      emulated EEPROM (sectors 1 to 3) and everything outside the flash as
      they were. */
  lemma AttemptKeepsEeprom(rule: MergeRule, info: UpdateInfo, downloaded: Option<string>,
                           s: DfuState, base: nat, fails: set<nat>, x: int, v: byte, p: int)
    requires Protected(x)
    ensures CellAfter(AttemptCalls(rule, info, downloaded, s, base, fails), x, v, p) == v
  {
    AttemptGuarded(rule, info, downloaded, s, base, fails, p);
    GuardedKeepsProtected(AttemptCalls(rule, info, downloaded, s, base, fails), x, v, p);
  }

  /** With the corrected merge rule, an update that succeeds leaves every
      byte the HEX image gives a value, among those that pass the safety
      filter, at that value; the calls of the connection and the final
      `close()` write nothing. */
  lemma UpdateWritesImage(info: UpdateInfo, downloaded: Option<string>, s: DfuState, base: nat, fails: set<nat>,
                          x: int, v: byte, p: int)
    requires UpdateOutcome(SectorAware, info, downloaded, true, s, base, fails).Pass?
    ensures var text := FetchFirmware(info, downloaded).value;
      var sorted := SortByAddress(FilterSafeSegments(IntelHex.ParseHex(text).value));
      ValueAt(sorted, x).Some? ==>
      CellAfter(AttemptCalls(SectorAware, info, downloaded, s, base, fails), x, v, p) == ValueAt(sorted, x).value
  {
    var text := FetchFirmware(info, downloaded).value;
    var connect := Cut(ConnectOps(s), base, fails);
    var n := FlashBase(s, base, fails);
    var trace := HexFlashRun(SectorAware, text, n, fails).trace;
    assert AttemptCalls(SectorAware, info, downloaded, s, base, fails) == connect + trace + [Close];
    SessionCallsNoWrites(s, base, fails);
    NoWritesKeepCell(connect, x, v, p);
    CellAfterConcat(connect, trace, x, v, p);
    HexFlashWritesImage(text, n, fails, x, v, PointerAfter(connect, p));
    CellAfterConcat(connect + trace, [Close], x, v, p);
    NoWritesKeepCell([Close], x, CellAfter(connect + trace, x, v, p), PointerAfter(connect + trace, p));
  }

  // -----------------------------------------------------------------------
  // The merge finding, from end to end

  /** A local HEX file holding the image of the merge finding: one byte
      0x11 at 0x08010000 and one byte 0x22 at 0x08012000. */
  const FindingUpdate := UpdateInfo(true, Some(HexText.FindingHex), None, None)

  /** Its segments, as the safety filter and the sort hand them on. */
  const FindingSegments := [Segment(0x0801_0000, [0x11]), Segment(0x0801_2000, [0x22])]

  lemma FindingPrepared(rule: MergeRule)
    ensures IntelHex.ParseHex(HexText.FindingHex).Ok?
    ensures SortByAddress(FilterSafeSegments(IntelHex.ParseHex(HexText.FindingHex).value)) == FindingSegments
    ensures SortedByAddress(FindingSegments)
    ensures Prepare(rule, HexText.FindingHex) == Ok(Merge(rule, FindingSegments))
  {
    HexText.FindingHexParses();
    FindingFiltered();
    assert FindingSegments[1..] == [FindingSegments[1]];
    assert SortByAddress([FindingSegments[1]]) == [FindingSegments[1]];
    AsWrittenKeepsApart();
  }

  /** Both segments of the finding's file pass the safety filter. */
  lemma FindingFiltered()
    ensures FilterSafeSegments([IntelHex.RawSegment(Num(0x0801_0000), [0x11]),
                                IntelHex.RawSegment(Num(0x0801_2000), [0x22])]) == FindingSegments
  {
    var r1 := IntelHex.RawSegment(Num(0x0801_0000), [0x11]);
    var r2 := IntelHex.RawSegment(Num(0x0801_2000), [0x22]);
    IsSafeIff(r1);
    IsSafeIff(r2);
    assert [r1, r2][1..] == [r2];
    assert FilterSafeSegments([r2]) == [FindingSegments[1]];
  }

  /** With no call throwing, every call succeeds. */
  lemma NothingFails(plan: seq<Op>, base: nat)
    ensures Clean(plan, base, {})
  {
    FirstFailureIsFirst(plan, base, {});
  }

  /** A fetched text that prepares into the segments `ms`, sent to a
      bootloader found in dfuIDLE with no call throwing, is flashed
      whole: `open()`, `getState()`, the flash of `ms` and `close()`. */
  lemma PreparedUpdatePasses(rule: MergeRule, info: UpdateInfo, text: string, ms: seq<Segment>)
    requires FetchFirmware(info, None) == Ok(text) && Prepare(rule, text) == Ok(ms)
    ensures UpdateOutcome(rule, info, None, true, DfuIdle, 0, {}) == Pass
    ensures AttemptCalls(rule, info, None, DfuIdle, 0, {}) == [Open, GetState] + FlashOps(ms) + [Close]
  {
    NothingFails(ConnectOps(DfuIdle), 0);
    assert ConnectOps(DfuIdle) == [Open, GetState];
    assert Cut(ConnectOps(DfuIdle), 0, {}) == [Open, GetState];
    FlashRunFollowsPlan(ms, 2, {});
    NothingFails(FlashOps(ms), 2);
  }

  /** The connection calls before a flash and the `close()` after it
      leave a byte as the flash leaves it. */
  lemma FramedFlashCell(flash: seq<Op>, x: int, v: byte, p: int)
    ensures CellAfter([Open, GetState] + flash + [Close], x, v, p) == CellAfter(flash, x, v, PointerAfter([Open, GetState], p))
  {
    CellAfterConcat([Open, GetState], flash, x, v, p);
    NoWritesKeepCell([Open, GetState], x, v, p);
    CellAfterConcat([Open, GetState] + flash, [Close], x, v, p);
    NoWritesKeepCell([Close], x, CellAfter([Open, GetState] + flash, x, v, p), PointerAfter([Open, GetState] + flash, p));
  }

  /** Updating a bootloader found in dfuIDLE with the finding's file, no
      call throwing, succeeds under either rule: `open()`, `getState()`,
      the flash of the merged segments and `close()`. */
  lemma FindingUpdatePasses(rule: MergeRule)
    ensures SortedByAddress(FindingSegments)
    ensures UpdateOutcome(rule, FindingUpdate, None, true, DfuIdle, 0, {}) == Pass
    ensures AttemptCalls(rule, FindingUpdate, None, DfuIdle, 0, {}) ==
      [Open, GetState] + FlashOps(Merge(rule, FindingSegments)) + [Close]
  {
    FindingPrepared(rule);
    assert HexText.FindingHex[0] == ':';
    assert FetchFirmware(FindingUpdate, None) == Ok(HexText.FindingHex);
    PreparedUpdatePasses(rule, FindingUpdate, HexText.FindingHex, Merge(rule, FindingSegments));
  }

  /** The finding's image gives address 0x08010000 the byte 0x11. */
  lemma FindingImageByte()
    ensures ValueAt(FindingSegments, 0x0801_0000) == Some(0x11)
  {
    assert FindingSegments[1..] == [FindingSegments[1]];
    assert ValueAt([FindingSegments[1]], 0x0801_0000) == None;
  }

  /** Performed as written, that update succeeds, yet the byte 0x11 the
      file gives address 0x08010000 reads back as 0xFF: the erase for the
      second segment wipes sector 4 after the first was written. */
  lemma AsWrittenUpdateLosesByte(v: byte, p: int)
    ensures UpdateOutcome(AsWritten, FindingUpdate, None, true, DfuIdle, 0, {}) == Pass
    ensures ValueAt(FindingSegments, 0x0801_0000) == Some(0x11)
    ensures CellAfter(AttemptCalls(AsWritten, FindingUpdate, None, DfuIdle, 0, {}), 0x0801_0000, v, p) == 0xFF
  {
    FindingUpdatePasses(AsWritten);
    FindingImageByte();
    AsWrittenKeepsApart();
    AsWrittenLosesBytes(v, PointerAfter([Open, GetState], p));
    FramedFlashCell(FlashOps(FindingSegments), 0x0801_0000, v, p);
  }

  /** With the corrected rule the same update leaves 0x11 there. */
  lemma SectorAwareUpdateKeepsByte(v: byte, p: int)
    ensures UpdateOutcome(SectorAware, FindingUpdate, None, true, DfuIdle, 0, {}) == Pass
    ensures CellAfter(AttemptCalls(SectorAware, FindingUpdate, None, DfuIdle, 0, {}), 0x0801_0000, v, p) == 0x11
  {
    FindingUpdatePasses(SectorAware);
    FindingImageByte();
    MergedFlashKeepsBytes(FindingSegments, 0x0801_0000, v, PointerAfter([Open, GetState], p));
    FramedFlashCell(FlashOps(Merge(SectorAware, FindingSegments)), 0x0801_0000, v, p);
  }
}
