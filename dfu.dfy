/** The bootloader as the updater drives it through the DFU and DfuSe
    libraries: the DFU 1.1 device states, the calls the updater makes, a
    device object that records every call and throws on a scripted set of
    them, and what a sequence of calls does to the flash. */
module Dfu {
  import opened Wrappers
  import opened JsText
  import opened FlashLayout

  /** The device states of USB DFU 1.1, section 6.1.2. */
  datatype DfuState =
    | AppIdle | AppDetach | DfuIdle | DfuDnloadSync | DfuDnBusy | DfuDnloadIdle
    | DfuManifestSync | DfuManifest | DfuManifestWaitReset | DfuUploadIdle | DfuError

  /** DfuSe command 0x21, "Set Address Pointer". */
  const SetAddressCommand := 0x21
  /** The largest download the updater sends, in bytes. */
  const TransferSize := 2048

  /** The calls the updater makes on the device object. */
  datatype Op =
    | Open
    | Close
    | GetState
    | GetStatus
    | ClearStatus
    | Abort
    | Erase(address: int, length: int)
    | DfuseCommand(command: int, param: int, length: int)
    | Download(data: seq<byte>, blockNum: int)
    | PollUntilIdle(target: DfuState)
    | PollUntilManifest

  /** Every error the updater can throw. */
  datatype Error =
    | CallFailed(call: nat)              // device call number `call` threw
    | HexRangeError(byteCount: int)      // `new Uint8Array(n)` with n < 0
    | NoValidSegments                    // nothing passed the safety filter
    | ManifestationFailed(cause: Error)  // the manifestation request threw
    | NoDfuInterface                     // the USB device has no DFU interface
    | ConnectionFailed(cause: Error)     // connecting threw
    | NotHexFile                         // a local file not named .hex
    | NotHexUrl                          // a download URL not ending in .hex
    | DownloadFailed                     // fetching the firmware text failed
    | TypeError                          // a method called on `undefined`

  /** The state after a call that succeeded. */
  function After(op: Op, s: DfuState): DfuState {
    match op
    case ClearStatus => if s == DfuError then DfuIdle else s
    case Abort => DfuIdle
    case PollUntilIdle(target) => target
    case PollUntilManifest => DfuManifest
    case _ => s
  }

  /** The bootloader behind the updater's `dfuDevice`. */
  class Device {
    /** Every call made on the device, in order; call `n` is `log[n]`. */
    var log: seq<Op>
    /** The numbers of the calls that throw. */
    const fails: set<nat>
    /** The state the device reports. */
    var state: DfuState

    constructor(fails: set<nat>, state: DfuState)
      ensures this.log == [] && this.fails == fails && this.state == state
    {
      this.log := [];
      this.fails := fails;
      this.state := state;
    }

    /** Makes one call; `ok` is false when it throws. */
    method Call(op: Op) returns (ok: bool)
      modifies this
      ensures log == old(log) + [op]
      ensures ok <==> |old(log)| !in fails
      ensures state == if ok then After(op, old(state)) else old(state)
    {
      ok := |log| !in fails;
      log := log + [op];
      if ok {
        state := After(op, state);
      }
    }

    /** `getState()`: the state, or None when the call throws. */
    method ReadState() returns (r: Option<DfuState>)
      modifies this
      ensures log == old(log) + [GetState] && state == old(state)
      ensures r == if |old(log)| in fails then None else Some(state)
    {
      var ok := Call(GetState);
      r := if ok then Some(state) else None;
    }

    /** `getStatus()`: the state from the status reply, or None. */
    method ReadStatus() returns (r: Option<DfuState>)
      modifies this
      ensures log == old(log) + [GetStatus] && state == old(state)
      ensures r == if |old(log)| in fails then None else Some(state)
    {
      var ok := Call(GetStatus);
      r := if ok then Some(state) else None;
    }
  }

  // -----------------------------------------------------------------------
  // What the calls do to the flash

  /** `erase(address, length)` erases every sector that holds a byte of
      `[address, address + length)`. */
  predicate ErasesCell(address: int, length: int, x: int) {
    InFlash(x) && length > 0 && SectorStart(x) < address + length && address < SectorEnd(x)
  }

  /** The address pointer after a call. */
  function NextPointer(op: Op, pointer: int): int {
    if op.DfuseCommand? && op.command == SetAddressCommand then op.param else pointer
  }

  /** The byte at `x` after one call: an erase sets it to 0xFF, a download
      of block 2 writes its data from the address pointer on. */
  function CellAfterOp(op: Op, x: int, v: byte, pointer: int): byte {
    match op
    case Erase(a, n) => if ErasesCell(a, n, x) then 0xFF else v
    case Download(data, block) =>
      if block == 2 && pointer <= x < pointer + |data| then data[x - pointer] else v
    case _ => v
  }

  /** The byte at `x` after a sequence of calls, starting from the byte
      `v` and the address pointer `pointer`. */
  function CellAfter(ops: seq<Op>, x: int, v: byte, pointer: int): byte {
    if ops == [] then v
    else CellAfter(ops[1..], x, CellAfterOp(ops[0], x, v, pointer), NextPointer(ops[0], pointer))
  }

  function PointerAfter(ops: seq<Op>, pointer: int): int {
    if ops == [] then pointer else PointerAfter(ops[1..], NextPointer(ops[0], pointer))
  }

  /** Running two sequences of calls is running the first, then the second
      from where the first left the byte and the address pointer. */
  lemma {:induction false} CellAfterConcat(a: seq<Op>, b: seq<Op>, x: int, v: byte, pointer: int)
    ensures CellAfter(a + b, x, v, pointer) ==
      CellAfter(b, x, CellAfter(a, x, v, pointer), PointerAfter(a, pointer))
    ensures PointerAfter(a + b, pointer) == PointerAfter(b, PointerAfter(a, pointer))
  {
    if a == [] {
      assert a + b == b;
    } else {
      assert (a + b)[0] == a[0] && (a + b)[1..] == a[1..] + b;
      CellAfterConcat(a[1..], b, x, CellAfterOp(a[0], x, v, pointer), NextPointer(a[0], pointer));
    }
  }

  // -----------------------------------------------------------------------
  // Calls that stay out of the EEPROM

  /** Inside sector 0 or inside sectors 4 to 7. */
  predicate SafeSpan(lo: int, hi: int) {
    || (0x0800_0000 <= lo && hi <= 0x0800_4000)
    || (0x0801_0000 <= lo && hi <= 0x0808_0000)
  }

  /** A call that erases or writes only inside the safe ranges. */
  predicate OpGuarded(op: Op, pointer: int) {
    match op
    case Erase(a, n) => n <= 0 || SafeSpan(a, a + n)
    case Download(data, block) => block != 2 || |data| == 0 || SafeSpan(pointer, pointer + |data|)
    case _ => true
  }

  predicate Guarded(ops: seq<Op>, pointer: int) {
    ops == [] || (OpGuarded(ops[0], pointer) && Guarded(ops[1..], NextPointer(ops[0], pointer)))
  }

  /** A guarded sequence stays guarded when it is cut short. */
  lemma {:induction false} GuardedPrefix(ops: seq<Op>, pointer: int, k: nat)
    requires Guarded(ops, pointer) && k <= |ops|
    ensures Guarded(ops[..k], pointer)
  {
    if k > 0 {
      assert ops[..k][1..] == ops[1..][..k - 1];
      GuardedPrefix(ops[1..], NextPointer(ops[0], pointer), k - 1);
    }
  }

  lemma {:induction false} GuardedConcat(a: seq<Op>, b: seq<Op>, pointer: int)
    requires Guarded(a, pointer) && Guarded(b, PointerAfter(a, pointer))
    ensures Guarded(a + b, pointer)
  {
    if a == [] {
      assert a + b == b;
    } else {
      assert (a + b)[0] == a[0] && (a + b)[1..] == a[1..] + b;
      GuardedConcat(a[1..], b, NextPointer(a[0], pointer));
    }
  }

  /** Outside sector 0 and sectors 4 to 7: the EEPROM, system memory,
      option bytes, RAM. */
  predicate Protected(x: int) {
    !SafeSpan(x, x + 1)
  }

  /** A guarded sequence of calls leaves every protected byte as it was. */
  lemma {:induction false} GuardedKeepsProtected(ops: seq<Op>, x: int, v: byte, pointer: int)
    requires Guarded(ops, pointer) && Protected(x)
    ensures CellAfter(ops, x, v, pointer) == v
  {
    if ops != [] {
      var op := ops[0];
      if op.Erase? && InFlash(x) {
        SectorOf(x);
      }
      assert CellAfterOp(op, x, v, pointer) == v;
      GuardedKeepsProtected(ops[1..], x, v, NextPointer(op, pointer));
    }
  }
}
