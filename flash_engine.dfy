/** The HEX flashing path of the updater (`_flashFirmwareHex`): parse, filter,
    sort and merge, then for each merged segment one erase followed by
    chunks of at most 2048 bytes, each a SET_ADDRESS, a download and a poll
    until dfuDNLOAD-IDLE; after the last segment one manifestation request
    at the first segment's address. */
module FlashEngine {
  import opened Wrappers
  import opened JsText
  import opened FlashLayout
  import opened Dfu
  import opened Segments
  import opened SegmentMerge
  import IntelHex

  function Min(x: int, y: int): int {
    if x < y then x else y
  }

  // -----------------------------------------------------------------------
  // The calls the updater plans to make

  /** `chunk_size = Math.min(bytes_left, TRANSFER_SIZE)` */
  function ChunkSize(s: Segment, sent: nat): nat
    requires sent < |s.data|
  {
    Min(|s.data| - sent, TransferSize)
  }

  /** The three calls for the chunk that starts `sent` bytes into `s`. */
  function ChunkHead(s: Segment, sent: nat): seq<Op>
    requires sent < |s.data|
  {
    [DfuseCommand(SetAddressCommand, s.address + sent, 4),
     Download(s.data[sent..sent + ChunkSize(s, sent)], 2),
     PollUntilIdle(DfuDnloadIdle)]
  }

  /** The calls that write `s.data[sent..]`. */
  function ChunkOps(s: Segment, sent: nat): seq<Op>
    requires sent <= |s.data|
    decreases |s.data| - sent
  {
    if sent == |s.data| then [] else ChunkHead(s, sent) + ChunkOps(s, sent + ChunkSize(s, sent))
  }

  /** One erase over the whole segment, then its chunks. */
  function SegmentOps(s: Segment): seq<Op> {
    [Erase(s.address, |s.data|)] + ChunkOps(s, 0)
  }

  function WriteOps(ms: seq<Segment>): seq<Op> {
    if ms == [] then [] else SegmentOps(ms[0]) + WriteOps(ms[1..])
  }

  /** SET_ADDRESS to `first`, a zero-length download of block 0, and the
      poll for dfuMANIFEST. */
  function ManifestOps(first: int): seq<Op> {
    [DfuseCommand(SetAddressCommand, first, 4), Download([], 0), PollUntilManifest]
  }

  function FlashOps(ms: seq<Segment>): seq<Op>
    requires ms != []
  {
    WriteOps(ms) + ManifestOps(ms[0].address)
  }

  /** `totalBytes`: the sum of the segment lengths. */
  function TotalBytes(ms: seq<Segment>): nat {
    if ms == [] then 0 else TotalBytes(ms[..|ms| - 1]) + |ms[|ms| - 1].data|
  }

  // -----------------------------------------------------------------------
  // Which calls are made when some of them throw

  /** A call whose error the updater catches and ignores. */
  predicate Tolerated(op: Op) {
    op.PollUntilManifest?
  }

  /** The position in `plan` of the first call that throws an error the
      updater does not catch, or `|plan|`; the calls are numbered from
      `base` on. */
  function FirstFailure(plan: seq<Op>, base: nat, fails: set<nat>): (i: nat)
    ensures i <= |plan|
  {
    if plan == [] then 0
    else if base in fails && !Tolerated(plan[0]) then 0
    else 1 + FirstFailure(plan[1..], base + 1, fails)
  }

  lemma {:induction false} FirstFailureConcat(a: seq<Op>, b: seq<Op>, base: nat, fails: set<nat>)
    ensures FirstFailure(a + b, base, fails) ==
      if FirstFailure(a, base, fails) < |a| then FirstFailure(a, base, fails)
      else |a| + FirstFailure(b, base + |a|, fails)
  {
    if a == [] {
      assert a + b == b;
    } else {
      assert (a + b)[0] == a[0] && (a + b)[1..] == a[1..] + b;
      FirstFailureConcat(a[1..], b, base + 1, fails);
    }
  }

  /** The first uncaught failure is exactly the first call that throws and
      is not tolerated. */
  lemma {:induction false} FirstFailureIsFirst(plan: seq<Op>, base: nat, fails: set<nat>)
    ensures var i := FirstFailure(plan, base, fails);
      (forall k :: 0 <= k < i ==> base + k !in fails || Tolerated(plan[k])) &&
      (i < |plan| ==> base + i in fails && !Tolerated(plan[i]))
  {
    if plan != [] && !(base in fails && !Tolerated(plan[0])) {
      FirstFailureIsFirst(plan[1..], base + 1, fails);
      var i := FirstFailure(plan, base, fails);
      forall k | 1 <= k < i ensures base + k !in fails || Tolerated(plan[k]) {
        assert plan[k] == plan[1..][k - 1];
      }
    }
  }

  /** The calls made and the result of the flash. */
  datatype Run = Run(trace: seq<Op>, outcome: Outcome<Error>)

  /** Writing stops at the first call that throws; a failure of the
      manifestation request is reported as such; the failure of the final
      poll is ignored. */
  function FlashRun(ms: seq<Segment>, base: nat, fails: set<nat>): Run
    requires ms != []
  {
    var w := WriteOps(ms);
    var i := FirstFailure(w, base, fails);
    if i < |w| then Run(w[..i + 1], Fail(CallFailed(base + i)))
    else
      var m := ManifestOps(ms[0].address);
      var j := FirstFailure(m, base + |w|, fails);
      if j < |m| then Run(w + m[..j + 1], Fail(ManifestationFailed(CallFailed(base + |w| + j))))
      else Run(w + m, Pass)
  }

  /** `r` made the calls of `plan` up to its first uncaught failure, and
      passed exactly when there was none. */
  predicate FollowsPlan(r: Run, plan: seq<Op>, base: nat, fails: set<nat>) {
    var i := FirstFailure(plan, base, fails);
    && |r.trace| <= |plan|
    && r.trace == plan[..|r.trace|]
    && (r.outcome.Pass? <==> i == |plan|)
    && (r.outcome.Pass? ==> r.trace == plan)
    && (r.outcome.Fail? ==> |r.trace| == i + 1 && base + i in fails)
  }

  lemma WriteFailureFollows(w: seq<Op>, m: seq<Op>, base: nat, fails: set<nat>)
    requires FirstFailure(w, base, fails) < |w|
    ensures var i := FirstFailure(w, base, fails);
      FollowsPlan(Run(w[..i + 1], Fail(CallFailed(base + i))), w + m, base, fails)
  {
    var i := FirstFailure(w, base, fails);
    FirstFailureConcat(w, m, base, fails);
    FirstFailureIsFirst(w, base, fails);
    assert (w + m)[..i + 1] == w[..i + 1];
  }

  lemma ManifestFollows(w: seq<Op>, first: int, base: nat, fails: set<nat>)
    requires FirstFailure(w, base, fails) == |w|
    ensures var m := ManifestOps(first); var j := FirstFailure(m, base + |w|, fails);
      FollowsPlan(if j < |m| then Run(w + m[..j + 1], Fail(ManifestationFailed(CallFailed(base + |w| + j))))
                  else Run(w + m, Pass), w + m, base, fails)
  {
    var m := ManifestOps(first);
    var j := FirstFailure(m, base + |w|, fails);
    FirstFailureConcat(w, m, base, fails);
    ManifestFailure(first, base + |w|, fails);
    if j < |m| {
      assert (w + m)[..|w| + j + 1] == w + m[..j + 1];
    }
  }

  /** The calls made are the plan cut after the first uncaught failure;
      the flash succeeds exactly when no call but the final poll throws. */
  lemma FlashRunFollowsPlan(ms: seq<Segment>, base: nat, fails: set<nat>)
    requires ms != []
    ensures var r := FlashRun(ms, base, fails); var plan := FlashOps(ms);
      var i := FirstFailure(plan, base, fails);
      && r.trace == plan[..|r.trace|]
      && (r.outcome.Pass? <==> i == |plan|)
      && (r.outcome.Pass? ==> r.trace == plan)
      && (r.outcome.Fail? ==> |r.trace| == i + 1 && base + i in fails)
  {
    var w := WriteOps(ms);
    if FirstFailure(w, base, fails) < |w| {
      WriteFailureFollows(w, ManifestOps(ms[0].address), base, fails);
    } else {
      ManifestFollows(w, ms[0].address, base, fails);
    }
    assert FollowsPlan(FlashRun(ms, base, fails), FlashOps(ms), base, fails);
  }

  // -----------------------------------------------------------------------
  // The driver loop

  /** `trace` is `plan` up to and including its first uncaught failure. */
  predicate StoppedAt(plan: seq<Op>, base: nat, fails: set<nat>, trace: seq<Op>) {
    0 < |trace| <= |plan| && FirstFailure(plan, base, fails) == |trace| - 1 && trace == plan[..|trace|]
  }

  /** No call of `done` threw an uncaught error. */
  predicate Clean(done: seq<Op>, base: nat, fails: set<nat>) {
    FirstFailure(done, base, fails) == |done|
  }

  /** Makes the next planned call. */
  method Issue(dev: Device, op: Op, ghost prefix: seq<Op>, ghost base: nat,
               ghost done: seq<Op>, ghost todo: seq<Op>) returns (ok: bool)
    requires dev.log == prefix + done && |prefix| == base
    requires todo != [] && todo[0] == op && !Tolerated(op)
    requires Clean(done, base, dev.fails)
    modifies dev
    ensures dev.log == prefix + (done + [op])
    ensures ok ==> Clean(done + [op], base, dev.fails)
    ensures (done + [op]) + todo[1..] == done + todo
    ensures !ok ==> StoppedAt(done + todo, base, dev.fails, done + [op])
  {
    ok := dev.Call(op);
    FirstFailureConcat(done, [op], base, dev.fails);
    FirstFailureConcat(done, todo, base, dev.fails);
    assert [op] + todo[1..] == todo;
    assert (done + [op]) + todo[1..] == done + todo;
  }

  /** One pass of the chunk loop: SET_ADDRESS, download, poll. */
  method WriteChunk(dev: Device, segment: Segment, sent: nat,
                    ghost prefix: seq<Op>, ghost base: nat, ghost done: seq<Op>, ghost after: seq<Op>)
      returns (ok: bool, ghost doneAfter: seq<Op>)
    requires sent < |segment.data|
    requires dev.log == prefix + done && |prefix| == base
    requires Clean(done, base, dev.fails)
    modifies dev
    ensures dev.log == prefix + doneAfter
    ensures ok ==> doneAfter == done + ChunkHead(segment, sent) && Clean(doneAfter, base, dev.fails)
    ensures !ok ==> StoppedAt(done + (ChunkHead(segment, sent) + after), base, dev.fails, doneAfter)
  {
    var chunkSize := Min(|segment.data| - sent, TransferSize);
    var setAddress := DfuseCommand(SetAddressCommand, segment.address + sent, 4);
    var download := Download(segment.data[sent..sent + chunkSize], 2);
    var poll := PollUntilIdle(DfuDnloadIdle);
    ghost var todo := ChunkHead(segment, sent) + after;
    assert todo == [setAddress, download, poll] + after;
    ok := Issue(dev, setAddress, prefix, base, done, todo);
    doneAfter := done + [setAddress];
    if !ok {
      return;
    }
    ok := Issue(dev, download, prefix, base, doneAfter, todo[1..]);
    doneAfter := doneAfter + [download];
    if !ok {
      return;
    }
    ok := Issue(dev, poll, prefix, base, doneAfter, todo[1..][1..]);
    doneAfter := doneAfter + [poll];
    if !ok {
      return;
    }
    assert doneAfter == done + [setAddress, download, poll];
  }

  /** `mergedSegments.forEach(s => totalBytes += s.data.length)` */
  method CountBytes(ms: seq<Segment>) returns (totalBytes: nat)
    ensures totalBytes == TotalBytes(ms)
  {
    totalBytes := 0;
    var k := 0;
    while k < |ms|
      invariant 0 <= k <= |ms| && totalBytes == TotalBytes(ms[..k])
    {
      assert ms[..k + 1][..k] == ms[..k];
      totalBytes := totalBytes + |ms[k].data|;
      k := k + 1;
    }
    assert ms[..|ms|] == ms;
  }

  /** The erase and the chunk loop for one segment. On success the calls
      made are the segment's planned calls; on failure they stop at the
      first call that threw. */
  method WriteSegment(dev: Device, segment: Segment, written: nat,
                      ghost prefix: seq<Op>, ghost base: nat, ghost done: seq<Op>, ghost rest: seq<Op>)
      returns (ok: bool, writtenAfter: nat, ghost doneAfter: seq<Op>)
    requires dev.log == prefix + done && |prefix| == base
    requires Clean(done, base, dev.fails)
    modifies dev
    ensures dev.log == prefix + doneAfter
    ensures ok ==> doneAfter == done + SegmentOps(segment) && Clean(doneAfter, base, dev.fails)
    ensures ok ==> writtenAfter == written + |segment.data|
    ensures !ok ==> StoppedAt(done + (SegmentOps(segment) + rest), base, dev.fails, doneAfter)
  {
    ghost var plan := done + (SegmentOps(segment) + rest);
    writtenAfter := written;
    var erase := Erase(segment.address, |segment.data|);
    ghost var todo := [erase] + (ChunkOps(segment, 0) + rest);
    assert done + todo == plan;
    ok := Issue(dev, erase, prefix, base, done, todo);
    doneAfter := done + [erase];
    if !ok {
      return;
    }
    todo := todo[1..];

    var address := segment.address;
    var sent := 0;
    var expectedSize := |segment.data|;
    while sent < expectedSize
      invariant 0 <= sent <= expectedSize == |segment.data|
      invariant address == segment.address + sent
      invariant dev.log == prefix + doneAfter
      invariant todo == ChunkOps(segment, sent) + rest
      invariant doneAfter + todo == plan
      invariant Clean(doneAfter, base, dev.fails)
      invariant writtenAfter == written + sent
      decreases expectedSize - sent
    {
      var left := expectedSize - sent;
      var chunkSize := Min(left, TransferSize);
      ghost var after := ChunkOps(segment, sent + chunkSize) + rest;
      ChunkStep(segment, sent, doneAfter, rest, plan);
      ok, doneAfter := WriteChunk(dev, segment, sent, prefix, base, doneAfter, after);
      if !ok {
        return;
      }
      todo := after;
      address := address + chunkSize;
      sent := sent + chunkSize;
      writtenAfter := writtenAfter + chunkSize;
    }
    assert todo == rest;
    CancelSuffix(doneAfter, done + SegmentOps(segment), rest);
  }

  lemma CancelSuffix<T>(a: seq<T>, b: seq<T>, c: seq<T>)
    requires a + c == b + c
    ensures a == b
  {
    assert |a| == |b|;
    forall i | 0 <= i < |a| ensures a[i] == b[i] {
      assert a[i] == (a + c)[i] && b[i] == (b + c)[i];
    }
  }

  /** One pass of the chunk loop: the chunk at `sent` comes next in the
      plan. */
  lemma ChunkStep(segment: Segment, sent: nat, done: seq<Op>, rest: seq<Op>, plan: seq<Op>)
    requires sent < |segment.data| && done + (ChunkOps(segment, sent) + rest) == plan
    ensures var after := ChunkOps(segment, sent + ChunkSize(segment, sent)) + rest;
      && ChunkOps(segment, sent) + rest == ChunkHead(segment, sent) + after
      && (done + ChunkHead(segment, sent)) + after == plan
  {
  }

  /** One pass of the segment loop: segment `k` comes next in the plan, and
      its bytes are added to the count. */
  lemma WriteAllStep(ms: seq<Segment>, k: nat, done: seq<Op>, plan: seq<Op>)
    requires k < |ms| && done + WriteOps(ms[k..]) == plan
    ensures done + (SegmentOps(ms[k]) + WriteOps(ms[k + 1..])) == plan
    ensures (done + SegmentOps(ms[k])) + WriteOps(ms[k + 1..]) == plan
    ensures TotalBytes(ms[..k + 1]) == TotalBytes(ms[..k]) + |ms[k].data|
  {
    assert ms[k..][0] == ms[k] && ms[k..][1..] == ms[k + 1..];
    assert ms[..k + 1][..k] == ms[..k];
  }

  /** The loop over the merged segments: erase and write each. */
  method WriteAll(dev: Device, ms: seq<Segment>) returns (ok: bool, written: nat)
    modifies dev
    ensures var w := WriteOps(ms); var i := FirstFailure(w, |old(dev.log)|, dev.fails);
      if i < |w| then !ok && dev.log == old(dev.log) + w[..i + 1]
      else ok && dev.log == old(dev.log) + w && written == TotalBytes(ms)
  {
    ghost var prefix := dev.log;
    ghost var base := |dev.log|;
    ghost var plan := WriteOps(ms);
    written := 0;
    ghost var done: seq<Op> := [];
    var k := 0;
    while k < |ms|
      invariant 0 <= k <= |ms|
      invariant dev.log == prefix + done
      invariant done + WriteOps(ms[k..]) == plan
      invariant Clean(done, base, dev.fails)
      invariant written == TotalBytes(ms[..k])
    {
      var segment := ms[k];
      WriteAllStep(ms, k, done, plan);
      ghost var doneAfter;
      ok, written, doneAfter := WriteSegment(dev, segment, written, prefix, base, done, WriteOps(ms[k + 1..]));
      if !ok {
        return;
      }
      done := doneAfter;
      k := k + 1;
    }
    assert ms[k..] == [] && ms[..k] == ms;
    assert done == plan;
    ok := true;
  }

  /** The erase, write and manifestation calls for the merged segments;
      `written` is `globalBytesWritten`. */
  method FlashSegments(dev: Device, ms: seq<Segment>) returns (out: Outcome<Error>, written: nat)
    requires ms != []
    modifies dev
    ensures var r := FlashRun(ms, |old(dev.log)|, dev.fails);
      dev.log == old(dev.log) + r.trace && out == r.outcome
    ensures out.Pass? ==> written == TotalBytes(ms)
  {
    var totalBytes := CountBytes(ms);
    ghost var prefix := dev.log;
    var ok;
    ok, written := WriteAll(dev, ms);
    if !ok {
      out := Fail(CallFailed(|dev.log| - 1));
      return;
    }
    ghost var w := WriteOps(ms);
    ghost var m := ManifestOps(ms[0].address);
    out := Manifest(dev, ms[0].address, prefix + w, |prefix| + |w|);
    ghost var j := FirstFailure(m, |prefix| + |w|, dev.fails);
    if j < |m| {
      assert (prefix + w) + m[..j + 1] == prefix + (w + m[..j + 1]);
    } else {
      assert (prefix + w) + m == prefix + (w + m);
    }
  }

  /** A write call threw: the run is the plan up to that call. */
  lemma FailedWriting(ms: seq<Segment>, base: nat, fails: set<nat>, trace: seq<Op>)
    requires ms != [] && StoppedAt(WriteOps(ms), base, fails, trace)
    ensures FlashRun(ms, base, fails) == Run(trace, Fail(CallFailed(base + |trace| - 1)))
  {
  }

  /** Where the manifestation calls stop. */
  lemma ManifestFailure(first: int, base: nat, fails: set<nat>)
    ensures FirstFailure(ManifestOps(first), base, fails) ==
      if base in fails then 0 else if base + 1 in fails then 1 else 3
  {
    var m := ManifestOps(first);
    assert !Tolerated(m[0]) && !Tolerated(m[1]) && Tolerated(m[2]);
    assert m[1..][0] == m[1] && m[1..][1..][0] == m[2] && m[1..][1..][1..] == [];
    assert FirstFailure(m[1..][1..], base + 2, fails) == 1;
  }

  /** The manifestation request; its errors are rethrown as manifestation
      errors, the error of the final poll is ignored. */
  method Manifest(dev: Device, first: int, ghost prefix: seq<Op>, ghost base: nat) returns (out: Outcome<Error>)
    requires dev.log == prefix && |prefix| == base
    modifies dev
    ensures FirstFailure(ManifestOps(first), base, dev.fails) ==
      if base in dev.fails then 0 else if base + 1 in dev.fails then 1 else 3
    ensures var m := ManifestOps(first); var j := FirstFailure(m, base, dev.fails);
      if j < |m| then dev.log == prefix + m[..j + 1] && out == Fail(ManifestationFailed(CallFailed(base + j)))
      else dev.log == prefix + m && out == Pass
  {
    ManifestFailure(first, base, dev.fails);
    var m := ManifestOps(first);
    var ok := dev.Call(DfuseCommand(SetAddressCommand, first, 4));
    if !ok {
      assert m[..1] == [m[0]];
      return Fail(ManifestationFailed(CallFailed(|dev.log| - 1)));
    }
    ok := dev.Call(Download([], 0));
    if !ok {
      assert m[..2] == [m[0], m[1]];
      return Fail(ManifestationFailed(CallFailed(|dev.log| - 1)));
    }
    ok := dev.Call(PollUntilManifest);
    assert dev.log == prefix + m;
    out := Pass;
  }
}
