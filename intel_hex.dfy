/** The Intel HEX reader of the firmware updater (`_parseIntelHex`).

    The text is split into lines; every trimmed line that starts with `:`
    is read as a record `:CCAAAATT<data>KK` (byte count, 16-bit offset,
    record type, data, checksum). Type 00 carries data, type 01 ends the
    file, type 04 sets the upper 16 address bits; every other type is
    ignored and checksums are never checked. Data records whose absolute
    address continues the open segment are appended to it, any other data
    record closes it and opens a new one.

    The fields are read with `parseInt(_, 16)`, so a malformed field is
    NaN rather than an error: a NaN offset gives a segment at a NaN
    address, a NaN byte count an empty record. The one way reading can
    throw is a negative byte count (`:-1...`), for which `new Uint8Array`
    raises a RangeError. */
module IntelHex {
  import opened Wrappers
  import opened JsText

  /** A run of bytes at an absolute address, as the reader produces it. */
  datatype RawSegment = RawSegment(address: JsNumber, data: seq<byte>)

  /** The address just past the segment's last byte. */
  function End(s: RawSegment): JsNumber {
    Add(s.address, |s.data|)
  }

  /** What one line of the file means to the reader. */
  datatype Record =
    | NotRecord                               // does not start with ':'
    | Data(offset: JsNumber, bytes: seq<byte>) // type 00
    | BadByteCount(count: int)                // type 00 whose byte count is negative
    | EndOfFile                               // type 01
    | ExtendedLinearAddress(value: JsNumber)  // type 04
    | OtherRecord(recordType: JsNumber)       // any other type, or NaN

  datatype HexError = RangeError(byteCount: int)

  /** `count * 2` as a substr length */
  function Twice(count: JsNumber): JsNumber {
    match count
    case NaN => NaN
    case Num(n) => Num(2 * n)
  }

  /** The bytes of a data field: two hex characters per byte. A pair that
      does not parse stores 0; a value is stored modulo 256. */
  function FieldBytes(dataStr: string, count: nat): (bytes: seq<byte>)
    ensures |bytes| == count
  {
    seq(count, i requires 0 <= i < count => FieldByte(dataStr, i))
  }

  /** `parseInt(dataStr.substr(i * 2, 2), 16)` stored into a byte. */
  function FieldByte(dataStr: string, i: nat): byte {
    ToUint8(ParseInt(Substr(dataStr, i * 2, Num(2)), 16))
  }

  /** `new Uint8Array(byteCount)` filled from the data field. */
  function DataBytes(dataStr: string, byteCount: JsNumber): Result<seq<byte>, HexError> {
    match byteCount
    case NaN => Ok([])
    case Num(n) => if n < 0 then Err(RangeError(n)) else Ok(FieldBytes(dataStr, n))
  }

  /** `parseInt(line.substr(1, 2), 16)` */
  function ByteCountField(line: string): JsNumber {
    ParseInt(Substr(line, 1, Num(2)), 16)
  }

  /** `parseInt(line.substr(3, 4), 16)` */
  function AddressField(line: string): JsNumber {
    ParseInt(Substr(line, 3, Num(4)), 16)
  }

  /** `parseInt(line.substr(7, 2), 16)` */
  function RecordTypeField(line: string): JsNumber {
    ParseInt(Substr(line, 7, Num(2)), 16)
  }

  /** `line.substr(9, byteCount * 2)` */
  function DataField(line: string, byteCount: JsNumber): string {
    Substr(line, 9, Twice(byteCount))
  }

  /** What a record with these fields means to the reader. */
  function Classify(byteCount: JsNumber, address: JsNumber, recordType: JsNumber, dataStr: string): Record {
    if recordType == Num(0) then
      match DataBytes(dataStr, byteCount)
      case Ok(bytes) => Data(address, bytes)
      case Err(e) => BadByteCount(e.byteCount)
    else if recordType == Num(1) then EndOfFile
    else if recordType == Num(4) then ExtendedLinearAddress(ParseInt(dataStr, 16))
    else OtherRecord(recordType)
  }

  /** How the reader classifies and decodes one line. */
  function DecodeLine(raw: string): Record {
    var line := Trim(raw);
    if !StartsWith(line, ":") then NotRecord
    else
      var byteCount := ByteCountField(line);
      Classify(byteCount, AddressField(line), RecordTypeField(line), DataField(line, byteCount))
  }

  // -----------------------------------------------------------------------
  // The reader as a specification function

  /** The reader's variables: the segments already closed, the open
      segment and the extended linear address. */
  datatype Parser = Parser(closed: seq<RawSegment>, open: Option<RawSegment>, base: int)

  const Initial := Parser([], None, 0)

  /** The segments once reading stops: the open one is always emitted. */
  function Close(p: Parser): seq<RawSegment> {
    match p.open
    case None => p.closed
    case Some(s) => p.closed + [s]
  }

  /** A data record at `address`: appended to the open segment when it
      starts exactly where that segment ends, otherwise it opens a new one. */
  function AddData(p: Parser, address: JsNumber, bytes: seq<byte>): Parser {
    match p.open
    case None => p.(open := Some(RawSegment(address, bytes)))
    case Some(s) =>
      if StrictEquals(address, End(s)) then p.(open := Some(RawSegment(s.address, s.data + bytes)))
      else Parser(p.closed + [s], Some(RawSegment(address, bytes)), p.base)
  }

  /** The reader over the decoded lines of the file. */
  function ParseFrom(records: seq<Record>, p: Parser): Result<seq<RawSegment>, HexError>
    decreases |records|
  {
    if records == [] then Ok(Close(p))
    else
      match records[0]
      case BadByteCount(n) => Err(RangeError(n))
      case EndOfFile => Ok(Close(p))
      case _ => ParseFrom(records[1..], Step(records[0], p))
  }

  /** What the reader does with a record that neither fails nor ends the
      file: an extended linear address replaces the base, a data record
      goes to absolute address base + offset, anything else changes
      nothing. */
  function Step(r: Record, p: Parser): Parser {
    match r
    case ExtendedLinearAddress(v) => p.(base := ShiftLeft16(v))
    case Data(offset, bytes) => AddData(p, Add(offset, p.base), bytes)
    case _ => p
  }

  /** A record that neither fails nor ends the file hands the rest of the
      records a reader in state `Step(r, p)`. */
  lemma ParseFromNext(records: seq<Record>, p: Parser)
    requires records != [] && !records[0].BadByteCount? && !records[0].EndOfFile?
    ensures ParseFrom(records, p) == ParseFrom(records[1..], Step(records[0], p))
  {
  }

  /** Every line of the file, decoded on its own. */
  function Decoded(lines: seq<string>): (records: seq<Record>)
    ensures |records| == |lines|
  {
    seq(|lines|, i requires 0 <= i < |lines| => DecodeLine(lines[i]))
  }

  /** `_parseIntelHex(hexString)` */
  function ParseHex(hexString: string): Result<seq<RawSegment>, HexError> {
    ParseFrom(Decoded(SplitLines(hexString)), Initial)
  }

  // -----------------------------------------------------------------------
  // The reader as the source writes it

  /** Fills `new Uint8Array(byteCount)` from the data field, one pair of
      hex characters at a time. */
  method ReadDataBytes(dataStr: string, byteCount: JsNumber) returns (r: Result<seq<byte>, HexError>)
    ensures r == DataBytes(dataStr, byteCount)
  {
    var n: nat;
    if byteCount.NaN? {
      n := 0;
    } else if byteCount.value < 0 {
      return Err(RangeError(byteCount.value));
    } else {
      n := byteCount.value;
    }
    var data := new byte[n];
    var i := 0;
    while i < n
      invariant 0 <= i <= n
      invariant forall k :: 0 <= k < i ==> data[k] == FieldByte(dataStr, k)
    {
      data[i] := FieldByte(dataStr, i);
      i := i + 1;
    }
    assert data[..] == FieldBytes(dataStr, n);
    return Ok(data[..]);
  }

  /** `_parseIntelHex`: split the text into lines, then read them. */
  method ParseIntelHex(hexString: string) returns (r: Result<seq<RawSegment>, HexError>)
    ensures r == ParseHex(hexString)
  {
    var lines := SplitLines(hexString);
    r := ParseLines(lines);
  }

  /** The first half of the loop body of `_parseIntelHex`: trim the line,
      skip it unless it starts with `:`, read its fields and, for a data
      record, its bytes (where a negative byte count throws). */
  method ReadRecord(raw: string) returns (rec: Record)
    ensures rec == DecodeLine(raw)
  {
    var line := Trim(raw);
    if !StartsWith(line, ":") {
      return NotRecord;
    }
    var byteCount := ByteCountField(line);
    var address := AddressField(line);
    var recordType := RecordTypeField(line);
    var dataStr := DataField(line, byteCount);
    if recordType == Num(0) {
      var read := ReadDataBytes(dataStr, byteCount);
      if read.Err? {
        return BadByteCount(read.error.byteCount);
      }
      return Data(address, read.value);
    } else if recordType == Num(1) {
      return EndOfFile;
    } else if recordType == Num(4) {
      return ExtendedLinearAddress(ParseInt(dataStr, 16));
    }
    return OtherRecord(recordType);
  }

  /** The second half of the loop body of `_parseIntelHex`, for a record
      that neither fails nor ends the file: a data record is appended to
      the open segment when its absolute address continues it, otherwise
      the open segment is closed and a new one opened; a type-04 record
      sets the extended address; anything else changes nothing. */
  method ApplyRecord(rec: Record, segments: seq<RawSegment>, currentSegment: Option<RawSegment>, extendedAddress: int)
    returns (segments': seq<RawSegment>, currentSegment': Option<RawSegment>, extendedAddress': int)
    ensures Parser(segments', currentSegment', extendedAddress')
         == Step(rec, Parser(segments, currentSegment, extendedAddress))
  {
    segments', currentSegment', extendedAddress' := segments, currentSegment, extendedAddress;
    match rec {
      case Data(address, data) =>
        var absoluteAddress := Add(address, extendedAddress);
        if currentSegment.Some? && StrictEquals(absoluteAddress, End(currentSegment.value)) {
          currentSegment' := Some(RawSegment(currentSegment.value.address, currentSegment.value.data + data));
        } else {
          if currentSegment.Some? {
            segments' := segments + [currentSegment.value];
          }
          currentSegment' := Some(RawSegment(absoluteAddress, data));
        }
      case ExtendedLinearAddress(value) =>
        extendedAddress' := ShiftLeft16(value);
      case _ =>
    }
  }

  /** The loop of `_parseIntelHex`: one pass over the lines that keeps the
      open segment and the extended address in local variables. */
  method ParseLines(lines: seq<string>) returns (r: Result<seq<RawSegment>, HexError>)
    ensures r == ParseFrom(Decoded(lines), Initial)
  {
    ghost var records := Decoded(lines);
    var segments: seq<RawSegment> := [];
    var currentSegment: Option<RawSegment> := None;
    var extendedAddress := 0;
    var i := 0;
    assert records[i..] == records;
    while i < |lines|
      invariant 0 <= i <= |lines|
      invariant ParseFrom(records[i..], Parser(segments, currentSegment, extendedAddress))
             == ParseFrom(records, Initial)
    {
      ghost var p := Parser(segments, currentSegment, extendedAddress);
      var rec := ReadRecord(lines[i]);
      assert records[i..][0] == rec && records[i..][1..] == records[i + 1..];
      if rec.BadByteCount? {
        return Err(RangeError(rec.count));
      } else if rec.EndOfFile? {
        break;
      }
      segments, currentSegment, extendedAddress := ApplyRecord(rec, segments, currentSegment, extendedAddress);
      ParseFromNext(records[i..], p);
      i := i + 1;
    }
    if currentSegment.Some? {
      segments := segments + [currentSegment.value];
    }
    return Ok(segments);
  }

  // -----------------------------------------------------------------------
  // What the reader promises

  /** A record the reader ignores (a line without a leading `:`, or a
      record type other than 00, 01 and 04) can be removed from anywhere
      in the file without changing the result. */
  lemma {:induction false} IgnoredRecordChangesNothing(pre: seq<Record>, r: Record, post: seq<Record>, p: Parser)
    requires r.NotRecord? || r.OtherRecord?
    ensures ParseFrom(pre + [r] + post, p) == ParseFrom(pre + post, p)
    decreases |pre|
  {
    if pre == [] {
      assert pre + [r] + post == [r] + post && pre + post == post;
      assert ([r] + post)[0] == r && ([r] + post)[1..] == post;
    } else {
      assert (pre + [r] + post)[0] == pre[0] && (pre + post)[0] == pre[0];
      assert (pre + [r] + post)[1..] == pre[1..] + [r] + post;
      assert (pre + post)[1..] == pre[1..] + post;
      if !pre[0].BadByteCount? && !pre[0].EndOfFile? {
        IgnoredRecordChangesNothing(pre[1..], r, post, Step(pre[0], p));
      }
    }
  }

  /** An end-of-file record stops the reader: nothing after it can change
      the result. */
  lemma {:induction false} EndOfFileStops(pre: seq<Record>, post1: seq<Record>, post2: seq<Record>, p: Parser)
    ensures ParseFrom(pre + [EndOfFile] + post1, p) == ParseFrom(pre + [EndOfFile] + post2, p)
    decreases |pre|
  {
    if pre != [] {
      assert (pre + [EndOfFile] + post1)[0] == pre[0] && (pre + [EndOfFile] + post2)[0] == pre[0];
      assert (pre + [EndOfFile] + post1)[1..] == pre[1..] + [EndOfFile] + post1;
      assert (pre + [EndOfFile] + post2)[1..] == pre[1..] + [EndOfFile] + post2;
      if !pre[0].BadByteCount? && !pre[0].EndOfFile? {
        EndOfFileStops(pre[1..], post1, post2, Step(pre[0], p));
      }
    }
  }

  /** No record before index `i` is an end-of-file record. */
  predicate NoEndBefore(records: seq<Record>, i: nat)
    requires i <= |records|
  {
    forall j :: 0 <= j < i ==> !records[j].EndOfFile?
  }

  /** Reading fails exactly when a data record with a negative byte count
      comes before any end-of-file record. */
  lemma {:induction false} ParseFailsIff(records: seq<Record>, p: Parser)
    ensures ParseFrom(records, p).Err?
        <==> exists i :: 0 <= i < |records| && records[i].BadByteCount? && NoEndBefore(records, i)
    decreases |records|
  {
    if records != [] {
      var r := records[0];
      if r.BadByteCount? {
        assert NoEndBefore(records, 0);
      } else if r.EndOfFile? {
        forall i | 0 < i < |records| ensures !NoEndBefore(records, i) {
          assert records[0].EndOfFile?;
        }
      } else {
        var rest := records[1..];
        ParseFailsIff(rest, Step(r, p));
        forall i | 0 < i <= |records| ensures NoEndBefore(records, i) == NoEndBefore(rest, i - 1) {
          if NoEndBefore(rest, i - 1) {
            forall j | 0 < j < i ensures !records[j].EndOfFile? {
              assert records[j] == rest[j - 1];
            }
          }
        }
        if exists i :: 0 <= i < |records| && records[i].BadByteCount? && NoEndBefore(records, i) {
          var i :| 0 <= i < |records| && records[i].BadByteCount? && NoEndBefore(records, i);
          assert rest[i - 1] == records[i];
        }
        if exists i :: 0 <= i < |rest| && rest[i].BadByteCount? && NoEndBefore(rest, i) {
          var i :| 0 <= i < |rest| && rest[i].BadByteCount? && NoEndBefore(rest, i);
          assert rest[i] == records[i + 1];
        }
      }
    }
  }

  // The bytes of the output

  /** The bytes of a segment, each with the absolute address it goes to. */
  function Cells(s: RawSegment): (c: seq<(JsNumber, byte)>)
    ensures |c| == |s.data|
    decreases |s.data|
  {
    if s.data == [] then []
    else Cells(RawSegment(s.address, s.data[..|s.data| - 1])) + [(Add(s.address, |s.data| - 1), s.data[|s.data| - 1])]
  }

  lemma ConcatAssoc<T>(a: seq<T>, b: seq<T>, c: seq<T>)
    ensures (a + b) + c == a + (b + c)
  {
  }

  function AllCells(segs: seq<RawSegment>): seq<(JsNumber, byte)> {
    if segs == [] then [] else AllCells(segs[..|segs| - 1]) + Cells(segs[|segs| - 1])
  }

  /** The data bytes of the file, record by record in file order, each at
      the absolute address its record gives it (extended linear address
      plus offset), up to the end-of-file record. */
  function RecordCells(records: seq<Record>, base: int): seq<(JsNumber, byte)>
    decreases |records|
  {
    if records == [] then []
    else
      match records[0]
      case EndOfFile => []
      case BadByteCount(_) => []
      case ExtendedLinearAddress(v) => RecordCells(records[1..], ShiftLeft16(v))
      case Data(offset, bytes) => Cells(RawSegment(Add(offset, base), bytes)) + RecordCells(records[1..], base)
      case _ => RecordCells(records[1..], base)
  }

  lemma AllCellsSnoc(segs: seq<RawSegment>, s: RawSegment)
    ensures AllCells(segs + [s]) == AllCells(segs) + Cells(s)
  {
    assert (segs + [s])[..|segs|] == segs;
  }

  /** Appending a data record to the segment it continues appends its
      bytes, at the right addresses, to that segment's bytes. */
  lemma {:induction false} CellsAppend(s: RawSegment, address: JsNumber, bytes: seq<byte>)
    requires StrictEquals(address, End(s))
    ensures Cells(RawSegment(s.address, s.data + bytes)) == Cells(s) + Cells(RawSegment(address, bytes))
    decreases |bytes|
  {
    if bytes == [] {
      assert s.data + bytes == s.data;
    } else {
      var init := bytes[..|bytes| - 1];
      CellsAppend(s, address, init);
      assert (s.data + bytes)[..|s.data + bytes| - 1] == s.data + init;
      ConcatAssoc(Cells(s), Cells(RawSegment(address, init)), [(Add(address, |bytes| - 1), bytes[|bytes| - 1])]);
    }
  }

  /** One data record adds exactly its own bytes to the reader's output. */
  lemma AddDataCells(p: Parser, address: JsNumber, bytes: seq<byte>)
    ensures AllCells(Close(AddData(p, address, bytes))) == AllCells(Close(p)) + Cells(RawSegment(address, bytes))
  {
    var n := RawSegment(address, bytes);
    match p.open
    case None =>
      AllCellsSnoc(p.closed, n);
    case Some(s) =>
      if StrictEquals(address, End(s)) {
        AllCellsSnoc(p.closed, RawSegment(s.address, s.data + bytes));
        CellsAppend(s, address, bytes);
        AllCellsSnoc(p.closed, s);
      } else {
        AllCellsSnoc(p.closed + [s], n);
        AllCellsSnoc(p.closed, s);
      }
  }

  /** The bytes one record contributes: a data record's bytes at base +
      offset, nothing for any other record. */
  function RecordBytes(r: Record, base: int): seq<(JsNumber, byte)> {
    if r.Data? then Cells(RawSegment(Add(r.offset, base), r.bytes)) else []
  }

  lemma RecordCellsNext(records: seq<Record>, p: Parser)
    requires records != [] && !records[0].BadByteCount? && !records[0].EndOfFile?
    ensures RecordCells(records, p.base)
         == RecordBytes(records[0], p.base) + RecordCells(records[1..], Step(records[0], p).base)
  {
    if !records[0].Data? {
      assert RecordBytes(records[0], p.base) + RecordCells(records[1..], Step(records[0], p).base)
          == RecordCells(records[1..], Step(records[0], p).base);
    }
  }

  lemma StepCells(r: Record, p: Parser)
    ensures AllCells(Close(Step(r, p))) == AllCells(Close(p)) + RecordBytes(r, p.base)
  {
    if r.Data? {
      AddDataCells(p, Add(r.offset, p.base), r.bytes);
    } else {
      assert AllCells(Close(p)) + [] == AllCells(Close(p));
    }
  }

  /** Every data byte of the file reaches the output once, in file order,
      at its absolute address, and nothing else does. */
  lemma {:induction false} ParseFromCells(records: seq<Record>, p: Parser)
    requires ParseFrom(records, p).Ok?
    ensures AllCells(ParseFrom(records, p).value) == AllCells(Close(p)) + RecordCells(records, p.base)
    decreases |records|
  {
    var done := AllCells(Close(p));
    if records == [] || records[0].EndOfFile? {
      assert RecordCells(records, p.base) == [];
      assert done + [] == done;
    } else {
      var r, rest := records[0], records[1..];
      var q := Step(r, p);
      ParseFromNext(records, p);
      ParseFromCells(rest, q);
      RecordCellsNext(records, p);
      StepCells(r, p);
      ConcatAssoc(done, RecordBytes(r, p.base), RecordCells(rest, q.base));
    }
  }

  lemma ParseHexCells(hexString: string)
    requires ParseHex(hexString).Ok?
    ensures AllCells(ParseHex(hexString).value) == RecordCells(Decoded(SplitLines(hexString)), 0)
  {
    ParseFromCells(Decoded(SplitLines(hexString)), Initial);
  }

  /** No segment of the output starts where the one before it ends: such a
      record would have been appended to it. */
  predicate Separated(segs: seq<RawSegment>) {
    forall i :: 0 < i < |segs| ==> !StrictEquals(segs[i].address, End(segs[i - 1]))
  }

  lemma {:induction false} ParseFromSeparated(records: seq<Record>, p: Parser)
    requires Separated(Close(p)) && (p.open.None? ==> p.closed == [])
    requires ParseFrom(records, p).Ok?
    ensures Separated(ParseFrom(records, p).value)
    decreases |records|
  {
    if records != [] {
      var r := records[0];
      if !r.EndOfFile? {
        var q := Step(r, p);
        assert Separated(Close(q)) by {
          if r.Data? && p.open.Some? {
            var s := p.open.value;
            var a := Add(r.offset, p.base);
            var segs := Close(q);
            assert Close(p) == p.closed + [s];
            if StrictEquals(a, End(s)) {
              var s' := RawSegment(s.address, s.data + r.bytes);
              assert segs == p.closed + [s'];
              forall i | 0 < i < |segs| ensures !StrictEquals(segs[i].address, End(segs[i - 1])) {
                assert segs[i - 1] == Close(p)[i - 1];
                assert segs[i].address == Close(p)[i].address;
              }
            } else {
              var n := RawSegment(a, r.bytes);
              assert segs == Close(p) + [n];
              forall i | 0 < i < |segs| ensures !StrictEquals(segs[i].address, End(segs[i - 1])) {
                if i < |segs| - 1 {
                  assert segs[i] == Close(p)[i] && segs[i - 1] == Close(p)[i - 1];
                }
              }
            }
          }
        }
        ParseFromSeparated(records[1..], q);
      }
    }
  }

  lemma ParseHexSeparated(hexString: string)
    requires ParseHex(hexString).Ok?
    ensures Separated(ParseHex(hexString).value)
  {
    ParseFromSeparated(Decoded(SplitLines(hexString)), Initial);
  }

  // The extended linear address

  /** `v << 16` for a 16-bit record value: `v * 65536`, except that values
      from 0x8000 up land in the negative half of the signed 32-bit range. */
  lemma ExtendedAddressValue(v: int)
    requires 0 <= v < 0x1_0000
    ensures v < 0x8000 ==> ShiftLeft16(Num(v)) == v * 0x1_0000
    ensures v >= 0x8000 ==> ShiftLeft16(Num(v)) == v * 0x1_0000 - 0x1_0000_0000
  {
  }
}
