/** Well-formed Intel HEX text, as the tools that produce firmware images
    write it: every record is `:CCAAAATT<data>KK` in upper-case hex
    digits (byte count, 16-bit offset, record type, data bytes, checksum),
    and records are separated by line feeds. What the reader makes of such
    a record is stated here field by field, so that the properties proved
    about the reader apply to real HEX files. */
module HexText {
  import opened Wrappers
  import opened JsText
  import opened IntelHex

  /** An upper-case hexadecimal digit. */
  function HexChar(d: nat): (c: char)
    requires d < 16
    ensures IsDigit(c, 16) && DigitValue(c) == d
  {
    if d < 10 then ('0' as int + d) as char else ('A' as int + d - 10) as char
  }

  /** A byte as two hex digits, high nibble first. */
  function HexByte(b: byte): string {
    [HexChar(b / 16), HexChar(b % 16)]
  }

  /** A 16-bit value as four hex digits. */
  function Hex4(a: nat): string
    requires a < 0x1_0000
  {
    HexByte(a / 256) + HexByte(a % 256)
  }

  /** A data field: two hex digits per byte. */
  function HexBytes(d: seq<byte>): (s: string)
    ensures |s| == 2 * |d|
  {
    if d == [] then "" else HexBytes(d[..|d| - 1]) + HexByte(d[|d| - 1])
  }

  /** The value of a byte string read as one big-endian number. */
  function BytesValue(d: seq<byte>): nat {
    if d == [] then 0 else BytesValue(d[..|d| - 1]) * 256 + d[|d| - 1]
  }

  /** One record line. */
  function RecordLine(address: nat, recordType: byte, data: seq<byte>, checksum: byte): (line: string)
    requires address < 0x1_0000 && |data| < 256
  {
    ":" + HexByte(|data|) + Hex4(address) + HexByte(recordType) + HexBytes(data) + HexByte(checksum)
  }

  predicate AllHexDigits(s: string) {
    forall i :: 0 <= i < |s| ==> IsDigit(s[i], 16)
  }

  // -----------------------------------------------------------------------
  // Reading hex digits back

  lemma {:induction false} DigitPrefixOfDigits(s: string)
    requires AllHexDigits(s)
    ensures DigitPrefixLength(s, 16) == |s|
  {
    if s != [] {
      assert IsDigit(s[0], 16);
      DigitPrefixOfDigits(s[1..]);
    }
  }

  /** `parseInt(s, 16)` of a non-empty string of hex digits is the value
      of the digits: no white space, sign or `0x` prefix is involved. */
  lemma ParseHexDigits(s: string)
    requires s != [] && AllHexDigits(s)
    ensures ParseInt(s, 16) == Num(DigitsValue(s, 16))
  {
    assert IsDigit(s[0], 16);
    assert !IsWhiteSpace(s[0]);
    assert TrimStart(s) == s;
    if |s| >= 2 {
      assert IsDigit(s[1], 16);
    }
    DigitPrefixOfDigits(s);
    assert s[..|s|] == s;
  }

  /** Two more digits shift the value by one byte. */
  lemma DigitsValueSnoc(a: string, b: byte)
    ensures DigitsValue(a + HexByte(b), 16) == DigitsValue(a, 16) * 256 + b
  {
    var h := HexChar(b / 16);
    var l := HexChar(b % 16);
    var s := a + HexByte(b);
    assert s[..|s| - 1] == a + [h] && s[|s| - 1] == l;
    assert (a + [h])[..|a|] == a && (a + [h])[|a|] == h;
    var x := DigitsValue(a, 16);
    calc {
      DigitsValue(s, 16);
      (x * 16 + b / 16) * 16 + b % 16;
      { assert (x * 16 + b / 16) * 16 == x * 256 + (b / 16) * 16; }
      x * 256 + b;
    }
  }

  lemma HexByteValue(b: byte)
    ensures DigitsValue(HexByte(b), 16) == b
  {
    DigitsValueSnoc("", b);
    assert "" + HexByte(b) == HexByte(b);
  }

  lemma Hex4Value(a: nat)
    requires a < 0x1_0000
    ensures DigitsValue(Hex4(a), 16) == a
  {
    HexByteValue(a / 256);
    DigitsValueSnoc(HexByte(a / 256), a % 256);
  }

  lemma {:induction false} HexBytesValue(d: seq<byte>)
    ensures DigitsValue(HexBytes(d), 16) == BytesValue(d)
  {
    if d != [] {
      HexBytesValue(d[..|d| - 1]);
      DigitsValueSnoc(HexBytes(d[..|d| - 1]), d[|d| - 1]);
    }
  }

  lemma {:induction false} HexBytesDigits(d: seq<byte>)
    ensures AllHexDigits(HexBytes(d))
  {
    if d != [] {
      HexBytesDigits(d[..|d| - 1]);
      var s := HexBytes(d);
      var front := HexBytes(d[..|d| - 1]);
      forall i | 0 <= i < |s| ensures IsDigit(s[i], 16) {
        if i < |front| {
          assert s[i] == front[i];
        }
      }
    }
  }

  /** Byte `i` of the data field sits at characters `2i` and `2i + 1`. */
  lemma {:induction false} HexBytesAt(d: seq<byte>, i: nat)
    requires i < |d|
    ensures HexBytes(d)[2 * i..2 * i + 2] == HexByte(d[i])
  {
    var front := d[..|d| - 1];
    if i < |front| {
      HexBytesAt(front, i);
      assert HexBytes(d)[2 * i..2 * i + 2] == HexBytes(front)[2 * i..2 * i + 2];
    } else {
      assert HexBytes(d)[2 * i..2 * i + 2] == HexByte(d[|d| - 1]);
    }
  }

  lemma FieldByteOfHex(d: seq<byte>, i: nat)
    requires i < |d|
    ensures FieldByte(HexBytes(d), i) == d[i]
  {
    HexBytesAt(d, i);
    FieldByteIs(HexBytes(d), i, d[i]);
  }

  lemma FieldByteIs(field: string, i: nat, b: byte)
    requires 2 * i + 2 <= |field| && field[2 * i..2 * i + 2] == HexByte(b)
    ensures FieldByte(field, i) == b
  {
    ByteFieldAt(field, i * 2, b);
  }

  lemma SubstrSlice(s: string, start: nat, n: nat)
    requires 0 < n && start + n <= |s|
    ensures Substr(s, start, Num(n)) == s[start..start + n]
  {
  }

  /** The reader's field bytes of a data field are the bytes written. */
  lemma FieldBytesOfHex(d: seq<byte>)
    ensures FieldBytes(HexBytes(d), |d|) == d
  {
    forall i | 0 <= i < |d| ensures FieldBytes(HexBytes(d), |d|)[i] == d[i] {
      FieldByteOfHex(d, i);
    }
  }

  /** The data field read as one number, as a type-04 record is. */
  lemma ParseHexBytes(d: seq<byte>)
    ensures ParseInt(HexBytes(d), 16) == if d == [] then NaN else Num(BytesValue(d))
  {
    if d != [] {
      HexBytesDigits(d);
      ParseHexDigits(HexBytes(d));
      HexBytesValue(d);
    }
  }

  lemma ParseHexByte(b: byte)
    ensures ParseInt(HexByte(b), 16) == Num(b)
  {
    ParseHexDigits(HexByte(b));
    HexByteValue(b);
  }

  lemma ParseHex4(a: nat)
    requires a < 0x1_0000
    ensures ParseInt(Hex4(a), 16) == Num(a)
  {
    assert AllHexDigits(Hex4(a));
    ParseHexDigits(Hex4(a));
    Hex4Value(a);
  }

  // -----------------------------------------------------------------------
  // Reading a record line

  /** Where the fields of a record line lie. */
  lemma RecordLineSlices(address: nat, recordType: byte, data: seq<byte>, checksum: byte)
    requires address < 0x1_0000 && |data| < 256
    ensures var line := RecordLine(address, recordType, data, checksum);
      && |line| == 11 + 2 * |data|
      && line[..1] == ":"
      && line[1..3] == HexByte(|data|)
      && line[3..7] == Hex4(address)
      && line[7..9] == HexByte(recordType)
      && line[9..9 + 2 * |data|] == HexBytes(data)
  {
    PartsAt(":", HexByte(|data|), Hex4(address), HexByte(recordType), HexBytes(data), HexByte(checksum));
  }

  lemma PartsAt(colon: string, count: string, address: string, recordType: string, data: string, checksum: string)
    requires |colon| == 1 && |count| == 2 && |address| == 4 && |recordType| == 2
    ensures var line := colon + count + address + recordType + data + checksum;
      && line[..1] == colon
      && line[1..3] == count
      && line[3..7] == address
      && line[7..9] == recordType
      && line[9..9 + |data|] == data
  {
    var a := colon + count;
    var b := a + address;
    var c := b + recordType;
    var e := c + data;
    var line := e + checksum;
    assert line[..|e|] == e && e[..|c|] == c && c[..|b|] == b && b[..|a|] == a;
    assert line[..1] == a[..1];
    assert line[1..3] == a[1..3];
    assert line[3..7] == b[3..7];
    assert line[7..9] == c[7..9];
    assert line[9..9 + |data|] == e[9..];
  }

  /** The fields the reader cuts out of a record line are the fields
      written into it. */
  lemma FieldsAre(line: string, n: byte, address: nat, recordType: byte, field: string)
    requires address < 0x1_0000
    requires |line| >= 9 + 2 * n && line[..1] == ":"
    requires line[1..3] == HexByte(n)
    requires line[3..7] == Hex4(address)
    requires line[7..9] == HexByte(recordType)
    requires line[9..9 + 2 * n] == field
    ensures && StartsWith(line, ":")
      && ByteCountField(line) == Num(n)
      && AddressField(line) == Num(address)
      && RecordTypeField(line) == Num(recordType)
      && DataField(line, Num(n)) == field
  {
    ByteFieldAt(line, 1, n);
    AddressFieldOf(line, address);
    ByteFieldAt(line, 7, recordType);
    DataFieldOf(line, n, field);
  }

  lemma ByteFieldAt(line: string, start: nat, b: byte)
    requires start + 2 <= |line| && line[start..start + 2] == HexByte(b)
    ensures ParseInt(Substr(line, start, Num(2)), 16) == Num(b)
  {
    SubstrSlice(line, start, 2);
    ParseHexByte(b);
  }

  lemma AddressFieldOf(line: string, address: nat)
    requires address < 0x1_0000
    requires 7 <= |line| && line[3..7] == Hex4(address)
    ensures AddressField(line) == Num(address)
  {
    SubstrSlice(line, 3, 4);
    ParseHex4(address);
  }

  lemma DataFieldOf(line: string, n: nat, field: string)
    requires 9 + 2 * n <= |line| && line[9..9 + 2 * n] == field
    ensures DataField(line, Num(n)) == field
  {
    if n > 0 {
      SubstrSlice(line, 9, 2 * n);
    }
  }

  /** A record line is `:` followed by hex digits only. */
  lemma RecordLineChars(address: nat, recordType: byte, data: seq<byte>, checksum: byte)
    requires address < 0x1_0000 && |data| < 256
    ensures var line := RecordLine(address, recordType, data, checksum);
      && |line| == 11 + 2 * |data| && line[0] == ':'
      && forall i :: 1 <= i < |line| ==> IsDigit(line[i], 16)
  {
    var line := RecordLine(address, recordType, data, checksum);
    HexBytesDigits(data);
    var front := ":" + HexByte(|data|) + Hex4(address) + HexByte(recordType);
    assert line == front + HexBytes(data) + HexByte(checksum);
    forall i | 1 <= i < |line| ensures IsDigit(line[i], 16) {
      if i < 9 {
        assert line[i] == front[i];
      } else if i < 9 + 2 * |data| {
        assert line[i] == HexBytes(data)[i - 9];
      }
    }
  }

  lemma {:induction false} TrimStartPast(pre: string, s: string)
    requires forall i :: 0 <= i < |pre| ==> IsWhiteSpace(pre[i])
    requires s != [] && !IsWhiteSpace(s[0])
    ensures TrimStart(pre + s) == s
  {
    if pre == [] {
      assert pre + s == s;
    } else {
      assert (pre + s)[1..] == pre[1..] + s;
      TrimStartPast(pre[1..], s);
    }
  }

  lemma {:induction false} TrimEndPast(s: string, post: string)
    requires forall i :: 0 <= i < |post| ==> IsWhiteSpace(post[i])
    requires s != [] && !IsWhiteSpace(s[|s| - 1])
    ensures TrimEnd(s + post) == s
  {
    if post == [] {
      assert s + post == s;
    } else {
      var t := s + post;
      assert t[..|t| - 1] == s + post[..|post| - 1];
      TrimEndPast(s, post[..|post| - 1]);
    }
  }

  /** Trimming a line strips the white space around a record and nothing
      of the record. */
  lemma TrimRecordLine(pre: string, post: string, address: nat, recordType: byte, data: seq<byte>, checksum: byte)
    requires address < 0x1_0000 && |data| < 256
    requires forall i :: 0 <= i < |pre| ==> IsWhiteSpace(pre[i])
    requires forall i :: 0 <= i < |post| ==> IsWhiteSpace(post[i])
    ensures Trim(pre + RecordLine(address, recordType, data, checksum) + post)
      == RecordLine(address, recordType, data, checksum)
  {
    var line := RecordLine(address, recordType, data, checksum);
    RecordLineChars(address, recordType, data, checksum);
    assert IsDigit(line[|line| - 1], 16);
    assert pre + line + post == pre + (line + post);
    TrimStartPast(pre, line + post);
    TrimEndPast(line, post);
  }

  /** How the reader classifies the fields of a well-formed record. */
  lemma ClassifyRecord(address: nat, recordType: byte, data: seq<byte>)
    ensures Classify(Num(|data|), Num(address), Num(recordType), HexBytes(data)) ==
      if recordType == 0 then Data(Num(address), data)
      else if recordType == 1 then EndOfFile
      else if recordType == 4 then ExtendedLinearAddress(if data == [] then NaN else Num(BytesValue(data)))
      else OtherRecord(Num(recordType))
  {
    FieldBytesOfHex(data);
    ParseHexBytes(data);
    ClassifyFields(address, recordType, data, HexBytes(data),
      if data == [] then NaN else Num(BytesValue(data)));
  }

  lemma ClassifyFields(address: nat, recordType: byte, data: seq<byte>, field: string, value: JsNumber)
    requires FieldBytes(field, |data|) == data && ParseInt(field, 16) == value
    ensures Classify(Num(|data|), Num(address), Num(recordType), field) ==
      if recordType == 0 then Data(Num(address), data)
      else if recordType == 1 then EndOfFile
      else if recordType == 4 then ExtendedLinearAddress(value)
      else OtherRecord(Num(recordType))
  {
  }

  /** What the reader makes of a well-formed record line, with any white
      space around it: type 00 is the data at its offset, 01 the end of
      the file, 04 an extended address whose value is the data read as
      one number (NaN when the data is empty), and any other type a record
      that is ignored. */
  lemma DecodeRecordLine(pre: string, post: string, address: nat, recordType: byte, data: seq<byte>, checksum: byte)
    requires address < 0x1_0000 && |data| < 256
    requires forall i :: 0 <= i < |pre| ==> IsWhiteSpace(pre[i])
    requires forall i :: 0 <= i < |post| ==> IsWhiteSpace(post[i])
    ensures DecodeLine(pre + RecordLine(address, recordType, data, checksum) + post) ==
      if recordType == 0 then Data(Num(address), data)
      else if recordType == 1 then EndOfFile
      else if recordType == 4 then ExtendedLinearAddress(if data == [] then NaN else Num(BytesValue(data)))
      else OtherRecord(Num(recordType))
  {
    var line := RecordLine(address, recordType, data, checksum);
    TrimRecordLine(pre, post, address, recordType, data, checksum);
    RecordLineTrimmed(address, recordType, data, checksum);
    DecodeByTrim(pre + line + post, line);
    DecodeBare(address, recordType, data, checksum);
  }

  /** The reader looks at a line only through its trimmed form. */
  lemma DecodeByTrim(a: string, b: string)
    requires Trim(a) == Trim(b)
    ensures DecodeLine(a) == DecodeLine(b)
  {
  }

  lemma RecordLineTrimmed(address: nat, recordType: byte, data: seq<byte>, checksum: byte)
    requires address < 0x1_0000 && |data| < 256
    ensures Trim(RecordLine(address, recordType, data, checksum)) == RecordLine(address, recordType, data, checksum)
  {
    var line := RecordLine(address, recordType, data, checksum);
    RecordLineChars(address, recordType, data, checksum);
    assert IsDigit(line[|line| - 1], 16);
    TrimStartPast([], line);
    assert [] + line == line;
    TrimEndPast(line, []);
    assert line + [] == line;
  }

  /** The same for a record line with no white space around it. */
  lemma DecodeBare(address: nat, recordType: byte, data: seq<byte>, checksum: byte)
    requires address < 0x1_0000 && |data| < 256
    ensures DecodeLine(RecordLine(address, recordType, data, checksum)) ==
      if recordType == 0 then Data(Num(address), data)
      else if recordType == 1 then EndOfFile
      else if recordType == 4 then ExtendedLinearAddress(if data == [] then NaN else Num(BytesValue(data)))
      else OtherRecord(Num(recordType))
  {
    RecordLineTrimmed(address, recordType, data, checksum);
    RecordLineSlices(address, recordType, data, checksum);
    FieldsAre(RecordLine(address, recordType, data, checksum), |data|, address, recordType, HexBytes(data));
    ClassifyRecord(address, recordType, data);
  }

  // -----------------------------------------------------------------------
  // The image of the merge finding, as a HEX file

  /** Extended address 0x0801, one byte 0x11 at offset 0x0000, one byte
      0x22 at offset 0x2000, end of file; the checksums are the usual
      two's complements. */
  const FindingLines: seq<string> := [
    RecordLine(0x0000, 4, [0x08, 0x01], 0xF1),
    RecordLine(0x0000, 0, [0x11], 0xEE),
    RecordLine(0x2000, 0, [0x22], 0xBD),
    RecordLine(0x0000, 1, [], 0xFF)]

  const FindingHex: string := Join(FindingLines, '\n')

  /** The records of the finding's file, as the reader decodes them. */
  const FindingRecords: seq<Record> :=
    [ExtendedLinearAddress(Num(0x0801)), Data(Num(0x0000), [0x11]), Data(Num(0x2000), [0x22]), EndOfFile]

  lemma NoLineFeed(address: nat, recordType: byte, data: seq<byte>, checksum: byte)
    requires address < 0x1_0000 && |data| < 256
    ensures var line := RecordLine(address, recordType, data, checksum);
      '\n' !in line && line != [] && line[|line| - 1] != '\r'
  {
    var line := RecordLine(address, recordType, data, checksum);
    RecordLineChars(address, recordType, data, checksum);
    assert IsDigit(line[|line| - 1], 16);
  }

  lemma FindingLinesSplit()
    ensures SplitLines(FindingHex) == FindingLines
  {
    NoLineFeed(0x0000, 4, [0x08, 0x01], 0xF1);
    NoLineFeed(0x0000, 0, [0x11], 0xEE);
    NoLineFeed(0x2000, 0, [0x22], 0xBD);
    NoLineFeed(0x0000, 1, [], 0xFF);
    SplitLinesJoin(FindingLines);
  }

  lemma FindingLinesDecode()
    ensures Decoded(FindingLines) == FindingRecords
  {
    var lines := FindingLines;
    DecodedEach(lines);
    DecodeBare(0x0000, 4, [0x08, 0x01], 0xF1);
    assert BytesValue([0x08, 0x01]) == 0x0801 by {
      assert [0x08, 0x01][..1] == [0x08];
      assert [0x08][..0] == [];
    }
    DecodeBare(0x0000, 0, [0x11], 0xEE);
    DecodeBare(0x2000, 0, [0x22], 0xBD);
    DecodeBare(0x0000, 1, [], 0xFF);
  }

  lemma DecodedEach(lines: seq<string>)
    requires |lines| == 4
    ensures Decoded(lines) == [DecodeLine(lines[0]), DecodeLine(lines[1]), DecodeLine(lines[2]), DecodeLine(lines[3])]
  {
  }

  lemma FindingRecordsParse()
    ensures ParseFrom(FindingRecords, Initial) ==
      Ok([RawSegment(Num(0x0801_0000), [0x11]), RawSegment(Num(0x0801_2000), [0x22])])
  {
    var records := FindingRecords;
    assert ToInt32(Num(0x0801)) == 0x0801;
    assert ToInt32(Num(0x0801_0000)) == 0x0801_0000;
    var p1 := Step(records[0], Initial);
    assert p1 == Parser([], None, 0x0801_0000);
    var s1 := RawSegment(Num(0x0801_0000), [0x11]);
    var p2 := Step(records[1], p1);
    assert p2 == Parser([], Some(s1), 0x0801_0000);
    assert End(s1) == Num(0x0801_0001);
    var s2 := RawSegment(Num(0x0801_2000), [0x22]);
    var p3 := Step(records[2], p2);
    assert p3 == Parser([s1], Some(s2), 0x0801_0000);
    ParseFromNext(records, Initial);
    ParseFromNext(records[1..], p1);
    ParseFromNext(records[2..], p2);
    assert records[1..][1..] == records[2..] && records[2..][1..] == records[3..];
    assert records[3..] == [EndOfFile];
    assert ParseFrom(records[3..], p3) == Ok(Close(p3));
    assert Close(p3) == [s1, s2];
    assert ParseFrom(records, Initial) == ParseFrom(records[1..], p1);
    assert ParseFrom(records[1..], p1) == ParseFrom(records[2..], p2);
    assert ParseFrom(records[2..], p2) == ParseFrom(records[3..], p3);
  }

  /** The reader finds two one-byte segments in sector 4, 8 KB apart. */
  lemma FindingHexParses()
    ensures ParseHex(FindingHex) ==
      Ok([RawSegment(Num(0x0801_0000), [0x11]), RawSegment(Num(0x0801_2000), [0x22])])
  {
    FindingLinesSplit();
    FindingLinesDecode();
    FindingRecordsParse();
  }
}
