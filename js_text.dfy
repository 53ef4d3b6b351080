/** The few JavaScript string and number operations the firmware updater
    relies on, with the corner cases of the ECMAScript definitions written
    out: `parseInt` (leading white space, sign, `0x` prefix, longest digit
    prefix, NaN), `String.prototype.trim`, `split`, `substr`, the ToUint8
    store of a `Uint8Array` element, the signed 32-bit `<<` operator and
    ASCII case folding. Numbers are modelled as mathematical integers or
    NaN, so two edges of the JavaScript definitions are not captured: a
    `parseInt` result above 2^53 is not rounded to the nearest double, and
    strings are sequences of code points, where `substr` and `length`
    count UTF-16 code units. */
module JsText {
  import opened Wrappers

  type byte = x: int | 0 <= x < 256

  /** A JavaScript number as the updater sees it: an integer or NaN. */
  datatype JsNumber = NaN | Num(value: int)

  /** `x === y` on numbers: NaN equals nothing, not even itself. */
  predicate StrictEquals(x: JsNumber, y: JsNumber) {
    x.Num? && y.Num? && x.value == y.value
  }

  /** `x + k` for an integer `k`. */
  function Add(x: JsNumber, k: int): JsNumber {
    match x
    case NaN => NaN
    case Num(v) => Num(v + k)
  }

  // ---------------------------------------------------------------------
  // White space and trimming

  /** ECMAScript WhiteSpace and LineTerminator code points, the set that
      `trim` and `parseInt` strip. */
  predicate IsWhiteSpace(c: char) {
    || c == '\t' || c == '\n' || c == '\U{000B}' || c == '\U{000C}' || c == '\r'
    || c == ' ' || c == '\U{00A0}' || c == '\U{1680}'
    || ('\U{2000}' <= c <= '\U{200A}')
    || c == '\U{2028}' || c == '\U{2029}' || c == '\U{202F}' || c == '\U{205F}'
    || c == '\U{3000}' || c == '\U{FEFF}'
  }

  function TrimStart(s: string): (r: string)
    ensures |r| <= |s|
  {
    if s != [] && IsWhiteSpace(s[0]) then TrimStart(s[1..]) else s
  }

  /** TrimStart removes the leading white space and nothing else. */
  lemma {:induction false} TrimStartStrips(s: string)
    ensures TrimStart(s) == s[|s| - |TrimStart(s)|..]
    ensures TrimStart(s) == [] || !IsWhiteSpace(TrimStart(s)[0])
    ensures forall i :: 0 <= i < |s| - |TrimStart(s)| ==> IsWhiteSpace(s[i])
  {
    if s != [] && IsWhiteSpace(s[0]) {
      TrimStartStrips(s[1..]);
    }
  }

  function TrimEnd(s: string): (r: string)
    ensures |r| <= |s|
  {
    if s != [] && IsWhiteSpace(s[|s| - 1]) then TrimEnd(s[..|s| - 1]) else s
  }

  /** TrimEnd removes the trailing white space and nothing else. */
  lemma {:induction false} TrimEndStrips(s: string)
    ensures TrimEnd(s) == s[..|TrimEnd(s)|]
    ensures TrimEnd(s) == [] || !IsWhiteSpace(TrimEnd(s)[|TrimEnd(s)| - 1])
    ensures forall i :: |TrimEnd(s)| <= i < |s| ==> IsWhiteSpace(s[i])
  {
    if s != [] && IsWhiteSpace(s[|s| - 1]) {
      TrimEndStrips(s[..|s| - 1]);
    }
  }

  /** `s.trim()` */
  function Trim(s: string): (r: string)
    ensures |r| <= |s|
  {
    TrimEnd(TrimStart(s))
  }

  /** A trimmed string neither starts nor ends with white space, and it
      is a piece of the original. */
  lemma TrimStrips(s: string)
    ensures Trim(s) == [] || (!IsWhiteSpace(Trim(s)[0]) && !IsWhiteSpace(Trim(s)[|Trim(s)| - 1]))
    ensures forall i :: 0 <= i < |Trim(s)| ==> Trim(s)[i] == s[|s| - |TrimStart(s)| + i]
  {
    TrimStartStrips(s);
    TrimEndStrips(TrimStart(s));
  }

  // ---------------------------------------------------------------------
  // Splitting into lines

  /** `s.split(sep)` for a one-character separator. */
  function Split(s: string, sep: char): (parts: seq<string>)
    ensures |parts| >= 1
  {
    if s == [] then [""]
    else
      var rest := Split(s[1..], sep);
      if s[0] == sep then [""] + rest else [[s[0]] + rest[0]] + rest[1..]
  }

  /** No part contains the separator. */
  lemma {:induction false} SplitPartsFree(s: string, sep: char)
    ensures forall i :: 0 <= i < |Split(s, sep)| ==> sep !in Split(s, sep)[i]
  {
    if s != [] {
      SplitPartsFree(s[1..], sep);
    }
  }

  /** The inverse of Split: the parts joined with the separator. */
  function Join(parts: seq<string>, sep: char): string
    requires |parts| >= 1
  {
    if |parts| == 1 then parts[0] else parts[0] + [sep] + Join(parts[1..], sep)
  }

  /** Splitting and joining again gives back the text. */
  lemma {:induction false} JoinSplit(s: string, sep: char)
    ensures Join(Split(s, sep), sep) == s
  {
    if s != [] {
      JoinSplit(s[1..], sep);
      var rest := Split(s[1..], sep);
      if s[0] != sep {
        if |rest| > 1 {
          assert Join([[s[0]] + rest[0]] + rest[1..], sep)
              == [s[0]] + rest[0] + [sep] + Join(rest[1..], sep);
        }
      }
    }
  }

  /** Text free of the separator, put in front of `s`, extends the first
      part of the split. */
  lemma {:induction false} SplitPrefix(a: string, s: string, sep: char)
    requires sep !in a
    ensures Split(a + s, sep) == [a + Split(s, sep)[0]] + Split(s, sep)[1..]
  {
    var parts := Split(s, sep);
    if a == [] {
      assert a + s == s && a + parts[0] == parts[0];
      assert parts == [parts[0]] + parts[1..];
    } else {
      assert (a + s)[0] == a[0] && (a + s)[1..] == a[1..] + s;
      SplitPrefix(a[1..], s, sep);
      var rest := Split(a[1..] + s, sep);
      assert rest[0] == a[1..] + parts[0] && rest[1..] == parts[1..];
      assert [a[0]] + (a[1..] + parts[0]) == a + parts[0];
    }
  }

  /** Joining parts free of the separator and splitting again gives back
      the parts: with JoinSplit, Split and Join are inverse. */
  lemma {:induction false} SplitJoin(parts: seq<string>, sep: char)
    requires |parts| >= 1
    requires forall i :: 0 <= i < |parts| ==> sep !in parts[i]
    ensures Split(Join(parts, sep), sep) == parts
  {
    if |parts| == 1 {
      SplitPrefix(parts[0], "", sep);
      assert parts[0] + "" == parts[0];
      assert Split("", sep) == [""];
      assert Join(parts, sep) == parts[0];
      assert [parts[0] + ""] + [""][1..] == parts;
    } else {
      SplitJoin(parts[1..], sep);
      var rest := Join(parts[1..], sep);
      var after := Split([sep] + rest, sep);
      assert ([sep] + rest)[0] == sep && ([sep] + rest)[1..] == rest;
      assert after == [""] + Split(rest, sep);
      assert after[0] == "" && after[1..] == parts[1..];
      SplitPrefix(parts[0], [sep] + rest, sep);
      assert parts[0] + after[0] == parts[0];
      assert parts[0] + [sep] + rest == parts[0] + ([sep] + rest);
      assert parts == [parts[0]] + parts[1..];
    }
  }

  /** A piece of text with one trailing carriage return removed. */
  function DropCarriageReturn(line: string): string {
    if line != [] && line[|line| - 1] == '\r' then line[..|line| - 1] else line
  }

  /** `s.split(/\r?\n/)`: split at every line feed, and drop a carriage
      return that immediately precedes a line feed (every piece but the
      last ends just before one). */
  function SplitLines(s: string): (lines: seq<string>)
    ensures |lines| == |Split(s, '\n')| >= 1
  {
    var parts := Split(s, '\n');
    seq(|parts|, i requires 0 <= i < |parts| =>
      if i < |parts| - 1 then DropCarriageReturn(parts[i]) else parts[i])
  }

  /** Lines free of line feeds and of trailing carriage returns, joined
      with line feeds, are split back into the same lines. */
  lemma SplitLinesJoin(lines: seq<string>)
    requires |lines| >= 1
    requires forall i :: 0 <= i < |lines| ==> '\n' !in lines[i]
    requires forall i :: 0 <= i < |lines| ==> lines[i] == [] || lines[i][|lines[i]| - 1] != '\r'
    ensures SplitLines(Join(lines, '\n')) == lines
  {
    SplitJoin(lines, '\n');
  }

  // ---------------------------------------------------------------------
  // substr

  /** `s.substr(start, length)` for a non-negative start. A length that is
      NaN counts as 0, a negative one gives the empty string. */
  function Substr(s: string, start: nat, length: JsNumber): (r: string)
    ensures |r| <= |s|
  {
    var n := if length.NaN? then 0 else length.value;
    if start >= |s| || n <= 0 then ""
    else if start + n <= |s| then s[start..start + n]
    else s[start..]
  }

  // ---------------------------------------------------------------------
  // parseInt

  predicate IsDigit(c: char, radix: int) {
    if radix == 16 then ('0' <= c <= '9') || ('a' <= c <= 'f') || ('A' <= c <= 'F')
    else '0' <= c <= '9'
  }

  function DigitValue(c: char): (d: nat)
    ensures d < 16
  {
    if '0' <= c <= '9' then c as int - '0' as int
    else if 'a' <= c <= 'f' then c as int - 'a' as int + 10
    else if 'A' <= c <= 'F' then c as int - 'A' as int + 10
    else 0
  }

  /** Number of leading characters of `s` that are digits in `radix`. */
  function DigitPrefixLength(s: string, radix: int): (n: nat)
    ensures n <= |s|
  {
    if s != [] && IsDigit(s[0], radix) then 1 + DigitPrefixLength(s[1..], radix) else 0
  }

  /** The digit prefix is the longest run of digits at the front. */
  lemma {:induction false} DigitPrefixLongest(s: string, radix: int)
    ensures forall i :: 0 <= i < DigitPrefixLength(s, radix) ==> IsDigit(s[i], radix)
    ensures DigitPrefixLength(s, radix) < |s| ==> !IsDigit(s[DigitPrefixLength(s, radix)], radix)
  {
    if s != [] && IsDigit(s[0], radix) {
      DigitPrefixLongest(s[1..], radix);
      forall i | 0 < i < DigitPrefixLength(s, radix) ensures IsDigit(s[i], radix) {
        assert s[i] == s[1..][i - 1];
      }
    }
  }

  /** The value of a digit string, most significant digit first. */
  function DigitsValue(s: string, radix: nat): nat {
    if s == [] then 0 else DigitsValue(s[..|s| - 1], radix) * radix + DigitValue(s[|s| - 1])
  }

  /** `parseInt(s, radix)` for radix 10 or 16. */
  function ParseInt(s: string, radix: nat): JsNumber
    requires radix == 10 || radix == 16
  {
    var t := TrimStart(s);
    var negative := t != [] && t[0] == '-';
    var u := if t != [] && (t[0] == '-' || t[0] == '+') then t[1..] else t;
    var w := if radix == 16 && |u| >= 2 && u[0] == '0' && (u[1] == 'x' || u[1] == 'X')
             then u[2..] else u;
    var n := DigitPrefixLength(w, radix);
    var magnitude: int := DigitsValue(w[..n], radix);
    if n == 0 then NaN else Num(if negative then -magnitude else magnitude)
  }

  // ---------------------------------------------------------------------
  // Number conversions

  /** The ToUint8 conversion a `Uint8Array` element store performs. */
  function ToUint8(x: JsNumber): byte {
    match x
    case NaN => 0
    case Num(v) => v % 256
  }

  /** ToInt32: NaN becomes 0, everything else wraps to a signed 32-bit value. */
  function ToInt32(x: JsNumber): (r: int)
    ensures -0x8000_0000 <= r < 0x8000_0000
    ensures x.NaN? ==> r == 0
    ensures x.Num? ==> (x.value - r) % 0x1_0000_0000 == 0
    ensures x.Num? && -0x8000_0000 <= x.value < 0x8000_0000 ==> r == x.value
  {
    match x
    case NaN => 0
    case Num(v) =>
      var m := v % 0x1_0000_0000;
      if m < 0x8000_0000 then m else m - 0x1_0000_0000
  }

  /** `x << 16`: a signed 32-bit shift. The result is the operand's
      32-bit value times 65536, wrapped into the signed 32-bit range. */
  function ShiftLeft16(x: JsNumber): (r: int)
    ensures -0x8000_0000 <= r < 0x8000_0000
    ensures x.NaN? ==> r == 0
    ensures (ToInt32(x) * 0x1_0000 - r) % 0x1_0000_0000 == 0
  {
    ToInt32(Num(ToInt32(x) * 0x1_0000))
  }

  // ---------------------------------------------------------------------
  // Case folding and searching

  /** JavaScript truthiness of a string that may be missing: present and
      not empty. */
  predicate Truthy(s: Option<string>) {
    s.Some? && s.value != ""
  }

  function ToLowerAscii(s: string): (r: string)
    ensures |r| == |s|
  {
    seq(|s|, i requires 0 <= i < |s| =>
      if 'A' <= s[i] <= 'Z' then (s[i] as int + 32) as char else s[i])
  }

  predicate StartsWith(s: string, prefix: string) {
    |prefix| <= |s| && s[..|prefix|] == prefix
  }

  predicate EndsWith(s: string, suffix: string) {
    |suffix| <= |s| && s[|s| - |suffix|..] == suffix
  }

  predicate Includes(s: string, part: string) {
    exists i :: 0 <= i <= |s| && StartsWith(s[i..], part)
  }
}
