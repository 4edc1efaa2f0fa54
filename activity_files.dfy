// The activity-file writer: fixed-width base-36 fields, the file-name rule,
// the 39-byte "NC" record, and the write-to-temp, move, save-counter sequence
// that publishes one file per batch of audit entries.
module ActivityFiles {
  import opened Common
  import Positional
  import opened Calendar
  import opened Utf8
  import opened Models
  import opened Counters

  // ---------------------------------------------------------------------
  // Base 36

  const Alphabet: string := "0123456789ABCDEFGHIJKLMNOPQRSTUVWXYZ"

  predicate IsBase36Char(c: char) {
    '0' <= c <= '9' || 'A' <= c <= 'Z'
  }

  function Base36Digit(c: char): (d: nat)
    requires IsBase36Char(c)
    ensures d < 36
  {
    if c <= '9' then c as int - '0' as int else c as int - 'A' as int + 10
  }

  lemma AlphabetDigits()
    ensures |Alphabet| == 36
    ensures forall d :: 0 <= d < 36 ==> IsBase36Char(Alphabet[d]) && Base36Digit(Alphabet[d]) == d
  {
  }

  lemma AlphabetOfDigit(c: char)
    requires IsBase36Char(c)
    ensures Alphabet[Base36Digit(c)] == c
  {
    AlphabetDigits();
    var d := Base36Digit(c);
    assert Base36Digit(Alphabet[d]) == d;
  }

  function Append(r: Result<string>, suffix: string): Result<string> {
    match r
    case Failure(e) => Failure(e)
    case Success(s) => Success(s + suffix)
  }

  lemma AppendAppend(r: Result<string>, a: string, b: string)
    ensures Append(r, []) == r
    ensures Append(Append(r, a), b) == Append(r, a + b)
  {
    if r.Success? {
      assert r.value + [] == r.value;
      assert r.value + a + b == r.value + (a + b);
    }
  }

  lemma AppendToEmpty(r: Result<string>, s: string)
    requires r == Success("")
    ensures Append(r, s) == Success(s)
  {
    assert "" + s == s;
  }

  /** What `ConvertToBase36(value, length)` returns, or the exception it
      raises: from the right, each position takes the character of C#'s
      `value % 36` and `value` is divided by 36 with truncation; a negative
      remainder indexes the alphabet out of range. */
  function Base36(value: int, length: int): (r: Result<string>)
    decreases if length < 0 then 0 else length
    ensures r.Success? ==> |r.value| == length
    ensures r.Failure? ==> r.error == if length < 0 then Overflow else IndexOutOfRange
    ensures value >= 0 && length >= 0 ==> r.Success?
  {
    if length < 0 then Failure(Overflow)
    else if length == 0 then Success("")
    else
      var rem := CsRem(value, 36);
      if rem < 0 then Failure(IndexOutOfRange)
      else Append(Base36(CsDiv(value, 36), length - 1), [Alphabet[rem]])
  }

  /** The characters of a digit sequence. */
  function Base36Text(ds: seq<nat>): (s: string)
    requires Positional.DigitsBelow(ds, 36)
    ensures |s| == |ds|
  {
    seq(|ds|, i requires 0 <= i < |ds| => Alphabet[ds[i]])
  }

  /** The number a string of base-36 characters denotes. */
  function Base36Value(s: string): nat
    requires forall i :: 0 <= i < |s| ==> IsBase36Char(s[i])
  {
    Positional.Value(seq(|s|, i requires 0 <= i < |s| => Base36Digit(s[i])), 36)
  }

  lemma {:induction false} Base36OfNat(v: nat, w: nat)
    ensures Base36(v, w) == Success(Base36Text(Positional.Digits(v, w, 36)))
  {
    if w > 0 {
      Base36OfNat(v / 36, w - 1);
      var ds := Positional.Digits(v / 36, w - 1, 36);
      assert Positional.Digits(v, w, 36) == ds + [v % 36];
      assert Base36Text(ds + [v % 36]) == Base36Text(ds) + [Alphabet[v % 36]];
    }
  }

  /** A non-negative value gives exactly `length` characters of the alphabet,
      most significant first, and they denote the value modulo 36^length:
      a value that does not fit loses its high digits. */
  lemma Base36NonNegative(v: nat, w: nat)
    ensures Base36(v, w).Success?
    ensures |Base36(v, w).value| == w
    ensures forall i :: 0 <= i < w ==> IsBase36Char(Base36(v, w).value[i])
    ensures Base36Value(Base36(v, w).value) == v % Positional.Pow(36, w)
  {
    Base36OfNat(v, w);
    AlphabetDigits();
    var ds := Positional.Digits(v, w, 36);
    var s := Base36Text(ds);
    assert seq(|s|, i requires 0 <= i < |s| => Base36Digit(s[i])) == ds;
    Positional.ValueOfDigits(v, w, 36);
  }

  /** Values that agree modulo 36^length are written the same way. */
  lemma Base36Truncates(v: nat, w: nat)
    ensures Base36(v, w) == Base36(v % Positional.Pow(36, w), w)
  {
    Base36OfNat(v, w);
    Base36OfNat(v % Positional.Pow(36, w), w);
    Positional.DigitsMod(v, w, 36);
  }

  /** Every string of base-36 characters is what its own value is written as. */
  lemma Base36OfValue(s: string)
    requires forall i :: 0 <= i < |s| ==> IsBase36Char(s[i])
    ensures Base36(Base36Value(s), |s|) == Success(s)
  {
    var ds := seq(|s|, i requires 0 <= i < |s| => Base36Digit(s[i]));
    Positional.DigitsOfValue(ds, 36);
    Base36OfNat(Base36Value(s), |s|);
    assert Base36Text(ds) == s by {
      forall i | 0 <= i < |s| ensures Base36Text(ds)[i] == s[i] {
        AlphabetOfDigit(s[i]);
      }
    }
  }

  /** `n` copies of the digit '0'. */
  function ZeroDigits(n: nat): (s: string)
    ensures |s| == n
  {
    seq(n, _ => '0')
  }

  /** A value at or below zero is written as zeros when it is a multiple of
      36^length, and otherwise indexes the alphabet with a negative remainder. */
  lemma {:induction false} Base36NonPositive(v: int, w: nat)
    requires v <= 0
    decreases w
    ensures Base36(v, w)
      == if (0 - v) % Positional.Pow(36, w) == 0 then Success(ZeroDigits(w)) else Failure(IndexOutOfRange)
  {
    if w > 0 {
      var m: nat := 0 - v;
      var p := Positional.Pow(36, w - 1);
      assert CsRem(v, 36) == 0 - m % 36;
      assert CsDiv(v, 36) == 0 - m / 36;
      Positional.DivModCompose(m, 36, p);
      assert Positional.Pow(36, w) == p * 36;
      if m % 36 == 0 {
        Base36NonPositive(0 - m / 36, w - 1);
        assert ZeroDigits(w - 1) + [Alphabet[0]] == ZeroDigits(w);
      }
    }
  }

  /** The counter after 2^31 - 1 wraps to the most negative int, which the
      four-character field cannot write. */
  lemma Base36WrappedCounter()
    ensures Base36(Increment(INT32_MAX as int32), 4) == Failure(IndexOutOfRange)
  {
    Base36NonPositive(INT32_MIN, 4);
    assert Positional.Pow(36, 4) == 1679616;
  }

  // ---------------------------------------------------------------------
  // File names and paths

  /** `$"S{site}{ConvertToBase36(daysSince1987, 3)}{ConvertToBase36(counter + 1, 4)}.BIN"`,
      with the counter incremented in unchecked int arithmetic. */
  function FileName(site: string, daysSince1987: int, counter: int32): (r: Result<string>)
    ensures r.Success? ==> |r.value| == |site| + 12
    ensures daysSince1987 >= 0 && -1 <= counter < INT32_MAX ==> r.Success?
  {
    match Base36(daysSince1987, 3)
    case Failure(e) => Failure(e)
    case Success(days) =>
      match Base36(Increment(counter), 4)
      case Failure(e) => Failure(e)
      case Success(count) => Success("S" + site + days + count + ".BIN")
  }

  /** Where the parts of a name sit. */
  lemma NameParts(site: string, days: string, count: string)
    requires |days| == 3 && |count| == 4
    requires forall i :: 0 <= i < 3 ==> IsBase36Char(days[i])
    requires forall i :: 0 <= i < 4 ==> IsBase36Char(count[i])
    ensures var name := "S" + site + days + count + ".BIN";
      |name| == |site| + 12
      && name[..|site| + 1] == "S" + site
      && name[|site| + 1..|site| + 4] == days
      && name[|site| + 4..|site| + 8] == count
      && name[|site| + 8..] == ".BIN"
      && name[..|site| + 4] == "S" + site + days
      && (forall i :: |site| + 1 <= i < |site| + 8 ==> IsBase36Char(name[i]))
  {
    var name := "S" + site + days + count + ".BIN";
    forall i | |site| + 1 <= i < |site| + 8 ensures IsBase36Char(name[i]) {
      if i < |site| + 4 { assert name[i] == days[i - |site| - 1]; }
      else { assert name[i] == count[i - |site| - 4]; }
    }
  }

  /** From 1987 on and below the largest counter, the name is 'S', the site,
      three characters of date and four of counter, then ".BIN". */
  lemma FileNameLayout(site: string, days: int, counter: int32)
    requires 0 <= days && 0 <= counter < INT32_MAX
    ensures FileName(site, days, counter).Success?
    ensures var name := FileName(site, days, counter).value;
      |name| == |site| + 12
      && name[..|site| + 1] == "S" + site
      && (forall i :: |site| + 1 <= i < |site| + 8 ==> IsBase36Char(name[i]))
      && Base36Value(name[|site| + 1..|site| + 4]) == days % Positional.Pow(36, 3)
      && Base36Value(name[|site| + 4..|site| + 8]) == (counter + 1) % Positional.Pow(36, 4)
      && name[|site| + 8..] == ".BIN"
  {
    Base36NonNegative(days, 3);
    Base36NonNegative(counter + 1, 4);
    var d, c := Base36(days, 3).value, Base36(counter + 1, 4).value;
    NameParts(site, d, c);
  }

  /** Two batches of the same day with consecutive counters get names that
      differ only in the four counter characters before ".BIN". */
  lemma ConsecutiveFileNames(site: string, days: int, n: int32)
    requires 0 <= days && 0 <= n && n + 1 < INT32_MAX
    ensures FileName(site, days, n).Success? && FileName(site, days, n + 1).Success?
    ensures var a, b := FileName(site, days, n).value, FileName(site, days, n + 1).value;
      |a| == |b| == |site| + 12
      && a[..|a| - 8] == b[..|b| - 8]
      && a[|a| - 4..] == b[|b| - 4..]
      && a[|a| - 8..|a| - 4] != b[|b| - 8..|b| - 4]
  {
    Base36NonNegative(days, 3);
    Base36NonNegative(n + 1, 4);
    Base36NonNegative(n + 2, 4);
    var d, ca, cb := Base36(days, 3).value, Base36(n + 1, 4).value, Base36(n + 2, 4).value;
    assert ca != cb by {
      Positional.ModSuccessor(n + 1, Positional.Pow(36, 4));
    }
    NameParts(site, d, ca);
    NameParts(site, d, cb);
  }

  /** The largest counter gives no name at all: the writer raises. */
  lemma FileNameAtLargestCounter(site: string, days: int)
    requires 0 <= days
    ensures FileName(site, days, INT32_MAX as int32) == Failure(IndexOutOfRange)
  {
    Base36NonNegative(days, 3);
    Base36WrappedCounter();
  }

  predicate EndsInBin(name: string) {
    |name| >= 4 && name[|name| - 4..] == ".BIN"
  }

  /** Every name the rule builds ends in ".BIN". */
  lemma FileNameEndsInBin(site: string, days: int, counter: int32)
    ensures FileName(site, days, counter).Success? ==> EndsInBin(FileName(site, days, counter).value)
  {
    if FileName(site, days, counter).Success? {
      var name := FileName(site, days, counter).value;
      var prefix := "S" + site + Base36(days, 3).value + Base36(Increment(counter), 4).value;
      assert name == prefix + ".BIN";
      assert name[|name| - 4..] == name[|prefix|..];
    }
  }

  /** `Path.Combine(directory, name)` with '/' as the separator. */
  function Combine(directory: string, name: string): (path: string)
    ensures |name| <= |path| && path[|path| - |name|..] == name
  {
    if |name| > 0 && name[0] == '/' then name
    else if directory == [] then name
    else if directory[|directory| - 1] == '/' then directory + name
    else directory + "/" + name
  }

  function TempPath(options: ActivityFileOptions, fileName: string): string {
    Combine(options.tempPath, fileName + ".tmp")
  }

  function FinalPath(options: ActivityFileOptions, fileName: string): string {
    Combine(options.outputPath, fileName)
  }

  /** A batch's temporary file never has the path of any published file. */
  lemma TempPathIsNoFinalPath(options: ActivityFileOptions, fileName: string, other: string)
    requires EndsInBin(other)
    ensures TempPath(options, fileName) != FinalPath(options, other)
  {
    var t, f := TempPath(options, fileName), FinalPath(options, other);
    var tn := fileName + ".tmp";
    assert tn[|tn| - 4..] == ".tmp";
    assert t[|t| - 4..] == tn[|tn| - 4..] by {
      assert t[|t| - |tn|..] == tn;
    }
    assert f[|f| - 4..] == other[|other| - 4..] by {
      assert f[|f| - |other|..] == other;
    }
  }

  // ---------------------------------------------------------------------
  // The NC record

  /** What `Encoding.ASCII` writes for one character: its code when it is
      ASCII, otherwise one '?' per UTF-16 unit (two for a surrogate pair). */
  function AsciiCharBytes(c: char): seq<byte> {
    if IsAsciiChar(c) then [c as int] else seq(Utf16Units(c), _ => '?' as int)
  }

  /** `Encoding.ASCII.GetBytes(s)`: one byte per UTF-16 unit of `s`. */
  function AsciiBytes(s: string): (bs: seq<byte>)
    ensures |bs| == Utf16Length(s)
  {
    if s == [] then [] else AsciiCharBytes(s[0]) + AsciiBytes(s[1..])
  }

  /** `s.PadRight(width, ' ')`: spaces up to `width` UTF-16 units; a longer
      string is kept whole. */
  function PadRight(s: string, width: nat): string {
    s + seq(if Utf16Length(s) < width then width - Utf16Length(s) else 0, _ => ' ')
  }

  /** `GetExchangeNature(auditType)`. */
  function GetExchangeNature(auditType: string): byte {
    match auditType
    case "TIME" => 1
    case "MANIFEST" => 2
    case "DOWNLOAD" => 3
    case "CONFIRM" => 4
    case _ => 0
  }

  /** The four file and parameter transfer flags. */
  function TransferFlags(auditType: string): seq<byte> {
    var f := if auditType == "DOWNLOAD" then 1 else 0;
    [f, f, 0, 0]
  }

  function BigEndian16(n: int): seq<byte>
    requires 0 <= n < 0x1_0000
  {
    [n / 0x100, n % 0x100]
  }

  /** The length every record announces: its size without the tag and the length. */
  const RecordLength: nat := 35

  /** The bytes `WriteNCRecord` appends for one entry. */
  function NCRecord(e: AuditEntry): seq<byte> {
    var t := e.timestamp;
    AsciiBytes("NC") + BigEndian16(RecordLength)
    + BigEndian16(t.year) + [t.month, t.day]
    + [t.hour, t.minute, t.second]
    + [0, 0]
    + AsciiBytes(PadRight(e.deviceId, 19))
    + [1, GetExchangeNature(e.auditType), 0]
    + TransferFlags(e.auditType)
  }

  /** The bytes `record` gives each element, laid end to end in order. */
  function Concat<T>(record: T -> seq<byte>, xs: seq<T>): seq<byte> {
    if xs == [] then [] else Concat(record, xs[..|xs| - 1]) + record(xs[|xs| - 1])
  }

  /** The bytes of a record before the device id. */
  function NCHead(t: DateTime): seq<byte> {
    AsciiBytes("NC") + BigEndian16(RecordLength)
    + BigEndian16(t.year) + [t.month, t.day]
    + [t.hour, t.minute, t.second]
    + [0, 0]
  }

  /** A record is its head, the padded id, then the exchange. */
  lemma NCRecordParts(e: AuditEntry)
    ensures NCRecord(e) == NCHead(e.timestamp) + AsciiBytes(PadRight(e.deviceId, 19))
      + ([1, GetExchangeNature(e.auditType), 0] + TransferFlags(e.auditType))
  {
  }

  lemma NCHeadLayout(t: DateTime)
    ensures var h := NCHead(t);
      |h| == 13
      && h[..2] == ['N' as int, 'C' as int]
      && h[2] as int * 0x100 + h[3] == RecordLength
      && h[4] as int * 0x100 + h[5] == t.year && h[6] == t.month && h[7] == t.day
      && h[8] == t.hour && h[9] == t.minute && h[10] == t.second
      && h[11] == 0 && h[12] == 0
  {
    assert AsciiBytes("NC") == ['N' as int, 'C' as int];
  }

  lemma HeadAppended(start: seq<byte>, t: DateTime)
    ensures start + AsciiBytes("NC") + BigEndian16(RecordLength) + BigEndian16(t.year) + [t.month, t.day]
      + [t.hour, t.minute, t.second] + [0, 0] == start + NCHead(t)
  {
  }

  lemma AppendedInOrder<T>(s: seq<T>, h: seq<T>, i: seq<T>, x: seq<T>, y: seq<T>)
    ensures s + h + i + x + y == s + (h + i + (x + y))
  {
  }

  /** The activity file of a batch: one record per entry, in entry order. */
  function FileBytes(entries: seq<AuditEntry>): seq<byte> {
    Concat(NCRecord, entries)
  }

  /** Known audit types get distinct non-zero natures, and only they get one. */
  lemma ExchangeNatures(a: string, b: string)
    ensures GetExchangeNature(a) != 0 <==> a in {"TIME", "MANIFEST", "DOWNLOAD", "CONFIRM"}
    ensures GetExchangeNature(a) != 0 && a != b ==> GetExchangeNature(a) != GetExchangeNature(b)
  {
  }

  /** The transfer flags are set exactly for the download nature. */
  lemma FlagsFollowNature(auditType: string)
    ensures TransferFlags(auditType) == if GetExchangeNature(auditType) == 3 then [1, 1, 0, 0] else [0, 0, 0, 0]
  {
  }

  /** On ASCII text the ASCII encoder and the UTF-8 encoder agree. */
  lemma {:induction false} AsciiBytesOfAscii(s: string)
    requires IsAscii(s)
    ensures AsciiBytes(s) == Encode(s)
  {
    if s != [] {
      assert IsAscii(s[1..]) by {
        forall i | 0 <= i < |s[1..]| ensures IsAsciiChar(s[1..][i]) {
          assert s[1..][i] == s[i + 1];
        }
      }
      AsciiBytesOfAscii(s[1..]);
    }
  }

  lemma {:induction false} AsciiBytesAppend(a: string, b: string)
    ensures AsciiBytes(a + b) == AsciiBytes(a) + AsciiBytes(b)
  {
    if a == [] {
      assert a + b == b;
    } else {
      assert (a + b)[1..] == a[1..] + b;
      AsciiBytesAppend(a[1..], b);
    }
  }

  /** `n` spaces are `n` UTF-16 units and `n` space bytes. */
  lemma {:induction false} AsciiSpaces(n: nat)
    ensures AsciiBytes(seq(n, _ => ' ')) == seq(n, _ => ' ' as int)
  {
    if n > 0 {
      var sp := seq(n, _ => ' ');
      assert sp[1..] == seq(n - 1, _ => ' ');
      AsciiSpaces(n - 1);
    }
  }

  /** A padded field is the text's own bytes followed by one space byte for
      each unit it falls short of `width`, and is never shorter than `width`. */
  lemma PadRightBytes(s: string, width: nat)
    ensures var pad := if Utf16Length(s) < width then width - Utf16Length(s) else 0;
      AsciiBytes(PadRight(s, width)) == AsciiBytes(s) + seq(pad, _ => ' ' as int)
    ensures Utf16Length(PadRight(s, width)) == if Utf16Length(s) < width then width else Utf16Length(s)
  {
    var pad := if Utf16Length(s) < width then width - Utf16Length(s) else 0;
    AsciiBytesAppend(s, seq(pad, _ => ' '));
    AsciiSpaces(pad);
  }

  /** Where each field sits in a record; `k` is the padded device id's length
      in UTF-16 units. */
  lemma NCRecordLayout(e: AuditEntry)
    ensures var r, k, t := NCRecord(e), Utf16Length(PadRight(e.deviceId, 19)), e.timestamp;
      |r| == 20 + k
      && r[..2] == ['N' as int, 'C' as int]
      && r[2] as int * 0x100 + r[3] == RecordLength
      && r[4] as int * 0x100 + r[5] == t.year && r[6] == t.month && r[7] == t.day
      && r[8] == t.hour && r[9] == t.minute && r[10] == t.second
      && r[11] == 0 && r[12] == 0
      && r[13..13 + k] == AsciiBytes(PadRight(e.deviceId, 19))
      && r[13 + k] == 1 && r[14 + k] == GetExchangeNature(e.auditType) && r[15 + k] == 0
      && r[16 + k..] == TransferFlags(e.auditType)
  {
    var t := e.timestamp;
    var h, id, x := NCHead(t), AsciiBytes(PadRight(e.deviceId, 19)), [1, GetExchangeNature(e.auditType), 0] + TransferFlags(e.auditType);
    NCRecordParts(e);
    NCHeadLayout(t);
    var r := NCRecord(e);
    assert r == h + id + x;
    assert r[13..13 + |id|] == id;
    assert r[13 + |id|..] == x;
  }

  /** The record is 39 bytes exactly when the device id has at most 19 UTF-16
      units, a longer id is kept whole, the id's bytes are followed by space
      padding, and the announced length matches the record only in the 39-byte
      case. */
  lemma NCRecordLength(e: AuditEntry)
    ensures var n := Utf16Length(e.deviceId);
      |NCRecord(e)| == 20 + (if n <= 19 then 19 else n)
    ensures var n := Utf16Length(e.deviceId);
      NCRecord(e)[13..13 + n] == AsciiBytes(e.deviceId)
      && NCRecord(e)[13 + n..13 + (if n <= 19 then 19 else n)] == seq(if n <= 19 then 19 - n else 0, _ => ' ' as int)
    ensures RecordLength + 4 == |NCRecord(e)| <==> Utf16Length(e.deviceId) <= 19
  {
    NCRecordLayout(e);
    PadRightBytes(e.deviceId, 19);
    var n := Utf16Length(e.deviceId);
    var p := AsciiBytes(PadRight(e.deviceId, 19));
    assert p[..n] == AsciiBytes(e.deviceId);
    assert p[n..] == seq(if n <= 19 then 19 - n else 0, _ => ' ' as int);
  }

  /** Concatenating the records of two sequences is concatenating their bytes. */
  lemma {:induction false} ConcatAppend<T>(record: T -> seq<byte>, a: seq<T>, b: seq<T>)
    ensures Concat(record, a + b) == Concat(record, a) + Concat(record, b)
    decreases |b|
  {
    if b == [] {
      assert a + b == a;
    } else {
      var b' := b[..|b| - 1];
      assert (a + b)[..|a + b| - 1] == a + b';
      ConcatAppend(record, a, b');
    }
  }

  /** A file is its records laid end to end: the file of two batches is the
      first batch's file followed by the second's. */
  lemma FileBytesAppend(a: seq<AuditEntry>, b: seq<AuditEntry>)
    ensures FileBytes(a + b) == FileBytes(a) + FileBytes(b)
  {
    ConcatAppend(NCRecord, a, b);
  }

  /** A stored counter of 5 gives the file-name suffix "0006". */
  lemma CheckCaseSuffix()
    ensures Base36(5 + 1, 4) == Success("0006")
  {
    assert CsDiv(0, 36) == 0 && CsRem(0, 36) == 0 && Alphabet[0] == '0';
    assert CsDiv(6, 36) == 0 && CsRem(6, 36) == 6 && Alphabet[6] == '6';
    assert Base36(0, 0) == Success("");
    assert Base36(0, 1) == Append(Base36(0, 0), "0");
    assert "" + "0" == "0";
    assert Base36(0, 2) == Append(Base36(0, 1), "0");
    assert "0" + "0" == "00";
    assert Base36(0, 3) == Append(Base36(0, 2), "0");
    assert "00" + "0" == "000";
    assert Base36(6, 4) == Append(Base36(0, 3), "6");
    assert "000" + "6" == "0006";
  }

  /** The file of one entry is that entry's record. */
  lemma FileOfOne(e: AuditEntry)
    ensures FileBytes([e]) == NCRecord(e)
  {
    assert [e][..0] == [];
    assert Concat(NCRecord, [e]) == Concat(NCRecord, []) + NCRecord(e);
  }

  /** A DOWNLOAD record ends with nature 3, a zero and the flags 1, 1, 0, 0. */
  lemma DownloadRecordTail(e: AuditEntry)
    requires e.auditType == "DOWNLOAD"
    ensures var r := NCRecord(e);
      r[|r| - 6] == 3 && r[|r| - 4..] == [1, 1, 0, 0]
  {
    NCRecordLayout(e);
  }

  /** In a TIME then DOWNLOAD file the second record follows the first and
      carries nature 3 and the flags 1, 1, 0, 0. */
  lemma CheckCaseRecords(e1: AuditEntry, e2: AuditEntry)
    requires e1.auditType == "TIME" && e2.auditType == "DOWNLOAD"
    ensures var f, r := FileBytes([e1, e2]), NCRecord(e2);
      f == NCRecord(e1) + r
      && r[|r| - 6] == 3
      && r[|r| - 4..] == [1, 1, 0, 0]
  {
    FileOfOne(e1);
    FileOfOne(e2);
    FileBytesAppend([e1], [e2]);
    assert [e1] + [e2] == [e1, e2];
    DownloadRecordTail(e2);
  }

  // ---------------------------------------------------------------------
  // Files

  // ---------------------------------------------------------------------
  // Publishing a batch

  /** The name the first entry's date and the stored counter give a batch. */
  function BatchFileName(site: string, entries: seq<AuditEntry>, counterState: CounterState): Result<string>
    requires entries != []
  {
    FileName(site, DaysSince1987(DateOf(entries[0].timestamp)), counterState.counter)
  }

  /** The result of publishing a batch, with the files and the counter file it leaves. */
  datatype Published = Published(result: Result<string>, files: map<string, seq<byte>>, counterFile: Option<string>)

  /** What `GenerateActivityFileAtomicAsync` does: an empty batch does nothing;
      a name that cannot be built touches nothing; otherwise the batch is
      written under the temporary name, moved to the final name unless that
      is taken (the temporary file then stays behind), and only after the
      move is the incremented counter saved with the new name. */
  function Publish(options: ActivityFileOptions, entries: seq<AuditEntry>, counterState: CounterState,
                   files: map<string, seq<byte>>, counterFile: Option<string>, deviceFault: bool): Published
  {
    if entries == [] then Published(Success(""), files, counterFile)
    else match BatchFileName(options.cebConcentrateur, entries, counterState)
      case Failure(e) => Published(Failure(e), files, counterFile)
      case Success(name) => PublishAs(options, name, entries, counterState, files, counterFile, deviceFault)
  }

  /** Publishing a batch once its file name is known. */
  function PublishAs(options: ActivityFileOptions, name: string, entries: seq<AuditEntry>, counterState: CounterState,
                     files: map<string, seq<byte>>, counterFile: Option<string>, deviceFault: bool): Published
    requires entries != []
  {
    var temp, final := TempPath(options, name), FinalPath(options, name);
    var written := files[temp := FileBytes(entries)];
    if final in written then Published(Failure(FileExists), written, counterFile)
    else
      var moved := (written - {temp})[final := FileBytes(entries)];
      if deviceFault then Published(Failure(IOError), moved, counterFile)
      else
        var saved := CounterState(DateOf(entries[0].timestamp), Increment(counterState.counter), name);
        Published(Success(name), moved, Some(EncodeCounterFile(saved)))
  }

  /** An empty batch, or one whose name cannot be built, changes nothing;
      otherwise no file but the batch's temporary one is replaced or removed. */
  lemma PublishKeepsOtherFiles(options: ActivityFileOptions, entries: seq<AuditEntry>, counterState: CounterState,
                               files: map<string, seq<byte>>, counterFile: Option<string>, deviceFault: bool)
    ensures var p := Publish(options, entries, counterState, files, counterFile, deviceFault);
      (entries == [] || BatchFileName(options.cebConcentrateur, entries, counterState).Failure?) ==>
        p.files == files && p.counterFile == counterFile
    ensures var p := Publish(options, entries, counterState, files, counterFile, deviceFault);
      entries != [] && BatchFileName(options.cebConcentrateur, entries, counterState).Success? ==>
        var temp := TempPath(options, BatchFileName(options.cebConcentrateur, entries, counterState).value);
        forall path :: path in files && path != temp ==> path in p.files && p.files[path] == files[path]
  {
    if entries != [] && BatchFileName(options.cebConcentrateur, entries, counterState).Success? {
      var name := BatchFileName(options.cebConcentrateur, entries, counterState).value;
      assert Publish(options, entries, counterState, files, counterFile, deviceFault)
        == PublishAs(options, name, entries, counterState, files, counterFile, deviceFault);
      PublishAsKeepsOtherFiles(options, name, entries, counterState, files, counterFile, deviceFault);
    }
  }

  lemma PublishAsKeepsOtherFiles(options: ActivityFileOptions, name: string, entries: seq<AuditEntry>, counterState: CounterState,
                                 files: map<string, seq<byte>>, counterFile: Option<string>, deviceFault: bool)
    requires entries != []
    ensures var p := PublishAs(options, name, entries, counterState, files, counterFile, deviceFault);
      forall path :: path in files && path != TempPath(options, name) ==> path in p.files && p.files[path] == files[path]
  {
  }

  /** The counter file changes only when publishing succeeds. */
  lemma PublishFailureKeepsCounter(options: ActivityFileOptions, entries: seq<AuditEntry>, counterState: CounterState,
                                   files: map<string, seq<byte>>, counterFile: Option<string>, deviceFault: bool)
    ensures var p := Publish(options, entries, counterState, files, counterFile, deviceFault);
      p.result.Failure? ==> p.counterFile == counterFile
  {
    if entries != [] && BatchFileName(options.cebConcentrateur, entries, counterState).Success? {
      var name := BatchFileName(options.cebConcentrateur, entries, counterState).value;
      assert Publish(options, entries, counterState, files, counterFile, deviceFault)
        == PublishAs(options, name, entries, counterState, files, counterFile, deviceFault);
    }
  }

  /** After a successful publish the final file holds the batch's records,
      no file had that name before, the temporary file is gone, and the
      counter file holds the first entry's date, the incremented counter and
      the new name. */
  lemma PublishSuccess(options: ActivityFileOptions, entries: seq<AuditEntry>, counterState: CounterState,
                       files: map<string, seq<byte>>, counterFile: Option<string>, deviceFault: bool)
    requires entries != []
    requires Publish(options, entries, counterState, files, counterFile, deviceFault).result.Success?
    ensures var p := Publish(options, entries, counterState, files, counterFile, deviceFault);
      var name := p.result.value;
      var final := FinalPath(options, name);
      BatchFileName(options.cebConcentrateur, entries, counterState) == Success(name)
      && EndsInBin(name)
      && final !in files && final in p.files && p.files[final] == FileBytes(entries)
      && TempPath(options, name) !in p.files
      && p.counterFile == Some(EncodeCounterFile(
           CounterState(DateOf(entries[0].timestamp), Increment(counterState.counter), name)))
  {
    var name := BatchFileName(options.cebConcentrateur, entries, counterState).value;
    FileNameEndsInBin(options.cebConcentrateur, DaysSince1987(DateOf(entries[0].timestamp)), counterState.counter);
    assert Publish(options, entries, counterState, files, counterFile, deviceFault)
      == PublishAs(options, name, entries, counterState, files, counterFile, deviceFault);
    PublishAsSuccess(options, name, entries, counterState, files, counterFile, deviceFault);
  }

  lemma PublishAsSuccess(options: ActivityFileOptions, name: string, entries: seq<AuditEntry>, counterState: CounterState,
                         files: map<string, seq<byte>>, counterFile: Option<string>, deviceFault: bool)
    requires entries != []
    requires PublishAs(options, name, entries, counterState, files, counterFile, deviceFault).result.Success?
    ensures var p := PublishAs(options, name, entries, counterState, files, counterFile, deviceFault);
      var final := FinalPath(options, name);
      p.result == Success(name)
      && final !in files && final in p.files && p.files[final] == FileBytes(entries)
      && TempPath(options, name) !in p.files
      && p.counterFile == Some(EncodeCounterFile(
           CounterState(DateOf(entries[0].timestamp), Increment(counterState.counter), name)))
  {
  }

  /** What the counter store reads back after a successful publish: the first
      entry's date and the incremented counter. */
  lemma PublishAdvancesCounter(options: ActivityFileOptions, entries: seq<AuditEntry>, counterState: CounterState,
                               files: map<string, seq<byte>>, counterFile: Option<string>, deviceFault: bool, today: Date)
    requires entries != []
    requires Publish(options, entries, counterState, files, counterFile, deviceFault).result.Success?
    ensures var p := Publish(options, entries, counterState, files, counterFile, deviceFault);
      DecodeCounterFile(p.counterFile, today).date == DateOf(entries[0].timestamp)
      && DecodeCounterFile(p.counterFile, today).counter == Increment(counterState.counter)
  {
    var p := Publish(options, entries, counterState, files, counterFile, deviceFault);
    PublishSuccess(options, entries, counterState, files, counterFile, deviceFault);
    DecodeEncodeCounterFile(CounterState(DateOf(entries[0].timestamp), Increment(counterState.counter), p.result.value), today);
  }

  /** A batch that was published cannot be published again from the same
      counter state: its final name is taken, and the counter stays put. */
  lemma PublishTwiceFails(options: ActivityFileOptions, entries: seq<AuditEntry>, counterState: CounterState,
                          files: map<string, seq<byte>>, counterFile: Option<string>, deviceFault: bool)
    requires Publish(options, entries, counterState, files, counterFile, deviceFault).result.Success?
    requires entries != []
    ensures var p := Publish(options, entries, counterState, files, counterFile, deviceFault);
      var q := Publish(options, entries, counterState, p.files, p.counterFile, deviceFault);
      q.result == Failure(FileExists) && q.counterFile == p.counterFile
      && q.files[FinalPath(options, p.result.value)] == FileBytes(entries)
  {
    var p := Publish(options, entries, counterState, files, counterFile, deviceFault);
    PublishSuccess(options, entries, counterState, files, counterFile, deviceFault);
    var name := p.result.value;
    FileNameEndsInBin(options.cebConcentrateur, DaysSince1987(DateOf(entries[0].timestamp)), counterState.counter);
    TempPathIsNoFinalPath(options, name, name);
  }

  class FileSystem {
    var files: map<string, seq<byte>>

    constructor(files: map<string, seq<byte>>)
      ensures this.files == files
    {
      this.files := files;
    }

    /** `new FileStream(path, FileMode.Create)`: a new empty file, or the old one emptied. */
    method Create(path: string)
      modifies this
      ensures files == old(files)[path := []]
    {
      files := files[path := []];
    }

    method Append(path: string, bytes: seq<byte>)
      requires path in files
      modifies this
      ensures files == old(files)[path := old(files)[path] + bytes]
    {
      files := files[path := files[path] + bytes];
    }

    /** `File.Move(source, destination, overwrite)`. */
    method Move(source: string, destination: string, overwrite: bool) returns (r: Outcome)
      modifies this
      ensures source !in old(files) ==> r == Err(FileNotFound) && files == old(files)
      ensures source in old(files) && destination in old(files) && !overwrite ==>
        r == Err(FileExists) && files == old(files)
      ensures source in old(files) && (destination !in old(files) || overwrite) ==>
        r == Ok && files == (old(files) - {source})[destination := old(files)[source]]
    {
      if source !in files {
        return Err(FileNotFound);
      }
      if destination in files && !overwrite {
        return Err(FileExists);
      }
      files := (files - {source})[destination := files[source]];
      return Ok;
    }
  }

  /** A `BinaryWriter`: the bytes written so far, which reach its file when it is disposed. */
  class BinaryWriter {
    var written: seq<byte>

    constructor()
      ensures written == []
    {
      written := [];
    }

    method Write(bytes: seq<byte>)
      modifies this
      ensures written == old(written) + bytes
    {
      written := written + bytes;
    }
  }

  class ActivityFileWriter {
    const options: ActivityFileOptions
    const fileSystem: FileSystem
    const counterManager: CounterManager

    constructor(options: ActivityFileOptions, fileSystem: FileSystem, counterManager: CounterManager)
      ensures this.options == options && this.fileSystem == fileSystem && this.counterManager == counterManager
    {
      this.options := options;
      this.fileSystem := fileSystem;
      this.counterManager := counterManager;
    }

    /** Fills a `length`-character array from the right with the base-36 digits of `value`. */
    static method ConvertToBase36(value: int32, length: int32) returns (r: Result<string>)
      ensures r == Base36(value, length)
    {
      if length < 0 {
        return Failure(Overflow);
      }
      var result := new char[length];
      var v: int := value;
      var i: int := length - 1;
      AppendAppend(Base36(v, length), [], []);
      assert result[length..] == [];
      while i >= 0
        invariant -1 <= i < length
        invariant Base36(value, length) == Append(Base36(v, i + 1), result[i + 1..])
      {
        var rem := CsRem(v, 36);
        if rem < 0 {
          return Failure(IndexOutOfRange);
        }
        ghost var tail := result[i + 1..];
        result[i] := Alphabet[rem];
        assert result[i..] == [Alphabet[rem]] + tail;
        AppendAppend(Base36(CsDiv(v, 36), i), [Alphabet[rem]], tail);
        v := CsDiv(v, 36);
        i := i - 1;
      }
      var text := result[..];
      assert result[i + 1..] == text;
      AppendToEmpty(Base36(v, 0), text);
      return Success(text);
    }

    /** The date as a big-endian year, a month and a day, then the hour, minute and second. */
    static method WriteDateTime(writer: BinaryWriter, t: DateTime)
      modifies writer
      ensures writer.written == old(writer.written) + BigEndian16(t.year) + [t.month, t.day] + [t.hour, t.minute, t.second]
    {
      var dateBytes := new byte[4];
      dateBytes[0], dateBytes[1] := t.year / 0x100, t.year % 0x100;
      dateBytes[2] := t.month;
      dateBytes[3] := t.day;
      assert dateBytes[..] == BigEndian16(t.year) + [t.month, t.day];
      writer.Write(dateBytes[..]);
      writer.Write([t.hour, t.minute, t.second]);
    }

    /** The direction, the nature, the result and the four transfer flags. */
    static method WriteExchange(writer: BinaryWriter, auditType: string)
      modifies writer
      ensures writer.written == old(writer.written) + [1, GetExchangeNature(auditType), 0] + TransferFlags(auditType)
    {
      writer.Write([1]);
      writer.Write([GetExchangeNature(auditType)]);
      writer.Write([0]);
      var flag: byte := if auditType == "DOWNLOAD" then 1 else 0;
      writer.Write([flag]);
      writer.Write([flag]);
      writer.Write([0]);
      writer.Write([0]);
    }

    /** Appends the record of `entry` through `writer`, field by field. */
    static method WriteNCRecord(writer: BinaryWriter, entry: AuditEntry)
      modifies writer
      ensures writer.written == old(writer.written) + NCRecord(entry)
    {
      var t := entry.timestamp;
      ghost var start := writer.written;
      writer.Write(AsciiBytes("NC"));
      // 35 with its bytes swapped, written little-endian: big-endian 35.
      writer.Write(BigEndian16(RecordLength));
      WriteDateTime(writer, t);
      writer.Write([0, 0]);
      HeadAppended(start, t);
      writer.Write(AsciiBytes(PadRight(entry.deviceId, 19)));
      WriteExchange(writer, entry.auditType);
      NCRecordParts(entry);
      AppendedInOrder(start, NCHead(t), AsciiBytes(PadRight(entry.deviceId, 19)),
        [1, GetExchangeNature(entry.auditType), 0], TransferFlags(entry.auditType));
    }

    /** Creates or empties the file at `filePath` and writes one record per entry. */
    method WriteActivityFile(filePath: string, entries: seq<AuditEntry>)
      modifies fileSystem
      ensures fileSystem.files == old(fileSystem.files)[filePath := FileBytes(entries)]
    {
      fileSystem.Create(filePath);
      var writer := new BinaryWriter();
      var i := 0;
      while i < |entries|
        invariant 0 <= i <= |entries|
        invariant writer.written == FileBytes(entries[..i])
        invariant fileSystem.files == old(fileSystem.files)[filePath := []]
      {
        WriteNCRecord(writer, entries[i]);
        assert entries[..i + 1][..i] == entries[..i];
        i := i + 1;
      }
      assert entries[..i] == entries;
      fileSystem.Append(filePath, writer.written);
      assert [] + writer.written == writer.written;
    }

    /** The name of a batch's file, built from the first entry's day since
        1987 and the incremented counter. */
    method NameBatch(entries: seq<AuditEntry>, counterState: CounterState) returns (r: Result<string>)
      requires entries != []
      ensures r == BatchFileName(options.cebConcentrateur, entries, counterState)
    {
      var date := DateOf(entries[0].timestamp);
      DaysSince1987Range(date);
      var daysSince1987: int32 := DaysSince1987(date);
      var counter := Increment(counterState.counter);
      var days := ConvertToBase36(daysSince1987, 3);
      if days.Failure? {
        return Failure(days.error);
      }
      var count := ConvertToBase36(counter, 4);
      if count.Failure? {
        return Failure(count.error);
      }
      return Success("S" + options.cebConcentrateur + days.value + count.value + ".BIN");
    }

    /** Writes the batch under its temporary name and moves it, without
        overwriting, to its final name. */
    method StageFile(fileName: string, entries: seq<AuditEntry>) returns (r: Outcome)
      modifies fileSystem
      ensures var temp, final := TempPath(options, fileName), FinalPath(options, fileName);
        var written := old(fileSystem.files)[temp := FileBytes(entries)];
        if final in written then r == Err(FileExists) && fileSystem.files == written
        else r == Ok && fileSystem.files == (written - {temp})[final := FileBytes(entries)]
    {
      var tempPath := Combine(options.tempPath, fileName + ".tmp");
      var finalPath := Combine(options.outputPath, fileName);
      WriteActivityFile(tempPath, entries);
      r := fileSystem.Move(tempPath, finalPath, false);
    }

    /** Publishes one activity file for a batch, as `Publish` describes. */
    method GenerateActivityFileAtomic(entries: seq<AuditEntry>, counterState: CounterState) returns (r: Result<string>)
      requires !counterManager.lockHeld
      modifies fileSystem, counterManager
      ensures !counterManager.lockHeld && counterManager.deviceFault == old(counterManager.deviceFault)
      ensures Published(r, fileSystem.files, counterManager.counterFile)
        == Publish(options, entries, counterState, old(fileSystem.files), old(counterManager.counterFile), counterManager.deviceFault)
    {
      if entries == [] {
        return Success("");
      }
      var name := NameBatch(entries, counterState);
      if name.Failure? {
        return Failure(name.error);
      }
      r := PublishFile(name.value, entries, counterState);
    }

    /** Stages the batch's file under `fileName`, then saves the incremented counter. */
    method PublishFile(fileName: string, entries: seq<AuditEntry>, counterState: CounterState) returns (r: Result<string>)
      requires entries != [] && !counterManager.lockHeld
      modifies fileSystem, counterManager
      ensures !counterManager.lockHeld && counterManager.deviceFault == old(counterManager.deviceFault)
      ensures Published(r, fileSystem.files, counterManager.counterFile)
        == PublishAs(options, fileName, entries, counterState, old(fileSystem.files), old(counterManager.counterFile), counterManager.deviceFault)
    {
      var date := DateOf(entries[0].timestamp);
      var counter := Increment(counterState.counter);
      var moved := StageFile(fileName, entries);
      if moved.Err? {
        return Failure(moved.error);
      }
      var saved := counterManager.SaveCounter(CounterState(date, counter, fileName));
      if saved.Err? {
        return Failure(saved.error);
      }
      return Success(fileName);
    }
  }
}
