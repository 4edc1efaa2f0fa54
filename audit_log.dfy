// The audit logger's entry format: a fixed timestamp buffer, the request
// type and its details, joined by '|' and encoded as UTF-8 into an array
// sized by the strings' UTF-16 lengths; and the four entry builders.
module AuditLog {
  import opened Common
  import opened Calendar
  import opened Decimal
  import opened Utf8
  import opened Buffers
  import Generator

  const Pipe: byte := 124

  function Zeros(n: nat): (z: seq<byte>)
    ensures |z| == n && forall i :: 0 <= i < n ==> z[i] == 0
  {
    seq(n, _ => 0)
  }

  /** The 27-character stack buffer once the timestamp is formatted into it:
      the 23 characters of `yyyy-MM-ddTHH:mm:ss.fff`, then the four NUL
      characters the formatter leaves untouched. */
  function TimestampBuffer(now: DateTime): (s: string)
    ensures |s| == 27 && s[..23] == FormatTimestamp(now) && s[23..] == "\0\0\0\0"
  {
    FormatTimestamp(now) + "\0\0\0\0"
  }

  /** What `SerializeAuditEntry` gives for `auditType` and `data` at time
      `now`: the array of `27 + 2 + type.Length + data.Length` bytes holding
      the encoded buffer, '|', the encoded type, '|' and the encoded data, or
      the exception raised when a piece overruns the array: an
      `ArgumentException` from the encoder, or an index out of range on the
      second separator. */
  function Serialized(now: DateTime, auditType: string, data: string): Result<seq<byte>> {
    var stamp, t, d := Encode(TimestampBuffer(now)), Encode(auditType), Encode(data);
    var total := |TimestampBuffer(now)| + 2 + Utf16Length(auditType) + Utf16Length(data);
    if |stamp| + 1 + |t| > total then Failure(ArgumentTooSmall)
    else if |stamp| + 1 + |t| == total then Failure(IndexOutOfRange)
    else if |stamp| + 2 + |t| + |d| > total then Failure(ArgumentTooSmall)
    else Success(stamp + [Pipe] + t + [Pipe] + d + Zeros(total - (|stamp| + 2 + |t| + |d|)))
  }

  /** The text an entry carries, before encoding. */
  function EntryText(now: DateTime, auditType: string, data: string): string {
    TimestampBuffer(now) + "|" + auditType + "|" + data
  }

  lemma TimestampBufferAscii(now: DateTime)
    ensures IsAscii(TimestampBuffer(now))
    ensures '|' !in TimestampBuffer(now)
  {
    var d := DateOf(now);
    var y, mo, da := Padded(d.year, 4), Padded(d.month, 2), Padded(d.day, 2);
    var h, mi, se, ms := Padded(now.hour, 2), Padded(now.minute, 2), Padded(now.second, 2), Padded(now.millisecond, 3);
    var s := TimestampBuffer(now);
    assert s == y + "-" + mo + "-" + da + "T" + h + ":" + mi + ":" + se + "." + ms + "\0\0\0\0";
    DigitsAreAscii(y);
    DigitsAreAscii(mo);
    DigitsAreAscii(da);
    DigitsAreAscii(h);
    DigitsAreAscii(mi);
    DigitsAreAscii(se);
    DigitsAreAscii(ms);
  }

  /** An entry is produced exactly when the type and the data are ASCII;
      ASCII type with non-ASCII data always makes the encoder raise. */
  lemma SerializedSucceedsIffAscii(now: DateTime, auditType: string, data: string)
    ensures Serialized(now, auditType, data).Success? <==> IsAscii(auditType) && IsAscii(data)
    ensures IsAscii(auditType) && !IsAscii(data) ==> Serialized(now, auditType, data) == Failure(ArgumentTooSmall)
  {
    TimestampBufferAscii(now);
    EncodeAscii(TimestampBuffer(now));
    EncodedLength(auditType);
    EncodedLength(data);
  }

  /** For ASCII type and data the array is filled exactly: the encoded text
      of the entry, with no byte left over. */
  lemma SerializedText(now: DateTime, auditType: string, data: string)
    requires IsAscii(auditType) && IsAscii(data)
    ensures Serialized(now, auditType, data) == Success(Encode(EntryText(now, auditType, data)))
  {
    var b := TimestampBuffer(now);
    TimestampBufferAscii(now);
    EncodeAscii(b);
    EncodedLength(auditType);
    EncodedLength(data);
    EncodeAppend(b + "|" + auditType + "|", data);
    EncodeAppend(b + "|" + auditType, "|");
    EncodeAppend(b + "|", auditType);
    EncodeAppend(b, "|");
    assert Encode("|") == [Pipe];
    var stamp, t, d := Encode(b), Encode(auditType), Encode(data);
    assert |stamp| == |b| && |t| == Utf16Length(auditType) && |d| == Utf16Length(data);
    assert Encode(EntryText(now, auditType, data)) == stamp + [Pipe] + t + [Pipe] + d;
    assert Zeros(0) == [];
    assert stamp + [Pipe] + t + [Pipe] + d + Zeros(0) == stamp + [Pipe] + t + [Pipe] + d;
  }

  /** The byte layout of an ASCII entry: the formatted timestamp, four zero
      bytes, '|' at index 27, the type's characters, '|' at index
      `28 + |type|`, then the data's characters. */
  lemma SerializedLayout(now: DateTime, auditType: string, data: string)
    requires IsAscii(auditType) && IsAscii(data)
    ensures Serialized(now, auditType, data).Success?
    ensures var r := Serialized(now, auditType, data).value;
      |r| == 29 + |auditType| + |data|
      && r[..23] == Encode(FormatTimestamp(now))
      && r[23..27] == [0, 0, 0, 0]
      && r[27] == Pipe
      && (forall i :: 0 <= i < |auditType| ==> r[28 + i] == auditType[i] as int)
      && r[28 + |auditType|] == Pipe
      && (forall i :: 0 <= i < |data| ==> r[29 + |auditType| + i] == data[i] as int)
  {
    var b := TimestampBuffer(now);
    TimestampBufferAscii(now);
    EncodeAscii(b);
    EncodeAscii(auditType);
    EncodeAscii(data);
    EncodedLength(auditType);
    EncodedLength(data);
    var r := Serialized(now, auditType, data).value;
    assert Zeros(0) == [];
    assert r == Encode(b) + [Pipe] + Encode(auditType) + [Pipe] + Encode(data);
    EncodeAppend(FormatTimestamp(now), "\0\0\0\0");
    assert Encode("\0\0\0\0") == [0, 0, 0, 0];
    assert r[..27] == Encode(b);
    assert r[..23] == Encode(b)[..23];
    forall i | 0 <= i < |auditType| ensures r[28 + i] == auditType[i] as int {
      assert r[28 + i] == Encode(auditType)[i];
    }
    forall i | 0 <= i < |data| ensures r[29 + |auditType| + i] == data[i] as int {
      assert r[29 + |auditType| + i] == Encode(data)[i];
    }
  }

  /** With no '|' in the type or the data, the two separators are the only
      '|' bytes: an entry has exactly three '|'-separated fields. */
  lemma SerializedPipes(now: DateTime, auditType: string, data: string)
    requires IsAscii(auditType) && IsAscii(data) && '|' !in auditType && '|' !in data
    ensures Serialized(now, auditType, data).Success?
    ensures var r := Serialized(now, auditType, data).value;
      forall i :: 0 <= i < |r| ==> (r[i] == Pipe <==> i == 27 || i == 28 + |auditType|)
  {
    var b := TimestampBuffer(now);
    TimestampBufferAscii(now);
    EncodeAscii(b);
    EncodeAscii(auditType);
    EncodeAscii(data);
    EncodedLength(auditType);
    EncodedLength(data);
    var r := Serialized(now, auditType, data).value;
    assert Zeros(0) == [];
    assert r == Encode(b) + [Pipe] + Encode(auditType) + [Pipe] + Encode(data);
    forall i | 0 <= i < |r| ensures r[i] == Pipe <==> i == 27 || i == 28 + |auditType| {
      if i < 27 {
        assert r[i] == b[i] as int;
        assert b[i] in b;
      } else if 28 <= i < 28 + |auditType| {
        assert r[i] == auditType[i - 28] as int;
        assert auditType[i - 28] in auditType;
      } else if 29 + |auditType| <= i {
        assert r[i] == data[i - 29 - |auditType|] as int;
        assert data[i - 29 - |auditType|] in data;
      }
    }
  }

  /** The two ends of the audit path disagree: an entry written without '|'
      in its type or data holds only two separators, and the activity
      generator's parser, which needs four fields, drops it. */
  lemma SerializedNeverParsed(now: DateTime, auditType: string, data: string)
    requires '|' !in auditType && '|' !in data
    requires Serialized(now, auditType, data).Success?
    ensures Generator.ParseAuditEntry(Serialized(now, auditType, data).value) == None
  {
    SerializedSucceedsIffAscii(now, auditType, data);
    SerializedText(now, auditType, data);
    var b := TimestampBuffer(now);
    var text := EntryText(now, auditType, data);
    DecodeEncode(text);
    TimestampBufferAscii(now);
    CountAbsent(b, '|');
    CountAbsent(auditType, '|');
    CountAbsent(data, '|');
    CountAppend(b, "|", '|');
    CountAppend(b + "|", auditType, '|');
    CountAppend(b + "|" + auditType, "|", '|');
    CountAppend(b + "|" + auditType + "|", data, '|');
    Generator.ParseNeedsFourFields(Serialized(now, auditType, data).value);
  }

  // ---------------------------------------------------------------------
  // Filling the array

  /** `a` holds `w` followed by zero bytes up to its end. */
  ghost predicate Filled(a: array<byte>, w: seq<byte>)
    reads a
  {
    |w| <= a.Length && a[..] == w + Zeros(a.Length - |w|)
  }

  /** Copies `bytes` into `a` from index `|w|`, one byte after another. */
  method CopyInto(bytes: seq<byte>, a: array<byte>, position: nat, ghost w: seq<byte>)
    requires Filled(a, w) && position == |w| && position + |bytes| <= a.Length
    modifies a
    ensures Filled(a, w + bytes)
  {
    var i := 0;
    while i < |bytes|
      invariant 0 <= i <= |bytes|
      invariant Filled(a, w + bytes[..i])
    {
      a[position + i] := bytes[i];
      assert bytes[..i + 1] == bytes[..i] + [bytes[i]];
      assert a[..] == w + bytes[..i + 1] + Zeros(a.Length - |w| - i - 1);
      i := i + 1;
    }
    assert bytes[..i] == bytes;
  }

  /** Bytes written right after the filled prefix of a zeroed array extend the prefix. */
  lemma OverwriteFilled(buffer: seq<byte>, w: seq<byte>, bytes: seq<byte>)
    requires |w| + |bytes| <= |buffer| && buffer == w + Zeros(|buffer| - |w|)
    ensures Overwrite(buffer, |w|, bytes) == w + bytes + Zeros(|buffer| - |w| - |bytes|)
  {
    var r := Overwrite(buffer, |w|, bytes);
    assert r == buffer[..|w|] + bytes + buffer[|w| + |bytes|..];
    assert buffer[..|w|] == w;
    assert buffer[|w| + |bytes|..] == Zeros(|buffer| - |w| - |bytes|);
  }

  /** Places one byte at `position`, which must be inside the array. */
  method SetByte(a: array<byte>, position: nat, b: byte, ghost w: seq<byte>)
    requires Filled(a, w) && position == |w| < a.Length
    modifies a
    ensures Filled(a, w + [b])
  {
    a[position] := b;
    assert a[..] == w + [b] + Zeros(a.Length - |w| - 1);
  }

  /** `SerializeAuditEntry` with the clock read as `now`: a fresh array of
      the precomputed length, filled piece by piece from a running position. */
  method SerializeAuditEntry(now: DateTime, auditType: string, data: string) returns (r: Result<seq<byte>>)
    ensures r == Serialized(now, auditType, data)
  {
    var timestampBuffer := TimestampBuffer(now);
    var totalLength := |timestampBuffer| + 2 + Utf16Length(auditType) + Utf16Length(data);
    var result := new byte[totalLength](_ => 0);
    assert result[..] == [] + Zeros(totalLength);
    var position := 0;
    // The 27 bytes of the buffer always fit an array of at least 29.
    TimestampBufferAscii(now);
    EncodeAscii(timestampBuffer);
    var stamp := Encode(timestampBuffer);
    CopyInto(stamp, result, position, []);
    position := position + |stamp|;
    SetByte(result, position, Pipe, stamp);
    position := position + 1;
    ghost var before := result[..];
    var typeBytes := GetBytes(auditType, result, position);
    if typeBytes.Failure? {
      return Failure(typeBytes.error);
    }
    OverwriteFilled(before, stamp + [Pipe], Encode(auditType));
    ghost var w := stamp + [Pipe] + Encode(auditType);
    position := position + typeBytes.value;
    if position >= result.Length {
      return Failure(IndexOutOfRange);
    }
    SetByte(result, position, Pipe, w);
    position := position + 1;
    before := result[..];
    var dataBytes := GetBytes(data, result, position);
    if dataBytes.Failure? {
      return Failure(dataBytes.error);
    }
    OverwriteFilled(before, w + [Pipe], Encode(data));
    return Success(result[..]);
  }

  // ---------------------------------------------------------------------
  // The entry builders

  /** The details of a download: device, file, offset and size, ':'-separated. */
  function DownloadData(deviceId: string, fileId: string, offset: int64, size: int32): string {
    deviceId + ":" + fileId + ":" + IntString(offset) + ":" + IntString(size)
  }

  lemma AsciiAppend(a: string, b: string)
    ensures IsAscii(a + b) <==> IsAscii(a) && IsAscii(b)
  {
    if IsAscii(a + b) {
      forall i | 0 <= i < |a| ensures IsAsciiChar(a[i]) {
        assert a[i] == (a + b)[i];
      }
      forall i | 0 <= i < |b| ensures IsAsciiChar(b[i]) {
        assert b[i] == (a + b)[|a| + i];
      }
    }
    if IsAscii(a) && IsAscii(b) {
      forall i | 0 <= i < |a + b| ensures IsAsciiChar((a + b)[i]) {
        if i >= |a| { assert (a + b)[i] == b[i - |a|]; }
      }
    }
  }

  /** A download's details are ASCII exactly when its device and file ids are. */
  lemma DownloadDataAscii(deviceId: string, fileId: string, offset: int64, size: int32)
    ensures IsAscii(DownloadData(deviceId, fileId, offset, size)) <==> IsAscii(deviceId) && IsAscii(fileId)
  {
    IntStringAscii(offset);
    IntStringAscii(size);
    AsciiAppend(deviceId, ":");
    AsciiAppend(deviceId + ":", fileId);
    AsciiAppend(deviceId + ":" + fileId, ":");
    AsciiAppend(deviceId + ":" + fileId + ":", IntString(offset));
    AsciiAppend(deviceId + ":" + fileId + ":" + IntString(offset), ":");
    AsciiAppend(deviceId + ":" + fileId + ":" + IntString(offset) + ":", IntString(size));
  }

  /** `LogManifestRequestAsync`, returning the entry instead of queueing it. */
  method LogManifestRequest(now: DateTime, deviceId: string) returns (entry: Result<seq<byte>>)
    ensures entry.Success? <==> IsAscii(deviceId)
    ensures entry.Success? ==> entry.value == Encode(EntryText(now, "MANIFEST", deviceId))
  {
    entry := SerializeAuditEntry(now, "MANIFEST", deviceId);
    SerializedSucceedsIffAscii(now, "MANIFEST", deviceId);
    if entry.Success? {
      SerializedText(now, "MANIFEST", deviceId);
    }
  }

  /** `LogDownloadAsync`, returning the entry instead of queueing it. */
  method LogDownload(now: DateTime, deviceId: string, fileId: string, offset: int64, size: int32)
    returns (entry: Result<seq<byte>>)
    ensures entry.Success? <==> IsAscii(deviceId) && IsAscii(fileId)
    ensures entry.Success? ==>
      entry.value == Encode(EntryText(now, "DOWNLOAD", DownloadData(deviceId, fileId, offset, size)))
  {
    var data := DownloadData(deviceId, fileId, offset, size);
    entry := SerializeAuditEntry(now, "DOWNLOAD", data);
    SerializedSucceedsIffAscii(now, "DOWNLOAD", data);
    DownloadDataAscii(deviceId, fileId, offset, size);
    if entry.Success? {
      SerializedText(now, "DOWNLOAD", data);
    }
  }

  /** `LogTimeSyncAsync`, returning the entry instead of queueing it. */
  method LogTimeSync(now: DateTime, deviceId: string) returns (entry: Result<seq<byte>>)
    ensures entry.Success? <==> IsAscii(deviceId)
    ensures entry.Success? ==> entry.value == Encode(EntryText(now, "TIME", deviceId))
  {
    entry := SerializeAuditEntry(now, "TIME", deviceId);
    SerializedSucceedsIffAscii(now, "TIME", deviceId);
    if entry.Success? {
      SerializedText(now, "TIME", deviceId);
    }
  }

  /** `LogConfirmationAsync`, returning the entry instead of queueing it. */
  method LogConfirmation(now: DateTime, deviceId: string, fileId: string) returns (entry: Result<seq<byte>>)
    ensures entry.Success? <==> IsAscii(deviceId) && IsAscii(fileId)
    ensures entry.Success? ==> entry.value == Encode(EntryText(now, "CONFIRM", deviceId + ":" + fileId))
  {
    var data := deviceId + ":" + fileId;
    entry := SerializeAuditEntry(now, "CONFIRM", data);
    SerializedSucceedsIffAscii(now, "CONFIRM", data);
    AsciiAppend(deviceId, ":");
    AsciiAppend(deviceId + ":", fileId);
    if entry.Success? {
      SerializedText(now, "CONFIRM", data);
    }
  }
}
