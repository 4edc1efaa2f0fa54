// The time service's JSON tick response, `{"time":<ticks>}`, written into a
// caller's buffer from offset 0, and the copy handed to a waiting request.
module ApiTime {
  import opened Common
  import opened Decimal
  import opened Utf8
  import opened Buffers

  /** The size of the buffer the batch loop writes every response into. */
  const MaxJsonResponseSize: nat := 256

  /** `_jsonPrefix`: the UTF-8 of `{"time":` (`AsciiLiteral`). */
  const JsonPrefix: seq<byte> := [123, 34, 116, 105, 109, 101, 34, 58]

  /** `_jsonSuffix`: the UTF-8 of `}`. */
  const JsonSuffix: seq<byte> := [125]

  /** The full response for a tick count. */
  function JsonResponse(currentTime: int64): seq<byte> {
    JsonPrefix + Encode(IntString(currentTime)) + JsonSuffix
  }

  /** What a build leaves: the length it reports, or the exception it
      raises, and the buffer's new content. */
  datatype Built = Built(length: Result<int>, buffer: seq<byte>)

  /** The prefix, the digits and the suffix copied one after another from
      offset 0; a copy that does not fit raises an `ArgumentException`, the
      prefix and the suffix before writing anything, the digits after
      writing those that fit. */
  function Build(currentTime: int64, buffer: seq<byte>): Built {
    var p, d, s := JsonPrefix, Encode(IntString(currentTime)), JsonSuffix;
    if |buffer| < |p| then Built(Failure(ArgumentTooSmall), buffer)
    else
      var withPrefix := Overwrite(buffer, 0, p);
      if |buffer| < |p| + |d| then Built(Failure(ArgumentTooSmall), Overwrite(withPrefix, |p|, d[..|buffer| - |p|]))
      else
        var withDigits := Overwrite(withPrefix, |p|, d);
        if |buffer| < |p| + |d| + |s| then Built(Failure(ArgumentTooSmall), withDigits)
        else Built(Success(|p| + |d| + |s|), Overwrite(withDigits, |p| + |d|, s))
  }

  lemma ResponseIsText(digits: string)
    ensures JsonPrefix + Encode(digits) + JsonSuffix == Encode("{\"time\":" + digits + "}")
  {
    AsciiLiteral("{\"time\":", JsonPrefix);
    assert Encode("}") == JsonSuffix;
    EncodeAppend("{\"time\":" + digits, "}");
    EncodeAppend("{\"time\":", digits);
  }

  /** The response is the JSON text `{"time":` + the decimal ticks + `}`, at
      most 29 bytes long, and its middle reads back as the ticks. */
  lemma JsonResponseText(currentTime: int64)
    ensures JsonResponse(currentTime) == Encode("{\"time\":" + IntString(currentTime) + "}")
    ensures |JsonResponse(currentTime)| == 8 + |IntString(currentTime)| + 1 <= 29
    ensures var r := JsonResponse(currentTime);
      ParseInt(Decode(r[8..|r| - 1])) == Some(currentTime as int)
  {
    var digits := IntString(currentTime);
    ResponseIsText(digits);
    IntStringAscii(currentTime);
    EncodeAscii(digits);
    Int64StringLength(currentTime);
    var r := JsonResponse(currentTime);
    assert r[8..|r| - 1] == Encode(digits);
    DecodeEncode(digits);
    ParseIntString(currentTime);
  }

  /** In a buffer with room for the response, the build succeeds with the
      response's length, the response at the front, and every later byte
      untouched. */
  lemma BuildWhenItFits(currentTime: int64, buffer: seq<byte>)
    requires |JsonResponse(currentTime)| <= |buffer|
    ensures Build(currentTime, buffer)
      == Built(Success(|JsonResponse(currentTime)|), JsonResponse(currentTime) + buffer[|JsonResponse(currentTime)|..])
  {
    var r := JsonResponse(currentTime);
    var b := Build(currentTime, buffer).buffer;
    assert b == r + buffer[|r|..] by {
      forall k | 0 <= k < |b| ensures b[k] == (r + buffer[|r|..])[k] {
      }
    }
  }

  /** Whatever the tick count, the response fits the batch loop's 256-byte buffer. */
  lemma BuildAlwaysFits(currentTime: int64, buffer: seq<byte>)
    requires |buffer| == MaxJsonResponseSize
    ensures Build(currentTime, buffer).length == Success(|JsonResponse(currentTime)|)
    ensures Build(currentTime, buffer).buffer[..|JsonResponse(currentTime)|] == JsonResponse(currentTime)
  {
    JsonResponseText(currentTime);
    BuildWhenItFits(currentTime, buffer);
  }

  /** `TimeServiceInit.BuildJsonResponse`: the three copies from a running
      offset, and the offset reached as the length. */
  method BuildJsonResponse(currentTime: int64, deviceId: string, buffer: array<byte>) returns (length: Result<int>)
    modifies buffer
    ensures Built(length, buffer[..]) == Build(currentTime, old(buffer[..]))
  {
    var offset := 0;
    var copied := BlockCopy(JsonPrefix, buffer, offset);
    if copied.Err? {
      return Failure(copied.error);
    }
    offset := offset + |JsonPrefix|;
    var timeStr := IntString(currentTime);
    IntStringAscii(currentTime);
    var timeLength := GetBytes(timeStr, buffer, offset);
    if timeLength.Failure? {
      return Failure(timeLength.error);
    }
    offset := offset + timeLength.value;
    copied := BlockCopy(JsonSuffix, buffer, offset);
    if copied.Err? {
      return Failure(copied.error);
    }
    offset := offset + |JsonSuffix|;
    length := Success(offset);
  }

  /** `BuildJsonResponseOptimise`: the same three writes through spans, so
      the same bytes and length as `BuildJsonResponse`. */
  method BuildJsonResponseOptimise(currentTime: int64, buffer: array<byte>) returns (length: Result<int>)
    modifies buffer
    ensures Built(length, buffer[..]) == Build(currentTime, old(buffer[..]))
  {
    var offset := 0;
    var copied := BlockCopy(JsonPrefix, buffer, 0);
    if copied.Err? {
      return Failure(copied.error);
    }
    offset := offset + |JsonPrefix|;
    var timeStr := IntString(currentTime);
    IntStringAscii(currentTime);
    var written := GetBytes(timeStr, buffer, offset);
    if written.Failure? {
      return Failure(written.error);
    }
    offset := offset + written.value;
    copied := BlockCopy(JsonSuffix, buffer, offset);
    if copied.Err? {
      return Failure(copied.error);
    }
    offset := offset + |JsonSuffix|;
    length := Success(offset);
  }

  /** One request of a batch: the response is built in the shared buffer and
      its first `length` bytes are copied out for the waiting request. */
  method Respond(currentTime: int64, deviceId: string, responseBuffer: array<byte>) returns (responseCopy: array<byte>)
    requires responseBuffer.Length == MaxJsonResponseSize
    modifies responseBuffer
    ensures responseCopy[..] == JsonResponse(currentTime)
  {
    BuildAlwaysFits(currentTime, responseBuffer[..]);
    var responseLength := BuildJsonResponse(currentTime, deviceId, responseBuffer);
    var n := responseLength.value;
    responseCopy := new byte[n](_ => 0);
    var _ := BlockCopy(responseBuffer[..n], responseCopy, 0);
    assert responseCopy[..] == responseBuffer[..n];
  }
}
