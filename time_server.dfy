// The ZeroMQ time server's response: a fresh array holding a prefix, the
// decimal value and a suffix, in that order.
module ZeroMQ {
  import opened Common
  import opened Decimal
  import opened Utf8
  import opened Buffers

  /** `_jsonPrefix`: the UTF-8 of `{"Value":` (`AsciiLiteral`). */
  const ValuePrefix: seq<byte> := [123, 34, 86, 97, 108, 117, 101, 34, 58]

  /** The UTF-8 of `}`. */
  const ValueSuffix: seq<byte> := [125]

  /** `BuildJsonResponse`: the value's decimal text in UTF-8, between copies
      of `prefix` and `suffix`, in an array of exactly their total length;
      neither argument array changes. */
  method BuildJsonResponse(value: int64, prefix: array<byte>, suffix: array<byte>) returns (response: array<byte>)
    ensures fresh(response)
    ensures response[..] == prefix[..] + Encode(IntString(value)) + suffix[..]
  {
    var valueBytes := Encode(IntString(value));
    response := new byte[prefix.Length + |valueBytes| + suffix.Length](_ => 0);
    ghost var zeros := response[..];
    var _ := BlockCopy(prefix[..], response, 0);
    var _ := BlockCopy(valueBytes, response, prefix.Length);
    var _ := BlockCopy(suffix[..], response, prefix.Length + |valueBytes|);
    assert response[..] == prefix[..] + valueBytes + suffix[..] by {
      forall k | 0 <= k < response.Length
        ensures response[k] == (prefix[..] + valueBytes + suffix[..])[k]
      {
      }
    }
  }

  /** The response for a value with the server's own prefix and suffix. */
  function ValueResponse(value: int64): seq<byte> {
    ValuePrefix + Encode(IntString(value)) + ValueSuffix
  }

  /** With the server's prefix and suffix the response is the JSON text
      `{"Value":` + the decimal value + `}`. */
  lemma ValueResponseText(value: int64)
    ensures ValueResponse(value) == Encode("{\"Value\":" + IntString(value) + "}")
  {
    assert Encode("{\"Value\":") == ValuePrefix by {
      AsciiLiteral("{\"Value\":", ValuePrefix);
    }
    assert Encode("}") == ValueSuffix;
    var digits := IntString(value);
    EncodeAppend("{\"Value\":" + digits, "}");
    EncodeAppend("{\"Value\":", digits);
  }

  /** The response is nine bytes, the digits and one byte long, and its
      middle reads back as the value. */
  lemma ValueResponseReadsBack(value: int64)
    ensures |ValueResponse(value)| == 9 + |IntString(value)| + 1
    ensures var r := ValueResponse(value);
      ParseInt(Decode(r[9..|r| - 1])) == Some(value as int)
  {
    var digits := IntString(value);
    IntStringAscii(value);
    EncodeAscii(digits);
    var r := ValueResponse(value);
    assert r[9..|r| - 1] == Encode(digits);
    DecodeEncode(digits);
    ParseIntString(value);
  }

  /** The server's call: a response built from arrays holding its prefix and
      suffix is the value's response. */
  method Respond(value: int64, prefix: array<byte>, suffix: array<byte>) returns (response: array<byte>)
    requires prefix[..] == ValuePrefix && suffix[..] == ValueSuffix
    ensures response[..] == ValueResponse(value)
  {
    response := BuildJsonResponse(value, prefix, suffix);
  }
}
