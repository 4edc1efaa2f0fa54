// Copying bytes into part of an existing array, as `Buffer.BlockCopy`,
// `Span.CopyTo` and `Encoding.UTF8.GetBytes` do: the rest of the array is
// left as it was.
module Buffers {
  import opened Common
  import opened Utf8

  /** `buffer` with `bytes` written from index `from`. */
  function Overwrite(buffer: seq<byte>, from: nat, bytes: seq<byte>): (r: seq<byte>)
    requires from + |bytes| <= |buffer|
    ensures |r| == |buffer|
    ensures forall k :: 0 <= k < |r| ==> r[k] == if from <= k < from + |bytes| then bytes[k - from] else buffer[k]
  {
    buffer[..from] + bytes + buffer[from + |bytes|..]
  }

  /** Copies `bytes` into `dst` from `offset`, when they fit; otherwise raises
      an `ArgumentException` before writing anything. */
  method BlockCopy(bytes: seq<byte>, dst: array<byte>, offset: nat) returns (r: Outcome)
    modifies dst
    ensures offset + |bytes| <= dst.Length ==> r == Ok && dst[..] == Overwrite(old(dst[..]), offset, bytes)
    ensures offset + |bytes| > dst.Length ==> r == Err(ArgumentTooSmall) && dst[..] == old(dst[..])
  {
    if offset + |bytes| > dst.Length {
      return Err(ArgumentTooSmall);
    }
    var i := 0;
    while i < |bytes|
      invariant 0 <= i <= |bytes|
      invariant forall k :: 0 <= k < dst.Length ==>
        dst[k] == if offset <= k < offset + i then bytes[k - offset] else old(dst[k])
    {
      dst[offset + i] := bytes[i];
      i := i + 1;
    }
    assert dst[..] == Overwrite(old(dst[..]), offset, bytes);
    return Ok;
  }

  /** `Encoding.UTF8.GetBytes` of `text` into `dst` from `offset`, for both the
      array and the span overloads: the bytes that fit are written, and if
      some do not, an `ArgumentException` follows. */
  method GetBytes(text: string, dst: array<byte>, offset: nat) returns (r: Result<nat>)
    requires offset <= dst.Length
    modifies dst
    ensures |Encode(text)| <= dst.Length - offset ==>
      r == Success(|Encode(text)|) && dst[..] == Overwrite(old(dst[..]), offset, Encode(text))
    ensures |Encode(text)| > dst.Length - offset ==>
      r == Failure(ArgumentTooSmall) && dst[..] == Overwrite(old(dst[..]), offset, Encode(text)[..dst.Length - offset])
  {
    var bytes := Encode(text);
    var room := dst.Length - offset;
    if |bytes| > room {
      var _ := BlockCopy(bytes[..room], dst, offset);
      return Failure(ArgumentTooSmall);
    }
    var _ := BlockCopy(bytes, dst, offset);
    return Success(|bytes|);
  }
}
