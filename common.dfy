// Value types shared by every part of the model: bytes, the C# integer
// widths, C#'s truncating division, the exceptions the modelled code can
// raise, and the Option/Result wrappers that carry them.
module Common {

  /** One octet, as held in a C# byte[]. */
  type byte = b: int | 0 <= b < 0x100

  const INT32_MIN: int := -0x8000_0000
  const INT32_MAX: int := 0x7FFF_FFFF
  const INT64_MIN: int := -0x8000_0000_0000_0000
  const INT64_MAX: int := 0x7FFF_FFFF_FFFF_FFFF

  /** C#'s `int`. */
  type int32 = x: int | -0x8000_0000 <= x <= 0x7FFF_FFFF

  /** C#'s `long`. */
  type int64 = x: int | -0x8000_0000_0000_0000 <= x <= 0x7FFF_FFFF_FFFF_FFFF

  datatype Option<+T> = None | Some(value: T)

  /** The exceptions raised by the modelled code or by the library calls it makes. */
  datatype Exception =
    | IndexOutOfRange   // an index outside an array or a string
    | Overflow          // an array allocated with a negative length
    | ArgumentTooSmall  // a destination buffer too short for a copy or an encoding
    | FileNotFound      // a move whose source file does not exist
    | FileExists        // a no-overwrite move onto a file that already exists
    | IOError           // the device holding a file reports an error

  datatype Result<+T> = Success(value: T) | Failure(error: Exception)

  /** The outcome of an operation that returns nothing. */
  datatype Outcome = Ok | Err(error: Exception)

  /** `c + 1` in C#'s unchecked int arithmetic: the largest int wraps to the smallest. */
  function Increment(c: int32): (r: int32)
    ensures c < INT32_MAX ==> r == c + 1
    ensures (c + 1 - r) % 0x1_0000_0000 == 0
  {
    if c == INT32_MAX then INT32_MIN else c + 1
  }

  function CsDiv(a: int, b: int): int
    requires b > 0
  {
    if a >= 0 then a / b else -((-a) / b)
  }

  /** C#'s integer `%` on a positive divisor: the remainder takes the sign of the dividend. */
  function CsRem(a: int, b: int): (r: int)
    requires b > 0
    ensures a == CsDiv(a, b) * b + r
    ensures a >= 0 ==> 0 <= r < b
    ensures a < 0 ==> -b < r <= 0
  {
    if a >= 0 then a % b else -((-a) % b)
  }

  predicate IsAsciiChar(c: char) {
    c as int < 0x80
  }

  predicate IsAscii(s: string) {
    forall i :: 0 <= i < |s| ==> IsAsciiChar(s[i])
  }

  /** The number of occurrences of `c` in `s`. */
  function Count(s: string, c: char): nat {
    if s == [] then 0 else (if s[0] == c then 1 else 0) + Count(s[1..], c)
  }

  lemma {:induction false} CountAppend(a: string, b: string, c: char)
    ensures Count(a + b, c) == Count(a, c) + Count(b, c)
  {
    if a == [] {
      assert a + b == b;
    } else {
      assert (a + b)[1..] == a[1..] + b;
      CountAppend(a[1..], b, c);
    }
  }

  lemma {:induction false} CountAbsent(s: string, c: char)
    ensures c !in s <==> Count(s, c) == 0
  {
    if s != [] {
      CountAbsent(s[1..], c);
      assert s == [s[0]] + s[1..];
    }
  }
}
