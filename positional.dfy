// Fixed-width positional notation in a radix b >= 2, as digit values,
// most significant digit first. Both the base-36 file-name fields and the
// zero-padded decimal fields of the date formats are instances of it.
module Positional {

  function Pow(b: nat, n: nat): (r: nat)
    ensures b > 0 ==> r > 0
  {
    if n == 0 then 1 else b * Pow(b, n - 1)
  }

  /** The `w` low-order base-`b` digits of `v`, most significant first. */
  function Digits(v: nat, w: nat, b: nat): (ds: seq<nat>)
    requires b >= 2
    ensures |ds| == w
    ensures forall i :: 0 <= i < w ==> ds[i] < b
  {
    if w == 0 then [] else Digits(v / b, w - 1, b) + [v % b]
  }

  /** The number a digit sequence denotes in base `b`. */
  function Value(ds: seq<nat>, b: nat): nat {
    if ds == [] then 0 else Value(ds[..|ds| - 1], b) * b + ds[|ds| - 1]
  }

  predicate DigitsBelow(ds: seq<nat>, b: nat) {
    forall i :: 0 <= i < |ds| ==> ds[i] < b
  }

  lemma MulAtLeast(k: int, m: int)
    requires k >= 1 && m >= 0
    ensures k * m >= m
  {
    assert k * m == (k - 1) * m + m;
  }

  /** A multiple of m strictly between -m and m is zero. */
  lemma SmallMultipleIsZero(d: int, m: int)
    requires m > 0 && -m < d * m < m
    ensures d == 0
  {
    if d >= 1 {
      MulAtLeast(d, m);
      assert false;
    } else if d <= -1 {
      MulAtLeast(-d, m);
      assert false;
    }
  }

  /** Euclidean division has one quotient and one remainder. */
  lemma DivModUnique(v: int, m: int, q: int, r: int)
    requires m > 0 && v == q * m + r && 0 <= r < m
    ensures v / m == q && v % m == r
  {
    var q', r' := v / m, v % m;
    assert (q - q') * m == r' - r by {
      assert (q - q') * m == q * m - q' * m;
    }
    SmallMultipleIsZero(q - q', m);
  }

  /** Consecutive numbers leave different remainders. */
  lemma ModSuccessor(x: nat, m: nat)
    requires m >= 2
    ensures (x + 1) % m != x % m
  {
    var q, r := x / m, x % m;
    if r < m - 1 {
      DivModUnique(x + 1, m, q, r + 1);
    } else {
      DivModUnique(x + 1, m, q + 1, 0);
    }
  }

  /** Taking digits one at a time: the quotient's low digits, then the remainder. */
  lemma DivModCompose(v: nat, b: nat, p: nat)
    requires b > 0 && p > 0
    ensures (v / b) % p * b + v % b == v % (p * b)
  {
    var q, r := v / b, v % b;
    var s, t := q / p, q % p;
    assert v == s * (p * b) + (t * b + r) by {
      assert v == q * b + r;
      assert q == s * p + t;
    }
    assert t * b + r < p * b by {
      assert t <= p - 1;
      assert t * b <= (p - 1) * b;
    }
    DivModUnique(v, p * b, s, t * b + r);
  }

  lemma {:induction false} ValueOfDigits(v: nat, w: nat, b: nat)
    requires b >= 2
    ensures Value(Digits(v, w, b), b) == v % Pow(b, w)
    decreases w
  {
    if w > 0 {
      var ds, p := Digits(v, w, b), Pow(b, w - 1);
      assert ds[..w - 1] == Digits(v / b, w - 1, b) && ds[w - 1] == v % b;
      ValueOfDigits(v / b, w - 1, b);
      assert Value(ds, b) == (v / b) % p * b + v % b;
      DivModCompose(v, b, p);
      assert Pow(b, w) == p * b;
    }
  }

  /** One more digit below b keeps a value below b times the old bound. */
  lemma AppendDigitBound(x: int, p: int, b: int, d: int)
    requires 0 <= x < p && 0 <= d < b
    ensures x * b + d < b * p
  {
    MulAtLeast(p - x, b);
    assert (p - x) * b == b * p - x * b;
  }

  lemma {:induction false} ValueBelow(ds: seq<nat>, b: nat)
    requires b >= 1 && DigitsBelow(ds, b)
    ensures Value(ds, b) < Pow(b, |ds|)
  {
    if ds != [] {
      var init := ds[..|ds| - 1];
      assert DigitsBelow(init, b);
      ValueBelow(init, b);
      AppendDigitBound(Value(init, b), Pow(b, |init|), b, ds[|ds| - 1]);
    }
  }

  lemma {:induction false} DigitsOfValue(ds: seq<nat>, b: nat)
    requires b >= 2 && DigitsBelow(ds, b)
    ensures Digits(Value(ds, b), |ds|, b) == ds
  {
    if ds != [] {
      var n := |ds|;
      var init := ds[..n - 1];
      var v := Value(ds, b);
      DivModUnique(v, b, Value(init, b), ds[n - 1]);
      DigitsOfValue(init, b);
      assert ds == init + [ds[n - 1]];
    }
  }

  /** Values that agree modulo b^w have the same w low-order digits. */
  lemma DigitsMod(v: nat, w: nat, b: nat)
    requires b >= 2
    ensures Digits(v, w, b) == Digits(v % Pow(b, w), w, b)
  {
    var ds := Digits(v, w, b);
    ValueOfDigits(v, w, b);
    DigitsOfValue(ds, b);
  }

  /** Below b^w the w-digit representation is exact. */
  lemma DigitsExact(v: nat, w: nat, b: nat)
    requires b >= 2 && v < Pow(b, w)
    ensures Value(Digits(v, w, b), b) == v
  {
    ValueOfDigits(v, w, b);
    DivModUnique(v, Pow(b, w), 0, v);
  }
}
