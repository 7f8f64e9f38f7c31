/** Positional numerals of fixed length, most significant digit first. */
module Numerals {

  function Pow(b: nat, n: nat): nat {
    if n == 0 then 1 else b * Pow(b, n - 1)
  }

  predicate IsNumeral(b: nat, ds: seq<nat>) {
    forall k :: 0 <= k < |ds| ==> ds[k] < b
  }

  function Value(b: nat, ds: seq<nat>): nat {
    if ds == [] then 0 else Value(b, ds[..|ds| - 1]) * b + ds[|ds| - 1]
  }

  /** The lowest `len` digits of `n`. */
  function Digits(b: nat, n: nat, len: nat): (ds: seq<nat>)
    requires b > 0
    ensures |ds| == len
    decreases len
  {
    if len == 0 then [] else Digits(b, n / b, len - 1) + [n % b]
  }

  lemma MulMonotone(x: nat, y: nat, b: nat)
    requires x <= y
    ensures x * b <= y * b
  {
  }

  lemma DivMod(b: nat, q: nat, r: nat)
    requires r < b
    ensures (q * b + r) / b == q && (q * b + r) % b == r
  {
    var n := q * b + r;
    var p := n / b;
    assert n == p * b + n % b;
    if p > q {
      MulMonotone(q + 1, p, b);
      assert false;
    }
    if p < q {
      MulMonotone(p + 1, q, b);
      assert false;
    }
  }

  lemma {:induction false} DigitsAreNumeral(b: nat, n: nat, len: nat)
    requires b > 0
    ensures IsNumeral(b, Digits(b, n, len))
    decreases len
  {
    if len > 0 {
      DigitsAreNumeral(b, n / b, len - 1);
    }
  }

  lemma DivisionIdentity(b: nat, n: nat)
    requires b > 0
    ensures n == n / b * b + n % b
  {
  }

  lemma ValueAppends(b: nat, ds: seq<nat>, d: nat)
    ensures Value(b, ds + [d]) == Value(b, ds) * b + d
  {
    assert (ds + [d])[..|ds|] == ds;
  }

  lemma QuotientBound(b: nat, n: nat, len: nat)
    requires b > 0 && len > 0 && n < Pow(b, len)
    ensures n / b < Pow(b, len - 1)
  {
    var q, m := n / b, Pow(b, len - 1);
    assert n == q * b + n % b;
    assert n < m * b;
    if q >= m {
      MulMonotone(m, q, b);
      assert false;
    }
  }

  /** A number that fits is the value of its digits. */
  lemma {:induction false} ValueOfDigits(b: nat, n: nat, len: nat)
    requires b > 0 && n < Pow(b, len)
    ensures Value(b, Digits(b, n, len)) == n
    decreases len
  {
    if len > 0 {
      QuotientBound(b, n, len);
      ValueOfDigits(b, n / b, len - 1);
      ValueAppends(b, Digits(b, n / b, len - 1), n % b);
      DivisionIdentity(b, n);
    }
  }

  /** A numeral is given back by its value, so equal values mean equal numerals of one length. */
  lemma {:induction false} DigitsOfValue(b: nat, ds: seq<nat>)
    requires b > 0 && IsNumeral(b, ds)
    ensures Digits(b, Value(b, ds), |ds|) == ds
    decreases |ds|
  {
    if ds != [] {
      var front, last := ds[..|ds| - 1], ds[|ds| - 1];
      DigitsOfValue(b, front);
      DivMod(b, Value(b, front), last);
      assert ds == front + [last];
    }
  }

  lemma AppendBound(b: nat, q: nat, r: nat, m: nat)
    requires r < b && q < m
    ensures q * b + r < b * m
  {
    MulMonotone(q + 1, m, b);
  }

  lemma {:induction false} ValueBound(b: nat, ds: seq<nat>)
    requires b > 0 && IsNumeral(b, ds)
    ensures Value(b, ds) < Pow(b, |ds|)
    decreases |ds|
  {
    if ds != [] {
      var front, last := ds[..|ds| - 1], ds[|ds| - 1];
      ValueBound(b, front);
      AppendBound(b, Value(b, front), last, Pow(b, |front|));
    }
  }

  /** Splitting off the last digit still to come. */
  lemma DigitsExtended(b: nat, all: seq<nat>, rest: nat, len: nat, ds: seq<nat>)
    requires b > 0 && len > 0 && all == Digits(b, rest, len) + ds
    ensures all == Digits(b, rest / b, len - 1) + ([rest % b] + ds)
  {
    var front := Digits(b, rest / b, len - 1);
    assert front + [rest % b] + ds == front + ([rest % b] + ds);
  }
}
