/**
  Big-endian positional numerals in an arbitrary base. Base 256 gives the byte
  strings of `big.Int.Bytes` and `LeftPadBytes`, base 10 the decimal text that
  `big.Int.String` prints and `big.Int.SetString` reads.
*/
module Positional {

  function Pow(b: nat, k: nat): nat {
    if k == 0 then 1 else b * Pow(b, k - 1)
  }

  ghost predicate InBase(b: nat, ds: seq<nat>) {
    forall i :: 0 <= i < |ds| ==> ds[i] < b
  }

  /** The number a digit string denotes, most significant digit first. */
  function Eval(b: nat, ds: seq<nat>): nat {
    if |ds| == 0 then 0 else Eval(b, ds[..|ds| - 1]) * b + ds[|ds| - 1]
  }

  /** The shortest digit string of n; empty for zero, as `big.Int.Bytes` returns it. */
  function Digits(b: nat, n: nat): (ds: seq<nat>)
    requires b >= 2
    ensures InBase(b, ds)
    ensures n > 0 ==> |ds| > 0 && ds[0] != 0
  {
    if n == 0 then [] else Digits(b, n / b) + [n % b]
  }

  function Zeros(k: nat): (ds: seq<nat>)
    ensures |ds| == k && forall i :: 0 <= i < k ==> ds[i] == 0
  {
    seq(k, _ => 0)
  }

  /** Pads with zero digits on the left up to length k; longer strings are returned as they are. */
  function LeftPad(ds: seq<nat>, k: nat): seq<nat> {
    if k <= |ds| then ds else Zeros(k - |ds|) + ds
  }

  lemma MulMonotone(x: nat, y: nat, b: nat)
    requires x <= y
    ensures x * b <= y * b
  {
  }

  lemma Distribute(x: int, y: int, p: int)
    ensures (x + y) * p == x * p + y * p
  {
  }

  /** The ways in which a product of three may be taken. */
  lemma MulAssoc(x: int, y: int, z: int)
    ensures x * (y * z) == (x * y) * z == (x * z) * y == y * (x * z)
  {
  }

  lemma DivMod(n: nat, b: nat)
    requires b > 0
    ensures n == (n / b) * b + n % b
  {
  }

  lemma PowPositive(b: nat, k: nat)
    requires b > 0
    ensures Pow(b, k) > 0
  {
    if k > 0 {
      PowPositive(b, k - 1);
    }
  }

  lemma {:induction false} PowAdd(b: nat, j: nat, k: nat)
    ensures Pow(b, j + k) == Pow(b, j) * Pow(b, k)
  {
    if j > 0 {
      PowAdd(b, j - 1, k);
      MulAssoc(b, Pow(b, j - 1), Pow(b, k));
    }
  }

  lemma EvalSnoc(b: nat, ds: seq<nat>, d: nat)
    ensures Eval(b, ds + [d]) == Eval(b, ds) * b + d
  {
    assert (ds + [d])[..|ds + [d]| - 1] == ds;
  }

  lemma {:induction false} EvalDigits(b: nat, n: nat)
    requires b >= 2
    ensures Eval(b, Digits(b, n)) == n
  {
    if n > 0 {
      EvalDigits(b, n / b);
      EvalDigitsStep(b, n, n / b, n % b);
    }
  }

  lemma EvalDigitsStep(b: nat, n: nat, q: nat, r: nat)
    requires b >= 2 && n > 0 && q == n / b && r == n % b && Eval(b, Digits(b, q)) == q
    ensures Eval(b, Digits(b, n)) == n
  {
    hide Eval;
    DivMod(n, b);
    EvalSnoc(b, Digits(b, q), r);
  }

  lemma {:induction false} EvalConcat(b: nat, x: seq<nat>, y: seq<nat>)
    ensures Eval(b, x + y) == Eval(b, x) * Pow(b, |y|) + Eval(b, y)
  {
    if |y| == 0 {
      assert x + y == x;
    } else {
      var y' := y[..|y| - 1];
      EvalConcat(b, x, y');
      assert (x + y)[..|x + y| - 1] == x + y';
      ConcatStep(Eval(b, x), Pow(b, |y'|), Eval(b, y'), b, y[|y| - 1]);
    }
  }

  lemma ConcatStep(e: nat, p: nat, f: nat, b: nat, d: nat)
    ensures (e * p + f) * b + d == e * (b * p) + (f * b + d)
  {
    assert (e * p) * b == e * (b * p);
    assert (e * p + f) * b == (e * p) * b + f * b;
  }

  lemma {:induction false} EvalZeros(b: nat, k: nat)
    ensures Eval(b, Zeros(k)) == 0
  {
    if k > 0 {
      EvalZeros(b, k - 1);
      assert Zeros(k)[..k - 1] == Zeros(k - 1);
    }
  }

  /** Padding on the left never changes the number. */
  lemma EvalLeftPad(b: nat, ds: seq<nat>, k: nat)
    ensures Eval(b, LeftPad(ds, k)) == Eval(b, ds)
  {
    if |ds| < k {
      EvalConcat(b, Zeros(k - |ds|), ds);
      EvalZeros(b, k - |ds|);
    }
  }

  lemma {:induction false} EvalBound(b: nat, ds: seq<nat>)
    requires b > 0 && InBase(b, ds)
    ensures Eval(b, ds) < Pow(b, |ds|)
  {
    if |ds| > 0 {
      var ds' := ds[..|ds| - 1];
      EvalBound(b, ds');
      var e, p := Eval(b, ds'), Pow(b, |ds'|);
      MulMonotone(e + 1, p, b);
      assert (e + 1) * b == e * b + b;
    }
  }

  /** Digit strings of one length are determined by their number. */
  lemma {:induction false} EvalInjective(b: nat, x: seq<nat>, y: seq<nat>)
    requires b > 0 && InBase(b, x) && InBase(b, y)
    requires |x| == |y| && Eval(b, x) == Eval(b, y)
    ensures x == y
  {
    if |x| > 0 {
      var x', y' := x[..|x| - 1], y[..|y| - 1];
      LastDigit(b, Eval(b, x'), x[|x| - 1]);
      LastDigit(b, Eval(b, y'), y[|y| - 1]);
      EvalInjective(b, x', y');
      assert x == x' + [x[|x| - 1]] && y == y' + [y[|y| - 1]];
    }
  }

  lemma LastDigit(b: nat, q: nat, d: nat)
    requires d < b
    ensures (q * b + d) / b == q && (q * b + d) % b == d
  {
    var n := q * b + d;
    DivMod(n, b);
    var q' := n / b;
    if q' < q {
      MulMonotone(q' + 1, q, b);
    }
    if q < q' {
      MulMonotone(q + 1, q', b);
    }
  }

  lemma QuotientBelow(n: nat, b: nat, p: nat)
    requires b > 0
    ensures n / b < p <==> n < b * p
  {
    DivMod(n, b);
    var q := n / b;
    if q < p {
      MulMonotone(q + 1, p, b);
      assert (q + 1) * b == q * b + b;
    } else {
      MulMonotone(p, q, b);
    }
  }

  /** The shortest digit string fits in k digits exactly when the number is below b^k. */
  lemma {:induction false} DigitsLength(b: nat, n: nat, k: nat)
    requires b >= 2
    ensures |Digits(b, n)| <= k <==> n < Pow(b, k)
  {
    if n == 0 {
      PowPositive(b, k);
    } else if k > 0 {
      DigitsLength(b, n / b, k - 1);
      QuotientBelow(n, b, Pow(b, k - 1));
    }
  }

  /** The k-digit string of a number below b^k. */
  function Fixed(b: nat, n: nat, k: nat): (ds: seq<nat>)
    requires b >= 2 && n < Pow(b, k)
    ensures |ds| == k && InBase(b, ds) && Eval(b, ds) == n
  {
    DigitsLength(b, n, k);
    EvalLeftPad(b, Digits(b, n), k);
    EvalDigits(b, n);
    LeftPad(Digits(b, n), k)
  }

  /** Reading a k-digit string and printing it again in k digits gives it back. */
  lemma FixedEval(b: nat, ds: seq<nat>)
    requires b >= 2 && InBase(b, ds)
    ensures Eval(b, ds) < Pow(b, |ds|)
    ensures Fixed(b, Eval(b, ds), |ds|) == ds
  {
    EvalBound(b, ds);
    EvalInjective(b, Fixed(b, Eval(b, ds), |ds|), ds);
  }
}
