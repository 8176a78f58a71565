/**
  The decimal library's numbers, coefficient * 10^exponent: the operations that
  `ToDecimal` and `ToWei` go through, and what they do to the number denoted.
*/
module Decimals {
  import opened Positional
  import opened DecimalText
  import opened Subscriptions

  datatype Decimal = Decimal(coeff: int, exp: int)

  /** v * 10^-k: a number with k digits behind the decimal point. */
  function Places(v: int, k: nat): Decimal {
    var places: int := k;
    Decimal(v, -places)
  }

  /** d * 10^k as an integer, for k large enough. */
  function AtScale(d: Decimal, k: int): int
    requires d.exp + k >= 0
  {
    d.coeff * Pow(10, d.exp + k)
  }

  function Min(a: int, b: int): int {
    if a < b then a else b
  }

  function Add(a: Decimal, b: Decimal): Decimal {
    var base := Min(a.exp, b.exp);
    Decimal(AtScale(a, -base) + AtScale(b, -base), base)
  }

  function Mul(a: Decimal, b: Decimal): Decimal {
    Decimal(a.coeff * b.coeff, a.exp + b.exp)
  }

  /** Negative, zero or positive as a is below, equal to or above b; both rescaled to the smaller exponent. */
  function Cmp(a: Decimal, b: Decimal): int {
    var base := Min(a.exp, b.exp);
    AtScale(a, -base) - AtScale(b, -base)
  }

  predicate Equal(a: Decimal, b: Decimal) {
    Cmp(a, b) == 0
  }

  /** Quotient truncated towards zero. */
  function Quo(a: int, b: nat): int
    requires b > 0
  {
    WithSign(a < 0, Abs(a) / b)
  }

  /** `QuoRem` for a positive divisor: truncated quotient at `precision` digits, and the remainder. */
  function QuoRem(a: Decimal, b: Decimal, precision: nat): (Decimal, Decimal)
    requires b.coeff > 0
  {
    var p: int := precision;
    var e := a.exp - b.exp + p;
    var aa := if e < 0 then a.coeff else a.coeff * Pow(10, e);
    PowPositive(10, if e < 0 then -e else 0);
    var bb: nat := if e < 0 then Scaled(b.coeff, Pow(10, -e)) else b.coeff;
    var rest := if e < 0 then a.exp else b.exp - p;
    (Decimal(Quo(aa, bb), -p), Decimal(aa - Quo(aa, bb) * bb, rest))
  }

  function Scaled(x: nat, y: nat): (r: nat)
    requires x > 0 && y > 0
    ensures r == x * y && r > 0
  {
    x * y
  }

  /** `DivRound`: the quotient is moved away from zero when twice the remainder reaches the divisor. */
  function DivRound(a: Decimal, b: Decimal, precision: nat): Decimal
    requires b.coeff > 0
  {
    var (q, r) := QuoRem(a, b, precision);
    var twice := Decimal(2 * Abs(r.coeff), r.exp + precision);
    if Cmp(twice, b) < 0 then q
    else if a.coeff < 0 then Add(q, Decimal(-1, q.exp))
    else Add(q, Decimal(1, q.exp))
  }

  /** Cuts the zeros at the end of a text. */
  function TrimZeros(s: string): string {
    if |s| > 0 && s[|s| - 1] == '0' then TrimZeros(s[..|s| - 1]) else s
  }

  function ZeroText(k: nat): (s: string)
    ensures s == ToText(Zeros(k))
  {
    seq(k, _ => '0')
  }

  /** `String`: no exponent, no trailing zeros behind the decimal point. */
  function Print(d: Decimal): string {
    if d.exp >= 0 then PrintInt(AtScale(d, 0))
    else PrintPlaces(d.coeff, -d.exp)
  }

  /** The text of a coefficient whose last k digits are behind the decimal point. */
  function PrintPlaces(c: int, k: nat): string {
    var str := PrintNat(Abs(c));
    PointText(c < 0, IntPart(str, k), FracPart(str, k))
  }

  /** The digits before the decimal point, when the last k digits are behind it. */
  function IntPart(str: string, k: nat): string {
    if |str| > k then str[..|str| - k] else "0"
  }

  function FracPart(str: string, k: nat): string {
    if |str| > k then str[|str| - k..] else ZeroText(k - |str|) + str
  }

  /** Moving the decimal point of both sides. */
  lemma EqualShift(c: int, e: int, n: nat, v: int)
    ensures Equal(Decimal(c, e + n), Decimal(v, 0)) <==> Equal(Decimal(c, e), Places(v, n))
  {
    var n': int := n;
    var base := Min(e, -n');
    assert Min(e + n, 0) == base + n;
    assert AtScale(Decimal(c, e + n), -(base + n)) == AtScale(Decimal(c, e), -base);
    assert AtScale(Decimal(v, 0), -(base + n)) == AtScale(Places(v, n), -base);
  }

  lemma MulCancel(x: int, y: int, p: nat)
    requires p > 0
    ensures x * p == y * p <==> x == y
    ensures x * p < y * p <==> x < y
  {
    if x < y {
      MulStrict(x, y, p);
    }
    if y < x {
      MulStrict(y, x, p);
    }
  }

  lemma MulStrict(x: int, y: int, p: nat)
    requires p > 0 && x < y
    ensures x * p < y * p
  {
    Distribute(x, y - x, p);
    MulPositive(y - x, p);
  }

  lemma MulPositive(x: int, p: nat)
    requires x > 0 && p > 0
    ensures x * p > 0
  {
  }

  lemma AtScaleShift(d: Decimal, k: int, j: nat)
    requires d.exp + k >= 0
    ensures AtScale(d, k + j) == AtScale(d, k) * Pow(10, j)
  {
    PowAdd(10, d.exp + k, j);
    MulAssoc(d.coeff, Pow(10, d.exp + k), Pow(10, j));
  }

  lemma MulSign(negative: bool, a: nat, m: nat)
    ensures WithSign(negative, a) * m == WithSign(negative, a * m)
  {
  }

  lemma CmpSameExponent(a: Decimal, b: Decimal)
    requires a.exp == b.exp
    ensures Cmp(a, b) == a.coeff - b.coeff
  {
  }

  lemma AddUnit(q: Decimal)
    ensures Add(q, Decimal(1, q.exp)) == Decimal(q.coeff + 1, q.exp)
    ensures Add(q, Decimal(-1, q.exp)) == Decimal(q.coeff - 1, q.exp)
  {
    assert AtScale(q, -q.exp) == q.coeff;
  }

  /** Comparison may be made at any scale that both numbers reach. */
  lemma CmpAtScale(a: Decimal, b: Decimal, k: int)
    requires a.exp + k >= 0 && b.exp + k >= 0
    ensures Cmp(a, b) == 0 <==> AtScale(a, k) == AtScale(b, k)
    ensures Cmp(a, b) < 0 <==> AtScale(a, k) < AtScale(b, k)
  {
    var base := Min(a.exp, b.exp);
    var j: nat := k + base;
    AtScaleShift(a, -base, j);
    AtScaleShift(b, -base, j);
    PowPositive(10, j);
    MulCancel(AtScale(a, -base), AtScale(b, -base), Pow(10, j));
  }

  lemma EqualCongruent(a: Decimal, b: Decimal, c: Decimal)
    requires Equal(a, b)
    ensures Equal(a, c) <==> Equal(b, c)
  {
    var k := Abs(a.exp) + Abs(b.exp) + Abs(c.exp);
    CmpAtScale(a, b, k);
    CmpAtScale(a, c, k);
    CmpAtScale(b, c, k);
  }

  lemma EqualSymmetric(a: Decimal, b: Decimal)
    ensures Equal(a, b) <==> Equal(b, a)
  {
  }

  lemma EqualReflexive(a: Decimal)
    ensures Equal(a, a)
  {
  }

  lemma AddAtScale(a: Decimal, b: Decimal, k: int)
    requires a.exp + k >= 0 && b.exp + k >= 0
    ensures AtScale(Add(a, b), k) == AtScale(a, k) + AtScale(b, k)
  {
    var base := Min(a.exp, b.exp);
    var j: nat := k + base;
    AtScaleShift(a, -base, j);
    AtScaleShift(b, -base, j);
    Distribute(AtScale(a, -base), AtScale(b, -base), Pow(10, j));
  }

  /** Multiplication gives the product of the numbers, at every pair of scales. */
  lemma MulIsProduct(a: Decimal, b: Decimal, i: int, j: int)
    requires a.exp + i >= 0 && b.exp + j >= 0
    ensures AtScale(Mul(a, b), i + j) == AtScale(a, i) * AtScale(b, j)
  {
    PowAdd(10, a.exp + i, b.exp + j);
    FourFactors(a.coeff, b.coeff, Pow(10, a.exp + i), Pow(10, b.exp + j));
  }

  lemma FourFactors(x: int, y: int, p: int, q: int)
    ensures (x * y) * (p * q) == (x * p) * (y * q)
  {
    MulAssoc(x, y, p * q);
    MulAssoc(y, p, q);
    MulAssoc(x, p, y * q);
  }

  /** A scale that both numbers and a number of decimals reach. */
  function CommonScale(a: Decimal, b: Decimal, decimals: nat): (k: nat)
    ensures k >= decimals && a.exp + k >= 0 && b.exp + k >= 0
  {
    decimals + Abs(a.exp) + Abs(b.exp)
  }

  /** The number s is the sum of the numbers a and b. */
  ghost predicate IsSum(s: Decimal, a: Decimal, b: Decimal) {
    forall k {:trigger AtScale(s, k)} :: s.exp + k >= 0 && a.exp + k >= 0 && b.exp + k >= 0 ==>
      AtScale(s, k) == AtScale(a, k) + AtScale(b, k)
  }

  lemma AddIsSum(a: Decimal, b: Decimal)
    ensures IsSum(Add(a, b), a, b)
  {
    forall k | a.exp + k >= 0 && b.exp + k >= 0 ensures AtScale(Add(a, b), k) == AtScale(a, k) + AtScale(b, k) {
      AddAtScale(a, b, k);
    }
  }

  lemma PlacesAdd(a: Decimal, b: Decimal, s: Decimal, x: int, y: int, n: nat)
    requires Equal(a, Places(x, n)) && Equal(b, Places(y, n)) && IsSum(s, a, b)
    ensures Equal(s, Places(x + y, n))
  {
    var k := CommonScale(a, b, n) + Abs(s.exp);
    CmpAtScale(a, Places(x, n), k);
    CmpAtScale(b, Places(y, n), k);
    Distribute(x, y, Pow(10, k - n));
    CmpAtScale(s, Places(x + y, n), k);
  }

  lemma PlacesOrder(a: Decimal, b: Decimal, x: int, y: int, n: nat)
    requires Equal(a, Places(x, n)) && Equal(b, Places(y, n))
    ensures Cmp(a, b) < 0 <==> x < y
    ensures Cmp(a, b) == 0 <==> x == y
  {
    var k := CommonScale(a, b, n);
    CmpAtScale(a, Places(x, n), k);
    CmpAtScale(b, Places(y, n), k);
    CmpAtScale(a, b, k);
    PowPositive(10, k - n);
    MulCancel(x, y, Pow(10, k - n));
  }

  lemma {:induction false} EvalZeroDigits(ds: seq<nat>)
    requires InBase(10, ds)
    ensures Eval(10, ds) == 0 <==> TrimZeros(ToText(ds)) == ""
  {
    if |ds| > 0 {
      var front := ds[..|ds| - 1];
      EvalZeroDigits(front);
      assert ToText(ds)[..|ds| - 1] == ToText(front);
    }
  }

  /** The digits before and behind the decimal point, as one digit string. */
  function Padded(n: nat, k: nat): (full: seq<nat>)
    ensures |full| > k && InBase(10, full)
  {
    LeftPad(DecimalDigits(n), k + 1)
  }

  lemma Parts(n: nat, k: nat)
    ensures var full := Padded(n, k);
            var whole, frac := full[..|full| - k], full[|full| - k..];
            && |whole| > 0 && InBase(10, full)
            && ToText(whole) == IntPart(PrintNat(n), k) && ToText(frac) == FracPart(PrintNat(n), k)
  {
    PartsOfDigits(DecimalDigits(n), k);
  }

  lemma PartsOfDigits(ds: seq<nat>, k: nat)
    requires |ds| > 0 && InBase(10, ds)
    ensures var full := LeftPad(ds, k + 1);
            var whole, frac := full[..|full| - k], full[|full| - k..];
            && |whole| > 0 && InBase(10, full)
            && ToText(whole) == IntPart(ToText(ds), k) && ToText(frac) == FracPart(ToText(ds), k)
  {
    if |ds| <= k {
      ShortParts(ds, k);
    }
  }

  /** All digits are behind the decimal point. */
  lemma ShortParts(ds: seq<nat>, k: nat)
    requires InBase(10, ds) && |ds| <= k
    ensures var full := LeftPad(ds, k + 1);
            && |full| == k + 1 && InBase(10, full)
            && ToText(full[..1]) == "0" && ToText(full[1..]) == ZeroText(k - |ds|) + ToText(ds)
  {
    var full := LeftPad(ds, k + 1);
    assert full == Zeros(k + 1 - |ds|) + ds;
    assert full[..1] == [0] && full[1..] == Zeros(k - |ds|) + ds;
  }

  /** Splitting a digit string k digits from its end divides its number by 10^k. */
  lemma SplitDivides(full: seq<nat>, k: nat)
    requires InBase(10, full) && k <= |full|
    ensures Pow(10, k) > 0
    ensures Eval(10, full[..|full| - k]) == Eval(10, full) / Pow(10, k)
    ensures Eval(10, full[|full| - k..]) == Eval(10, full) % Pow(10, k)
  {
    assert full == full[..|full| - k] + full[|full| - k..];
    JoinDivides(full[..|full| - k], full[|full| - k..]);
  }

  lemma JoinDivides(whole: seq<nat>, frac: seq<nat>)
    requires InBase(10, frac)
    ensures Pow(10, |frac|) > 0
    ensures Eval(10, whole + frac) / Pow(10, |frac|) == Eval(10, whole)
    ensures Eval(10, whole + frac) % Pow(10, |frac|) == Eval(10, frac)
  {
    PowPositive(10, |frac|);
    EvalConcat(10, whole, frac);
    EvalBound(10, frac);
    LastDigit(Pow(10, |frac|), Eval(10, whole), Eval(10, frac));
  }

  /** The text of a number given by the digits before and behind its decimal point. */
  function PointText(negative: bool, whole: string, frac: string): string {
    var trimmed := TrimZeros(frac);
    Signed(negative, if |trimmed| > 0 then whole + "." + trimmed else whole)
  }

  lemma ParsePoint(negative: bool, whole: seq<nat>, frac: seq<nat>)
    requires |whole| > 0 && InBase(10, whole) && InBase(10, frac)
    ensures ParseInt(PointText(negative, ToText(whole), ToText(frac)))
         == if Eval(10, frac) == 0 then Some(WithSign(negative, Eval(10, whole))) else None
  {
    EvalZeroDigits(frac);
    if TrimZeros(ToText(frac)) == "" {
      ParseDigits(whole, negative);
    } else {
      PointDoesNotParse(whole, TrimZeros(ToText(frac)), negative);
    }
  }

  lemma ParseOfPlaces(c: int, k: nat, p: nat)
    requires p == Pow(10, k) && p > 0
    ensures ParseInt(PrintPlaces(c, k)) == if Abs(c) % p == 0 then Some(Quo(c, p)) else None
  {
    hide Pow, ParseInt, PointText, IntPart, FracPart, PrintNat;
    ParseOfParts(c < 0, Abs(c), k, p);
  }

  lemma ParseOfParts(negative: bool, n: nat, k: nat, p: nat)
    requires p == Pow(10, k) && p > 0
    ensures ParseInt(PointText(negative, IntPart(PrintNat(n), k), FracPart(PrintNat(n), k)))
         == if n % p == 0 then Some(WithSign(negative, n / p)) else None
  {
    hide Pow, ParseInt, PointText, IntPart, FracPart, PrintNat, Eval, Padded;
    Parts(n, k);
    PaddedValue(n, k);
    ParseSplit(negative, Padded(n, k), k, p);
  }

  lemma PaddedValue(n: nat, k: nat)
    ensures Eval(10, Padded(n, k)) == n
  {
    hide Eval;
    EvalLeftPad(10, DecimalDigits(n), k + 1);
    EvalDecimalDigits(n);
  }

  lemma ParseSplit(negative: bool, full: seq<nat>, k: nat, p: nat)
    requires InBase(10, full) && k < |full| && p == Pow(10, k) && p > 0
    ensures ParseInt(PointText(negative, ToText(full[..|full| - k]), ToText(full[|full| - k..])))
         == if Eval(10, full) % p == 0 then Some(WithSign(negative, Eval(10, full) / p)) else None
  {
    hide Pow, ParseInt, PointText, Eval;
    SplitDivides(full, k);
    ParsePoint(negative, full[..|full| - k], full[|full| - k..]);
  }

  /** Printing and parsing: an integer comes back exactly, anything else is refused. */
  lemma ParseOfPrint(d: Decimal)
    ensures d.exp >= 0 ==> ParseInt(Print(d)) == Some(AtScale(d, 0))
    ensures d.exp < 0 ==> Pow(10, -d.exp) > 0
    ensures d.exp < 0 ==>
      ParseInt(Print(d)) == if Abs(d.coeff) % Pow(10, -d.exp) == 0 then Some(Quo(d.coeff, Pow(10, -d.exp))) else None
  {
    if d.exp >= 0 {
      ParsePrint(AtScale(d, 0));
    } else {
      PowPositive(10, -d.exp);
      ParseOfPlaces(d.coeff, -d.exp, Pow(10, -d.exp));
    }
  }

  /** Printing and parsing in terms of the number denoted: exactly the integers come back, as themselves. */
  lemma ParseOfPrintIff(d: Decimal, n: int)
    ensures ParseInt(Print(d)) == Some(n) <==> Equal(d, Decimal(n, 0))
  {
    ParseOfPrint(d);
    if d.exp >= 0 {
      CmpAtScale(d, Decimal(n, 0), 0);
      assert AtScale(Decimal(n, 0), 0) == n;
    } else {
      EqualsInteger(d, n);
      QuoExact(d.coeff, n, Pow(10, -d.exp));
    }
  }

  lemma EqualsInteger(d: Decimal, n: int)
    requires d.exp < 0
    ensures Equal(d, Decimal(n, 0)) <==> d.coeff == n * Pow(10, -d.exp)
  {
    CmpAtScale(d, Decimal(n, 0), -d.exp);
  }

  lemma QuoExact(c: int, n: int, p: nat)
    requires p > 0
    ensures Abs(c) % p == 0 && Quo(c, p) == n <==> c == n * p
  {
    var m, q := Abs(c), Abs(c) / p;
    DivMod(m, p);
    if c == n * p {
      var a := Abs(n);
      assert m == a * p + 0;
      LastDigit(p, a, 0);
    }
    if m % p == 0 {
      assert c == WithSign(c < 0, q) * p;
      MulCancel(WithSign(c < 0, q), n, p);
    }
  }
}
