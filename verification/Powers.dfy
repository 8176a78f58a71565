/**
  Powers of ten as the decimal library computes them: the exponent is itself a decimal,
  and it is halved by rounding division, so the precision of divisions matters.
*/
module Powers {
  import opened Positional
  import opened DecimalText
  import opened Decimals

  /** `NewFromFloat` of a whole number: the coefficient has no zeros at its end. */
  function OfFloat(n: nat): Decimal {
    StripZeros(n, 0)
  }

  function StripZeros(c: nat, e: nat): (d: Decimal)
    ensures c > 0 ==> d.coeff % 10 != 0
  {
    if c > 0 && c % 10 == 0 then StripZeros(c / 10, e + 1) else Decimal(c, e)
  }

  const TWO := Decimal(2, 0)
  const TEN := Decimal(1, 1)

  /** The exponents that occur: whole numbers, and quotients with `precision` digits behind the point. */
  predicate IsExponent(e: Decimal, precision: nat) {
    var p: int := precision;
    e.coeff >= 0 && (e.exp >= 0 || e.exp == -p)
  }

  /** `IntPart`. */
  function Whole(e: Decimal): nat
    requires e.coeff >= 0
  {
    PowPositive(10, if e.exp < 0 then -e.exp else 0);
    if e.exp >= 0 then Scale(e.coeff, e.exp) else e.coeff / Pow(10, -e.exp)
  }

  function Scale(c: nat, k: nat): nat {
    c * Pow(10, k)
  }

  /** An exponent in units of 10^-precision. */
  function Units(e: Decimal, precision: nat): nat
    requires IsExponent(e, precision)
  {
    Scale(e.coeff, e.exp + precision)
  }

  function Half(e: Decimal, precision: nat): Decimal {
    DivRound(e, TWO, precision)
  }

  /** Halving rounds up to the next unit. */
  lemma HalfIs(e: Decimal, precision: nat)
    requires IsExponent(e, precision)
    ensures var c := Units(e, precision); Half(e, precision) == Places(c - c / 2, precision)
    ensures IsExponent(Half(e, precision), precision)
    ensures Units(Half(e, precision), precision) == Units(e, precision) - Units(e, precision) / 2
  {
    var c := Units(e, precision);
    var (q, r) := QuoRem(e, TWO, precision);
    assert q == Places(c / 2, precision);
    assert 2 * Abs(r.coeff) == 2 * (c % 2) && r.exp + precision == 0;
    CmpSameExponent(Decimal(2 * (c % 2), 0), TWO);
    AddUnit(q);
    assert Pow(10, 0) == 1;
  }

  lemma WholeUnits(e: Decimal, precision: nat)
    requires IsExponent(e, precision)
    ensures Pow(10, precision) > 0 && Whole(e) == Units(e, precision) / Pow(10, precision)
  {
    PowPositive(10, precision);
    if e.exp >= 0 {
      PowAdd(10, e.exp, precision);
      MulAssoc(e.coeff, Pow(10, e.exp), Pow(10, precision));
      LastDigit(Pow(10, precision), Whole(e), 0);
    }
  }

  /** While a whole part is left, halving makes the exponent smaller. */
  lemma HalfShrinks(e: Decimal, precision: nat)
    requires IsExponent(e, precision) && precision > 0 && Whole(e) > 0
    ensures IsExponent(Half(e, precision), precision)
    ensures Units(Half(e, precision), precision) < Units(e, precision)
  {
    HalfIs(e, precision);
    WholeUnits(e, precision);
    AtLeastOne(Units(e, precision), Pow(10, precision));
    PowPositive(10, precision - 1);
  }

  lemma AtLeastOne(c: nat, d: nat)
    requires d > 0 && c / d > 0
    ensures c >= d
  {
  }

  /** `Pow` of ten. With no digits at all behind the point it would not end: half of 1 rounds to 1. */
  function PowTen(e: Decimal, precision: nat): (r: Decimal)
    requires precision > 0 && IsExponent(e, precision)
    ensures r.coeff == 1 && r.exp >= Whole(e)
    decreases Units(e, precision)
  {
    if Whole(e) == 0 then Decimal(1, 0)
    else
      HalfShrinks(e, precision);
      HalfWhole(e, precision);
      var half := PowTen(Half(e, precision), precision);
      if Whole(e) % 2 == 0 then Mul(half, half) else Mul(Mul(half, half), TEN)
  }

  /** Rounding never loses a whole unit. */
  lemma HalfWhole(e: Decimal, precision: nat)
    requires IsExponent(e, precision)
    ensures IsExponent(Half(e, precision), precision) && Whole(Half(e, precision)) >= Whole(e) / 2
  {
    HalfIs(e, precision);
    WholeUnits(e, precision);
    WholeUnits(Half(e, precision), precision);
    HalfQuotient(Units(e, precision), Pow(10, precision));
  }

  lemma HalfQuotient(c: nat, d: nat)
    requires d > 0
    ensures (c - c / 2) / d >= c / d / 2
  {
    var v := c / d;
    DivMod(c, d);
    MulMonotone(2 * (v / 2), v, d);
    assert 2 * (v / 2) * d == 2 * (d * (v / 2));
    QuotientBelow(c - c / 2, d, v / 2);
  }

  /** n / pw in units of d, rounded up, while v is n / pw rounded down. */
  ghost predicate Tracks(n: nat, d: nat, pw: nat, c: nat, v: nat) {
    && v * pw <= n < (v + 1) * pw
    && n * d <= c * pw < n * d + pw
  }

  lemma Smaller(x: nat, y: nat, p: nat)
    requires x < y
    ensures x * p + p <= y * p
  {
    MulMonotone(x + 1, y, p);
    assert (x + 1) * p == x * p + p;
  }

  /** Rounding up reaches the next whole number exactly when n is that close to the next multiple of pw. */
  lemma WholeIff(n: nat, d: nat, pw: nat, c: nat, v: nat)
    requires Tracks(n, d, pw, c, v) && d > 0
    ensures c / d >= v && n / pw == v
    ensures c / d == v <==> ((v + 1) * pw - n) * d >= pw
  {
    QuotientIs(n, pw, v);
    AtLeast(n, d, pw, c, v);
    AboveIff(c, d, v);
    ReachIff(n, d, pw, c, v + 1);
  }

  lemma AboveIff(c: nat, d: nat, v: nat)
    requires d > 0 && c >= v * d
    ensures c / d >= v && (c / d == v <==> c < (v + 1) * d)
  {
    QuotientBelow(c, d, v + 1);
    QuotientBelow(c, d, v);
  }

  lemma ReachIff(n: nat, d: nat, pw: nat, c: nat, k: nat)
    requires n < k * pw && n * d <= c * pw < n * d + pw
    ensures c < k * d <==> (k * pw - n) * d >= pw
  {
    var less: int := n;
    MulAssoc(k, d, pw);
    Distribute(k * pw, -less, d);
    if c < k * d {
      Smaller(c, k * d, pw);
    } else {
      MulMonotone(k * d, c, pw);
    }
  }

  lemma AtLeast(n: nat, d: nat, pw: nat, c: nat, v: nat)
    requires Tracks(n, d, pw, c, v)
    ensures c >= v * d
  {
    if c < v * d {
      Smaller(c, v * d, pw);
      MulAssoc(v, d, pw);
      MulMonotone(v * pw, n, d);
    }
  }

  lemma QuotientIs(c: nat, d: nat, v: nat)
    requires d > 0 && v * d <= c < (v + 1) * d
    ensures c / d == v
  {
    assert (v + 1) * d == v * d + d;
    LastDigit(d, v, c - v * d);
  }

  lemma TracksHalf(n: nat, d: nat, pw: nat, c: nat, v: nat)
    requires Tracks(n, d, pw, c, v)
    ensures Tracks(n, d, 2 * pw, c - c / 2, v / 2)
  {
    HalfBounds(v, pw, v / 2);
    HalfUpBounds(c, pw, c - c / 2);
  }

  lemma HalfBounds(v: nat, pw: nat, h: nat)
    requires 2 * h <= v <= 2 * h + 1
    ensures h * (2 * pw) <= v * pw && (v + 1) * pw <= (h + 1) * (2 * pw)
  {
    MulMonotone(2 * h, v, pw);
    MulMonotone(v + 1, 2 * (h + 1), pw);
    MulAssoc(h, 2, pw);
    MulAssoc(h + 1, 2, pw);
  }

  lemma HalfUpBounds(c: nat, pw: nat, h: nat)
    requires c <= 2 * h <= c + 1
    ensures c * pw <= h * (2 * pw) <= c * pw + pw
  {
    MulMonotone(c, 2 * h, pw);
    MulMonotone(2 * h, c + 1, pw);
    MulAssoc(h, 2, pw);
    assert (c + 1) * pw == c * pw + pw;
  }

  /** The exponent of the power, in terms of the units of its argument; d units are one. */
  function Exponent(c: nat, d: nat): nat
    requires d >= 2
  {
    if c < d then 0 else 2 * Exponent(c - c / 2, d) + c / d % 2
  }

  lemma {:induction false} PowTenByUnits(e: Decimal, precision: nat, d: nat)
    requires precision > 0 && IsExponent(e, precision) && d == Pow(10, precision) && d >= 2
    ensures PowTen(e, precision) == Decimal(1, Exponent(Units(e, precision), d))
    decreases Units(e, precision)
  {
    hide Pow, Half, PowTen, Exponent, Whole, Units;
    var c, w := Units(e, precision), Whole(e);
    WholeUnits(e, precision);
    if w > 0 {
      HalfIs(e, precision);
      HalfShrinks(e, precision);
      PowTenByUnits(Half(e, precision), precision, d);
      var k := Exponent(c - c / 2, d);
      PowTenTurn(e, precision, k);
      NoWhole(c, d);
      ExponentTurn(c, d, w, k);
    } else {
      PowTenEnd(e, precision);
      ExponentEnd(c, d);
    }
  }

  lemma PowTenEnd(e: Decimal, precision: nat)
    requires precision > 0 && IsExponent(e, precision) && Whole(e) == 0
    ensures PowTen(e, precision) == Decimal(1, 0)
  {
  }

  lemma ExponentEnd(c: nat, d: nat)
    requires d >= 2 && c / d == 0
    ensures Exponent(c, d) == 0
  {
    NoWhole(c, d);
  }

  lemma ExponentTurn(c: nat, d: nat, w: nat, k: nat)
    requires 2 <= d <= c && w == c / d && k == Exponent(c - c / 2, d)
    ensures Exponent(c, d) == 2 * k + w % 2
  {
  }

  lemma TenOrMore(precision: nat)
    requires precision > 0
    ensures Pow(10, precision) >= 10
  {
    PowPositive(10, precision - 1);
  }

  lemma PowTenTurn(e: Decimal, precision: nat, k: nat)
    requires precision > 0 && IsExponent(e, precision) && IsExponent(Half(e, precision), precision)
    requires Whole(e) > 0 && PowTen(Half(e, precision), precision) == Decimal(1, k)
    ensures PowTen(e, precision) == Decimal(1, 2 * k + Whole(e) % 2)
  {
  }

  lemma NoWhole(c: nat, d: nat)
    requires d > 0
    ensures c / d == 0 <==> c < d
  {
  }

  lemma {:induction false} ExponentLeast(c: nat, d: nat)
    requires d >= 2
    ensures Exponent(c, d) >= c / d
    decreases c
  {
    NoWhole(c, d);
    if c >= d {
      ExponentLeast(c - c / 2, d);
      HalfQuotient(c, d);
    }
  }

  /** From n to the next multiple of 2^j it is at least the d-th part of 2^j. */
  ghost predicate Clear(n: nat, d: nat, j: nat) {
    PowPositive(2, j);
    ((n / Pow(2, j) + 1) * Pow(2, j) - n) * d >= Pow(2, j)
  }

  ghost predicate ClearOfAll(n: nat, d: nat) {
    forall j: nat :: Clear(n, d, j)
  }

  lemma ClearWhenGone(n: nat, d: nat, j: nat, i: nat)
    requires d >= 2 && n < Pow(2, j) && j < i
    ensures Clear(n, d, i)
  {
    PowDoubles(j, i);
    PowPositive(2, i);
    Gone(n, d, Pow(2, i));
  }

  lemma PowDoubles(j: nat, i: nat)
    requires j < i
    ensures Pow(2, i) >= 2 * Pow(2, j)
  {
    PowAdd(2, j + 1, i - j - 1);
    PowPositive(2, i - j - 1);
    MulMonotone(1, Pow(2, i - j - 1), Pow(2, j + 1));
  }

  lemma Gone(n: nat, d: nat, pw: nat)
    requires d >= 2 && pw > 0 && 2 * n <= pw
    ensures ((n / pw + 1) * pw - n) * d >= pw
  {
    QuotientIs(n, pw, 0);
    MulMonotone(2, d, pw - n);
  }

  lemma {:induction false} ExponentIff(n: nat, d: nat, j: nat, c: nat, v: nat)
    requires d >= 2 && Tracks(n, d, Pow(2, j), c, v) && c / d == v
    ensures Exponent(c, d) == v <==> forall i :: i > j ==> Clear(n, d, i)
    decreases c
  {
    NoWhole(c, d);
    if v == 0 {
      forall i | i > j ensures Clear(n, d, i) {
        ClearWhenGone(n, d, j, i);
      }
    } else {
      TracksHalf(n, d, Pow(2, j), c, v);
      WholeIff(n, d, Pow(2, j + 1), c - c / 2, v / 2);
      if Clear(n, d, j + 1) {
        ExponentIff(n, d, j + 1, c - c / 2, v / 2);
      } else {
        ExponentLeast(c - c / 2, d);
      }
    }
  }

  /** Below d this is always so. */
  lemma SmallIsClear(n: nat, d: nat)
    requires n < d
    ensures ClearOfAll(n, d)
  {
    forall j: nat ensures Clear(n, d, j) {
      PowPositive(2, j);
      FarEnough(n, d, Pow(2, j));
    }
  }

  lemma FarEnough(n: nat, d: nat, pw: nat)
    requires n < d && pw > 0
    ensures ((n / pw + 1) * pw - n) * d >= pw
  {
    var v := n / pw;
    DivMod(n, pw);
    assert (v + 1) * pw == v * pw + pw;
    var k := (v + 1) * pw - n;
    if pw <= d {
      MulMonotone(1, k, d);
    } else {
      QuotientIs(n, pw, 0);
      MulMonotone(pw - d + 1, k, d);
      MulMonotone(1, d, pw - d);
      assert (pw - d + 1) * d == d * (pw - d) + d;
    }
  }

  lemma {:induction false} StripZerosIs(c: nat, e: nat, k: nat)
    ensures StripZeros(c, e).coeff >= 0 && StripZeros(c, e).exp >= e
    ensures StripZeros(c, e).coeff * Pow(10, StripZeros(c, e).exp + k) == c * Pow(10, e + k)
  {
    if c > 0 && c % 10 == 0 {
      StripZerosIs(c / 10, e + 1, k);
      MulAssoc(c / 10, 10, Pow(10, e + k));
    }
  }

  lemma OfFloatIs(n: nat, precision: nat)
    ensures IsExponent(OfFloat(n), precision) && Units(OfFloat(n), precision) == n * Pow(10, precision)
  {
    var e := OfFloat(n);
    StripZerosIs(n, 0, precision);
    assert Units(e, precision) == e.coeff * Pow(10, e.exp + precision);
  }

  /** Ten to the power of a whole number: never too small, but see `TenToIff`. */
  function TenTo(n: nat, precision: nat): (r: Decimal)
    requires precision > 0
    ensures r.coeff == 1 && r.exp >= n
  {
    OfFloatIs(n, precision);
    WholeUnits(OfFloat(n), precision);
    LastDigit(Pow(10, precision), n, 0);
    PowTen(OfFloat(n), precision)
  }

  /** The power is right exactly for exponents that are clear of all multiples of powers of two. */
  lemma TenToIff(n: nat, precision: nat)
    requires precision > 0
    ensures TenTo(n, precision) == Decimal(1, n) <==> ClearOfAll(n, Pow(10, precision))
  {
    OfFloatIs(n, precision);
    TenOrMore(precision);
    PowTenByUnits(OfFloat(n), precision, Pow(10, precision));
    ExponentOfUnits(n, Pow(10, precision));
  }

  lemma ExponentOfUnits(n: nat, d: nat)
    requires d >= 2
    ensures Exponent(n * d, d) == n <==> ClearOfAll(n, d)
  {
    LastDigit(d, n, 0);
    assert Pow(2, 0) == 1;
    assert Tracks(n, d, 1, n * d, n);
    ExponentIff(n, d, 0, n * d, n);
    assert Clear(n, d, 0);
  }

  /** In particular below 10^precision. */
  lemma SmallPowers(n: nat, precision: nat)
    requires precision > 0 && n < Pow(10, precision)
    ensures ClearOfAll(n, Pow(10, precision)) && TenTo(n, precision) == Decimal(1, n)
  {
    SmallIsClear(n, Pow(10, precision));
    TenToIff(n, precision);
  }

  /**
    From 10^precision on it need not be: with one digit, 15 is halved to 7.5, 3.8, 1.9 and
    1.0, where it should stop, and ten to the power of 15 comes out as ten to the power of 31.
  */
  lemma PowerOvershoots(precision: nat)
    requires precision == 1
    ensures TenTo(15, precision) == Decimal(1, 31)
  {
    assert Pow(10, precision) == 10 by { assert Pow(10, 0) == 1; }
    OfFloatIs(15, precision);
    PowTenByUnits(OfFloat(15), precision, 10);
    Exponent15(10);
  }

  lemma Exponent15(d: nat)
    requires d == 10
    ensures Exponent(15 * d, d) == 31
  {
    assert Exponent(5, d) == 0 && Exponent(10, d) == 1 && Exponent(19, d) == 3;
    assert Exponent(38, d) == 7 && Exponent(75, d) == 15;
  }
}
