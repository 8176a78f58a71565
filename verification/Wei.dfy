/**
  `ToDecimal` and `ToWei`: fixed-point conversion through decimal scaling, rounding
  division, decimal printing and integer parsing. `precision` is the library's
  DivisionPrecision, 16 unless a program changes it; it also bears on powers of ten.
*/
module Wei {
  import opened Positional
  import opened DecimalText
  import opened Decimals
  import opened AmountText
  import opened Powers
  import opened Subscriptions

  /** `ToDecimal` of an integer; its text is parsed again on the way. */
  function DecimalOf(wei: int, decimals: nat, precision: nat): Decimal
    requires precision > 0
  {
    DivRound(ReadOrZero(PrintInt(wei)), TenTo(decimals, precision), precision)
  }

  /** `d, _ := NewFromString`: what is no number counts as zero. */
  function ReadOrZero(text: string): Decimal {
    if FromString(text).Some? then FromString(text).value else Decimal(0, 0)
  }

  /** `ToWei` of a decimal; None where parsing fails and the result is undefined. */
  function WeiOf(amount: Decimal, decimals: nat, precision: nat): Option<int>
    requires precision > 0
  {
    ParseInt(Print(Mul(amount, TenTo(decimals, precision))))
  }

  /**
    The number of places by which the code moves the decimal point. It is `decimals`, unless
    the precision is too low for the library to compute that power of ten.
  */
  function Shift(decimals: nat, precision: nat): (k: nat)
    requires precision > 0
    ensures k >= decimals
  {
    TenTo(decimals, precision).exp
  }

  /** The shift is right exactly for decimals that are clear of all multiples of powers of two. */
  lemma ShiftIff(decimals: nat, precision: nat)
    requires precision > 0
    ensures Shift(decimals, precision) == decimals <==> ClearOfAll(decimals, Pow(10, precision))
  {
    TenToIff(decimals, precision);
  }

  /** In particular for all decimals below 10^precision. */
  lemma ShiftIs(decimals: nat, precision: nat)
    requires precision > 0 && decimals < Pow(10, precision)
    ensures Shift(decimals, precision) == decimals
  {
    SmallPowers(decimals, precision);
  }

  datatype WeiArg = WeiText(text: string) | WeiInt(n: int) | OtherWei

  /** Of a float64 or int64 argument the model has the decimal that `NewFromFloat` makes of it. */
  datatype AmountArg =
    | AmountString(text: string)
    | AmountFloat(converted: Decimal)
    | AmountDecimal(amount: Decimal)
    | OtherAmount

  /**
    The decimal of n: it has `precision` digits behind the decimal point, and of all such
    numbers it is the one nearest to n * 10^-shift, ties going away from zero.
  */
  predicate IsDecimalOf(d: Decimal, n: int, decimals: nat, precision: nat)
    requires precision > 0
  {
    var p: int := precision;
    d.exp == -p && Nearest(n * Pow(10, precision), Pow(10, Shift(decimals, precision)), d.coeff)
  }

  /** Text that is no integer leaves the value undefined; an argument of another type counts as zero. */
  method ToDecimal(ivalue: WeiArg, decimals: nat, precision: nat) returns (result: Option<Decimal>)
    requires precision > 0
    ensures ivalue.WeiInt? ==> result.Some? && IsDecimalOf(result.value, ivalue.n, decimals, precision)
    ensures ivalue.WeiText? ==>
      match ParseInt(ivalue.text)
      case None => result.None?
      case Some(n) => result.Some? && IsDecimalOf(result.value, n, decimals, precision)
    ensures ivalue.OtherWei? ==> result == Some(Places(0, precision))
  {
    var value: Option<int> := Some(0);
    match ivalue {
      case WeiText(s) => value := ParseInt(s);
      case WeiInt(n) => value := Some(n);
      case OtherWei =>
    }
    if value.None? {
      return None;
    }
    var mul := TenTo(decimals, precision);
    var read := FromString(PrintInt(value.value));
    var num := if read.Some? then read.value else Decimal(0, 0);
    result := Some(DivRound(num, mul, precision));
    assert result.value == DecimalOf(value.value, decimals, precision);
    DecimalOfIs(value.value, decimals, precision);
    ZeroCoefficient(Shift(decimals, precision), precision);
  }

  lemma ZeroCoefficient(k: nat, precision: nat)
    ensures Coefficient(0, k, precision) == 0
  {
    if k > precision {
      PowPositive(10, k - precision);
      RoundAwayExact(0, Pow(10, k - precision));
    }
  }

  /** The result of an amount: v exactly when the amount is v * 10^-shift, and undefined for no v. */
  ghost predicate IsWeiOf(wei: Option<int>, amount: Decimal, decimals: nat, precision: nat)
    requires precision > 0
  {
    forall v :: wei == Some(v) <==> Equal(amount, Places(v, Shift(decimals, precision)))
  }

  /** Text that is no number, and an argument of another type, count as zero. */
  method ToWei(iamount: AmountArg, decimals: nat, precision: nat) returns (wei: Option<int>)
    requires precision > 0
    ensures iamount.AmountDecimal? ==> IsWeiOf(wei, iamount.amount, decimals, precision)
    ensures iamount.AmountFloat? ==> IsWeiOf(wei, iamount.converted, decimals, precision)
    ensures iamount.AmountString? ==>
      match FromString(iamount.text)
      case None => wei == Some(0)
      case Some(d) => IsWeiOf(wei, d, decimals, precision)
    ensures iamount.OtherAmount? ==> wei == Some(0)
  {
    var amount := Decimal(0, 0);
    match iamount {
      case AmountString(text) =>
        var read := FromString(text);
        amount := if read.Some? then read.value else Decimal(0, 0);
      case AmountFloat(v) => amount := v;
      case AmountDecimal(v) => amount := v;
      case OtherAmount =>
    }
    var mul := TenTo(decimals, precision);
    var result := Mul(amount, mul);
    wei := ParseInt(Print(result));
    ToWeiMeaning(amount, decimals, precision);
  }

  lemma ToWeiMeaning(amount: Decimal, decimals: nat, precision: nat)
    requires precision > 0
    ensures IsWeiOf(WeiOf(amount, decimals, precision), amount, decimals, precision)
    ensures amount == Decimal(0, 0) ==> WeiOf(amount, decimals, precision) == Some(0)
  {
    hide WeiOf, Shift, Equal;
    forall v: int
      ensures WeiOf(amount, decimals, precision) == Some(v) <==> Equal(amount, Places(v, Shift(decimals, precision)))
    {
      ToWeiExact(amount, decimals, precision, v);
    }
    if amount == Decimal(0, 0) {
      ZeroIsZero(Shift(decimals, precision));
    }
  }

  lemma ZeroIsZero(k: nat)
    ensures Equal(Decimal(0, 0), Places(0, k))
  {
  }

  /** Moving the decimal point by k places, printing and parsing. */
  function Moved(amount: Decimal, k: nat): Option<int> {
    ParseInt(Print(Decimal(amount.coeff, amount.exp + k)))
  }

  lemma WeiOfIs(amount: Decimal, decimals: nat, precision: nat)
    requires precision > 0
    ensures WeiOf(amount, decimals, precision) == Moved(amount, Shift(decimals, precision))
  {
    hide ParseInt, Print;
  }

  lemma MovedIff(amount: Decimal, k: nat, v: int)
    ensures Moved(amount, k) == Some(v) <==> Equal(amount, Places(v, k))
  {
    hide ParseInt, Print, Equal;
    ParseOfPrintIff(Decimal(amount.coeff, amount.exp + k), v);
    EqualShift(amount.coeff, amount.exp, k, v);
  }

  lemma MovedDefined(amount: Decimal, k: nat)
    ensures Moved(amount, k).Some? <==> Fits(amount, k)
  {
    hide ParseInt, Print;
    PrintedParses(Decimal(amount.coeff, amount.exp + k));
  }

  /**
    `ToWei` is exact: its result is v precisely when the amount is v moved back by the shift,
    whatever coefficient and exponent represent the amount; in all other cases it is undefined.
  */
  lemma ToWeiExact(amount: Decimal, decimals: nat, precision: nat, v: int)
    requires precision > 0
    ensures WeiOf(amount, decimals, precision) == Some(v) <==> Equal(amount, Places(v, Shift(decimals, precision)))
  {
    WeiOfIs(amount, decimals, precision);
    MovedIff(amount, Shift(decimals, precision), v);
  }

  /** `NewFromFloat` of an int64 that float64 holds exactly, that is up to 2^53. */
  function OfInteger(n: int): Decimal {
    var d := OfFloat(Abs(n));
    Decimal(if n < 0 then -d.coeff else d.coeff, d.exp)
  }

  /** Such an argument of `ToWei` always has a result, n moved by the shift. */
  lemma ToWeiOfInteger(n: int, decimals: nat, precision: nat)
    requires precision > 0
    ensures WeiOf(OfInteger(n), decimals, precision) == Some(n * Pow(10, Shift(decimals, precision)))
  {
    hide WeiOf, Shift, OfFloat, Pow;
    var k := Shift(decimals, precision);
    var v := n * Pow(10, k);
    OfIntegerScaled(n, k);
    assert Equal(OfInteger(n), Places(v, k)) by {
      CmpAtScale(OfInteger(n), Places(v, k), k);
      PlacesScaled(v, k);
    }
    ToWeiExact(OfInteger(n), decimals, precision, v);
  }

  lemma PlacesScaled(v: int, k: nat)
    ensures Places(v, k).exp + k == 0 && AtScale(Places(v, k), k) == v
  {
    assert Pow(10, 0) == 1;
  }

  lemma OfIntegerScaled(n: int, k: nat)
    ensures OfInteger(n).exp >= 0 && AtScale(OfInteger(n), k) == n * Pow(10, k)
  {
    hide Pow;
    StripZerosIs(Abs(n), 0, k);
    var d := OfFloat(Abs(n));
    MulSign(n < 0, Abs(n), Pow(10, k));
    MulSign(n < 0, d.coeff, Pow(10, d.exp + k));
  }

  /** A result exists, and it is amount * 10^decimals. */
  predicate Right(amount: Decimal, decimals: nat, precision: nat)
    requires precision > 0
  {
    var wei := WeiOf(amount, decimals, precision);
    wei.Some? && Equal(amount, Places(wei.value, decimals))
  }

  /** For every amount: right exactly when it fits into `decimals` digits, and it is zero or the shift is right. */
  lemma ToWeiRightIff(amount: Decimal, decimals: nat, precision: nat)
    requires precision > 0
    ensures Right(amount, decimals, precision) <==>
      Fits(amount, decimals) && (amount.coeff == 0 || ClearOfAll(decimals, Pow(10, precision)))
  {
    hide WeiOf, Shift, Equal, Fits, ClearOfAll, Moved;
    ShiftIff(decimals, precision);
    ToWeiDefined(amount, decimals, precision);
    MovedDefined(amount, decimals);
    ZeroFits(amount, Shift(decimals, precision));
    if WeiOf(amount, decimals, precision).Some? {
      var v, k := WeiOf(amount, decimals, precision).value, Shift(decimals, precision);
      ToWeiExact(amount, decimals, precision, v);
      MovedIff(amount, decimals, v);
      EqualCongruent(amount, Places(v, k), Places(v, decimals));
      SamePlaces(v, k, decimals);
      ZeroPlaces(amount, v, k);
    }
  }

  lemma ZeroFits(amount: Decimal, k: nat)
    ensures amount.coeff == 0 ==> Fits(amount, k)
  {
    var places := if amount.exp + k < 0 then -(amount.exp + k) else 0;
    PowPositive(10, places);
    Multiple(0, Pow(10, places));
  }

  lemma ZeroPlaces(amount: Decimal, v: int, k: nat)
    requires Equal(amount, Places(v, k))
    ensures amount.coeff == 0 <==> v == 0
  {
    var base := Min(amount.exp, Places(v, k).exp);
    PowPositive(10, amount.exp - base);
    PowPositive(10, Places(v, k).exp - base);
    ZeroScaled(amount.coeff, Pow(10, amount.exp - base));
    ZeroScaled(v, Pow(10, Places(v, k).exp - base));
  }

  lemma ZeroScaled(x: int, p: nat)
    requires p > 0
    ensures x * p == 0 <==> x == 0
  {
    ScaledSign(x, p);
  }

  /** With a right shift, in terms of `decimals`. */
  lemma ToWeiWhenClear(amount: Decimal, decimals: nat, precision: nat, v: int)
    requires precision > 0 && ClearOfAll(decimals, Pow(10, precision))
    ensures WeiOf(amount, decimals, precision) == Some(v) <==> Equal(amount, Places(v, decimals))
    ensures WeiOf(amount, decimals, precision).Some? <==> Fits(amount, decimals)
  {
    hide WeiOf, Shift, Equal, Fits, ClearOfAll;
    ShiftIff(decimals, precision);
    ToWeiExact(amount, decimals, precision, v);
    ToWeiDefined(amount, decimals, precision);
  }

  lemma SamePlaces(v: int, k: nat, d: nat)
    requires k >= d
    ensures Equal(Places(v, k), Places(v, d)) <==> v == 0 || k == d
  {
    CmpAtScale(Places(v, k), Places(v, d), k);
    assert AtScale(Places(v, k), k) == v && AtScale(Places(v, d), k) == v * Pow(10, k - d);
    if k > d {
      PowPositive(10, k - d - 1);
      TimesMoreThanOne(v, Pow(10, k - d));
    }
  }

  lemma TimesMoreThanOne(v: int, p: nat)
    requires p > 1
    ensures v == v * p <==> v == 0
  {
    if v > 0 {
      MulStrict(1, p, v);
    } else if v < 0 {
      MulStrict(1, p, -v);
      assert v * p == -(p * -v);
    }
  }

  /** The amount has at most k digits behind the decimal point. */
  predicate Fits(amount: Decimal, k: nat) {
    PowPositive(10, if amount.exp + k < 0 then -(amount.exp + k) else 0);
    amount.exp + k >= 0 || amount.coeff % Pow(10, -(amount.exp + k)) == 0
  }

  /** `ToWei` is defined exactly for the amounts that fit into the shift's digits. */
  lemma ToWeiDefined(amount: Decimal, decimals: nat, precision: nat)
    requires precision > 0
    ensures WeiOf(amount, decimals, precision).Some? <==> Fits(amount, Shift(decimals, precision))
  {
    WeiOfIs(amount, decimals, precision);
    MovedDefined(amount, Shift(decimals, precision));
  }

  lemma PrintedParses(d: Decimal)
    ensures ParseInt(Print(d)).Some? <==> Fits(d, 0)
  {
    if d.exp >= 0 {
      ParseOfPrint(d);
    } else {
      FractionParses(d);
      FractionFits(d);
    }
  }

  lemma FractionParses(d: Decimal)
    requires d.exp < 0
    ensures Pow(10, -d.exp) > 0
    ensures ParseInt(Print(d)).Some? <==> Abs(d.coeff) % Pow(10, -d.exp) == 0
  {
    ParseOfPrint(d);
  }

  lemma FractionFits(d: Decimal)
    requires d.exp < 0
    ensures Pow(10, -d.exp) > 0
    ensures Fits(d, 0) <==> Abs(d.coeff) % Pow(10, -d.exp) == 0
  {
    PowPositive(10, -d.exp);
    AbsDivides(d.coeff, Pow(10, -d.exp));
  }

  lemma AbsDivides(c: int, p: nat)
    requires p > 0
    ensures Abs(c) % p == 0 <==> c % p == 0
  {
    if c < 0 {
      if c % p == 0 {
        Multiple(-(c / p), p);
        assert c == (c / p) * p;
        assert -c == (-(c / p)) * p;
      }
      if Abs(c) % p == 0 {
        var q := Abs(c) / p;
        Multiple(-q, p);
        assert -c == q * p;
        assert c == (-q) * p;
      }
    }
  }

  lemma Multiple(q: int, p: nat)
    requires p > 0
    ensures (q * p) % p == 0 && (q * p) / p == q
  {
    var r := (q * p) / p;
    assert q * p == r * p + (q * p) % p;
    if r < q {
      MulStrict(r, q, p);
      assert (q - r) * p == q * p - r * p;
      MulLeast(q - r, p);
    }
    if q < r {
      MulStrict(q, r, p);
    }
  }

  lemma MulLeast(x: int, p: nat)
    requires x >= 1
    ensures x * p >= p
  {
  }

  /** `ToWei` adds up, in whatever representation the sum is given; `Add` gives one (Decimals.AddIsSum). */
  lemma ToWeiAdds(a: Decimal, x: int, b: Decimal, y: int, sum: Decimal, decimals: nat, precision: nat)
    requires precision > 0
    requires WeiOf(a, decimals, precision) == Some(x) && WeiOf(b, decimals, precision) == Some(y) && IsSum(sum, a, b)
    ensures WeiOf(sum, decimals, precision) == Some(x + y)
  {
    var k := Shift(decimals, precision);
    assert Equal(a, Places(x, k)) by { ToWeiExact(a, decimals, precision, x); }
    assert Equal(b, Places(y, k)) by { ToWeiExact(b, decimals, precision, y); }
    MovedSum(a, x, b, y, sum, k);
    WeiOfIs(sum, decimals, precision);
  }

  lemma MovedSum(a: Decimal, x: int, b: Decimal, y: int, sum: Decimal, k: nat)
    requires Equal(a, Places(x, k)) && Equal(b, Places(y, k)) && IsSum(sum, a, b)
    ensures Moved(sum, k) == Some(x + y)
  {
    var v := x + y;
    assert Equal(sum, Places(v, k)) by { PlacesAdd(a, b, sum, x, y, k); }
    MovedIff(sum, k, v);
  }

  /** The result depends on the number alone, not on how it is represented. */
  lemma ToWeiOfEqual(a: Decimal, b: Decimal, decimals: nat, precision: nat)
    requires precision > 0 && Equal(a, b)
    ensures WeiOf(a, decimals, precision) == WeiOf(b, decimals, precision)
  {
    if WeiOf(a, decimals, precision).Some? {
      ToWeiSame(a, b, decimals, precision, WeiOf(a, decimals, precision).value);
    }
    if WeiOf(b, decimals, precision).Some? {
      ToWeiSame(a, b, decimals, precision, WeiOf(b, decimals, precision).value);
    }
  }

  lemma ToWeiSame(a: Decimal, b: Decimal, decimals: nat, precision: nat, v: int)
    requires precision > 0 && Equal(a, b)
    ensures WeiOf(a, decimals, precision) == Some(v) <==> WeiOf(b, decimals, precision) == Some(v)
  {
    ToWeiExact(a, decimals, precision, v);
    ToWeiExact(b, decimals, precision, v);
    EqualCongruent(a, b, Places(v, Shift(decimals, precision)));
  }

  /** A decimal and its text are worth the same. */
  lemma ToWeiOfText(amount: Decimal, decimals: nat, precision: nat)
    requires precision > 0 && FitsInt32(amount.exp)
    ensures WeiOf(ReadOrZero(Print(amount)), decimals, precision) == WeiOf(amount, decimals, precision)
  {
    StringRoundTrip(amount);
    ToWeiOfEqual(FromString(Print(amount)).value, amount, decimals, precision);
  }

  /** `ToWei` preserves and reflects the order of amounts. */
  lemma ToWeiOrders(a: Decimal, b: Decimal, decimals: nat, precision: nat)
    requires precision > 0
    requires WeiOf(a, decimals, precision).Some? && WeiOf(b, decimals, precision).Some?
    ensures Cmp(a, b) < 0 <==> WeiOf(a, decimals, precision).value < WeiOf(b, decimals, precision).value
    ensures Cmp(a, b) == 0 <==> WeiOf(a, decimals, precision).value == WeiOf(b, decimals, precision).value
  {
    var x, y := WeiOf(a, decimals, precision).value, WeiOf(b, decimals, precision).value;
    ToWeiExact(a, decimals, precision, x);
    ToWeiExact(b, decimals, precision, y);
    PlacesOrder(a, b, x, y, Shift(decimals, precision));
  }

  /** n / m rounded to the nearest integer, ties away from zero. */
  function RoundAway(n: int, m: nat): int
    requires m > 0
  {
    var q := Quo(n, m);
    if 2 * Abs(n - q * m) < m then q else if n < 0 then q - 1 else q + 1
  }

  /** No multiple of m is nearer to n than q * m, and a tie goes away from zero. */
  predicate Nearest(n: int, m: nat, q: int) {
    && 2 * Abs(q * m - n) <= m
    && (2 * Abs(q * m - n) == m ==> if n < 0 then q * m < n else q * m > n)
  }

  lemma RoundAwayNearest(n: int, m: nat)
    requires m > 0
    ensures Nearest(n, m, RoundAway(n, m))
  {
    QuoRemainder(n, m);
    NearestOf(n, m, Quo(n, m), WithSign(n < 0, Abs(n) % m));
  }

  lemma QuoRemainder(n: int, m: nat)
    requires m > 0
    ensures n == Quo(n, m) * m + WithSign(n < 0, Abs(n) % m)
  {
    DivMod(Abs(n), m);
    Rebuild(n, m, Abs(n) / m, Abs(n) % m);
  }

  lemma Rebuild(n: int, m: nat, a: nat, b: nat)
    requires Abs(n) == a * m + b
    ensures n == WithSign(n < 0, a) * m + WithSign(n < 0, b)
  {
    MulSign(n < 0, a, m);
  }

  /** Moving away from zero when twice the remainder r reaches m. */
  lemma NearestOf(n: int, m: nat, q: int, r: int)
    requires m > 0 && n == q * m + r && Abs(r) < m && (if n < 0 then r <= 0 else r >= 0)
    ensures Nearest(n, m, if 2 * Abs(n - q * m) < m then q else if n < 0 then q - 1 else q + 1)
  {
    Distribute(q, 1, m);
    Distribute(q, -1, m);
  }

  /** The nearest integer is unique and grows with n. */
  lemma NearestMonotone(n1: int, q1: int, n2: int, q2: int, m: nat)
    requires m > 0 && n1 <= n2 && Nearest(n1, m, q1) && Nearest(n2, m, q2)
    ensures q1 <= q2 && (n1 == n2 ==> q1 == q2)
  {
    if q2 < q1 {
      NearestGap(n1, q1, n2, q2, m);
    } else if n1 == n2 && q1 < q2 {
      NearestGap(n2, q2, n1, q1, m);
    }
  }

  lemma NearestGap(n1: int, q1: int, n2: int, q2: int, m: nat)
    requires m > 0 && n1 <= n2 && Nearest(n1, m, q1) && Nearest(n2, m, q2)
    ensures q1 <= q2
  {
    if q2 < q1 {
      Gap(q1, q2, m);
    }
  }

  lemma Gap(x: int, y: int, m: nat)
    requires y < x
    ensures x * m - y * m >= m
  {
    MulLeast(x - y, m);
    assert (x - y) * m == x * m - y * m;
  }

  lemma RoundAwayMonotone(n1: int, n2: int, m: nat)
    requires m > 0 && n1 <= n2
    ensures RoundAway(n1, m) <= RoundAway(n2, m)
  {
    RoundAwayNearest(n1, m);
    RoundAwayNearest(n2, m);
    NearestMonotone(n1, RoundAway(n1, m), n2, RoundAway(n2, m), m);
  }

  lemma RoundAwayExact(q: int, m: nat)
    requires m > 0
    ensures RoundAway(q * m, m) == q
  {
    RoundAwayNearest(q * m, m);
    NearestMonotone(q * m, RoundAway(q * m, m), q * m, q, m);
  }

  /** The power by which one side of a division is scaled. */
  function ScaleBy(e: int): (p: nat)
    ensures p > 0
  {
    PowPositive(10, if e < 0 then 0 else e);
    if e < 0 then 1 else Pow(10, e)
  }

  /**
    Rounding division, for any dividend and any positive divisor: the result has `precision`
    digits and is the nearest such number to the quotient, ties going away from zero.
  */
  lemma DivRoundNearest(a: Decimal, b: Decimal, precision: nat)
    requires b.coeff > 0
    ensures var p: int := precision;
            var e := a.exp - b.exp + p;
            && DivRound(a, b, precision).exp == -p
            && Nearest(a.coeff * ScaleBy(e), b.coeff * ScaleBy(-e), DivRound(a, b, precision).coeff)
  {
    hide Nearest, Pow, QuoRem, Quo, RoundAway, Cmp, Add, ScaleBy;
    var p: int := precision;
    var e := a.exp - b.exp + p;
    var n, m := a.coeff * ScaleBy(e), Scaled(b.coeff, ScaleBy(-e));
    ScaledSign(a.coeff, ScaleBy(e));
    DivRoundIs(a, b, precision, n, m);
    RoundAwayNearest(n, m);
  }

  lemma DivRoundIs(a: Decimal, b: Decimal, precision: nat, n: int, m: nat)
    requires b.coeff > 0 && m > 0 && (n < 0 <==> a.coeff < 0)
    requires n == a.coeff * ScaleBy(a.exp - b.exp + precision) && m == b.coeff * ScaleBy(-(a.exp - b.exp + precision))
    ensures DivRound(a, b, precision) == Places(RoundAway(n, m), precision)
  {
    hide Pow, QuoRem, Quo, Cmp, Add, ScaleBy;
    var (q, r) := QuoRem(a, b, precision);
    QuoRemIs(a, b, precision, n, m);
    TwiceAgainst(Decimal(2 * Abs(r.coeff), r.exp + precision), b, a.exp - b.exp + precision, m);
    AddUnit(q);
  }

  lemma QuoRemIs(a: Decimal, b: Decimal, precision: nat, n: int, m: nat)
    requires b.coeff > 0 && m > 0
    requires n == a.coeff * ScaleBy(a.exp - b.exp + precision) && m == b.coeff * ScaleBy(-(a.exp - b.exp + precision))
    ensures QuoRem(a, b, precision).0 == Places(Quo(n, m), precision)
    ensures QuoRem(a, b, precision).1.coeff == n - Quo(n, m) * m
    ensures QuoRem(a, b, precision).1.exp + precision ==
      if a.exp - b.exp + precision < 0 then b.exp + (a.exp - b.exp + precision) else b.exp
  {
    hide Quo;
    assert Pow(10, 0) == 1;
  }

  lemma TwiceAgainst(twice: Decimal, b: Decimal, e: int, m: nat)
    requires m == b.coeff * ScaleBy(-e) && twice.exp == if e < 0 then b.exp + e else b.exp
    ensures Cmp(twice, b) == twice.coeff - m
  {
    assert Pow(10, 0) == 1;
  }

  lemma DivRoundUp(w: int, d: nat, precision: nat)
    requires d <= precision
    ensures DivRound(Decimal(w, 0), Decimal(1, d), precision) == Places(w * Pow(10, precision - d), precision)
  {
    var aa := w * Pow(10, precision - d);
    QuoOne(aa);
    var (q, r) := QuoRem(Decimal(w, 0), Decimal(1, d), precision);
    assert q == Places(aa, precision) && r.coeff == 0 && r.exp + precision == d;
    assert Cmp(Decimal(0, d), Decimal(1, d)) < 0;
  }

  lemma QuoOne(a: int)
    ensures Quo(a, 1) == a
  {
  }

  lemma DivRoundDown(w: int, d: nat, precision: nat)
    requires d > precision
    ensures Pow(10, d - precision) > 0
    ensures DivRound(Decimal(w, 0), Decimal(1, d), precision) == Places(RoundAway(w, Pow(10, d - precision)), precision)
  {
    PowPositive(10, d - precision);
    var p := Pow(10, d - precision);
    var (q, r) := QuoRem(Decimal(w, 0), Decimal(1, d), precision);
    assert q == Places(Quo(w, p), precision) && r == Decimal(w - Quo(w, p) * p, 0);
    TwiceRemainder(2 * Abs(r.coeff), d, precision);
    AddUnit(q);
  }

  lemma TwiceRemainder(x: int, d: nat, precision: nat)
    requires d > precision
    ensures Cmp(Decimal(x, precision), Decimal(1, d)) == x - Pow(10, d - precision)
  {
    assert AtScale(Decimal(x, precision), -(precision as int)) == x;
  }

  /** w * 10^-k in units of 10^-precision: exact, or the nearest that `precision` digits allow. */
  function Coefficient(w: int, k: nat, precision: nat): int {
    PowPositive(10, if k > precision then k - precision else 0);
    if k <= precision then w * Pow(10, precision - k) else RoundAway(w, Pow(10, k - precision))
  }

  /** In either case it is the nearest. */
  lemma CoefficientNearest(w: int, k: nat, precision: nat)
    ensures Nearest(w * Pow(10, precision), Pow(10, k), Coefficient(w, k, precision))
  {
    hide RoundAway, Nearest, Coefficient;
    if k <= precision {
      ExactNearest(w, k, precision);
    } else {
      ScaledNearest(w, k, precision);
    }
  }

  lemma ExactNearest(w: int, k: nat, precision: nat)
    requires k <= precision
    ensures Nearest(w * Pow(10, precision), Pow(10, k), Coefficient(w, k, precision))
  {
    PowPositive(10, k);
    PowAdd(10, precision - k, k);
    MulAssoc(w, Pow(10, precision - k), Pow(10, k));
  }

  lemma ScaledNearest(w: int, k: nat, precision: nat)
    requires k > precision
    ensures Nearest(w * Pow(10, precision), Pow(10, k), Coefficient(w, k, precision))
  {
    hide RoundAway, Nearest;
    PowPositive(10, k - precision);
    PowPositive(10, precision);
    PowAdd(10, k - precision, precision);
    RoundAwayNearest(w, Pow(10, k - precision));
    NearestScaled(w, Pow(10, k - precision), Coefficient(w, k, precision), Pow(10, precision));
  }

  lemma NearestScaled(n: int, m: nat, q: int, p: nat)
    requires p > 0 && Nearest(n, m, q)
    ensures Nearest(n * p, m * p, q)
  {
    var d := q * m - n;
    assert q * (m * p) - n * p == d * p by { MulAssoc(q, m, p); }
    AbsScaled(d, m, p);
    ScaledSign(d, p);
    ScaledSign(n, p);
  }

  lemma AbsScaled(d: int, m: nat, p: nat)
    requires p > 0
    ensures 2 * Abs(d * p) <= m * p <==> 2 * Abs(d) <= m
    ensures 2 * Abs(d * p) == m * p <==> 2 * Abs(d) == m
  {
    assert Abs(d * p) == Abs(d) * p by { MulSign(d < 0, Abs(d), p); }
    assert 2 * (Abs(d) * p) == (2 * Abs(d)) * p;
    MulCancel(2 * Abs(d), m, p);
  }

  lemma ScaledSign(d: int, p: nat)
    requires p > 0
    ensures d * p < 0 <==> d < 0
    ensures d * p == 0 <==> d == 0
  {
    MulCancel(d, 0, p);
  }

  lemma DecimalOfIs(wei: int, decimals: nat, precision: nat)
    requires precision > 0
    ensures var k, result := Shift(decimals, precision), DecimalOf(wei, decimals, precision);
            && result == Places(Coefficient(wei, k, precision), precision)
            && Nearest(wei * Pow(10, precision), Pow(10, k), result.coeff)
  {
    hide Shift, Nearest, RoundAway, DivRound, FromString, PrintInt;
    var k := Shift(decimals, precision);
    IntegerText(wei);
    CoefficientNearest(wei, k, precision);
    TenToIs(decimals, precision);
    if k <= precision {
      DivRoundUp(wei, k, precision);
    } else {
      DivRoundDown(wei, k, precision);
    }
  }

  lemma TenToIs(decimals: nat, precision: nat)
    requires precision > 0
    ensures TenTo(decimals, precision) == Decimal(1, Shift(decimals, precision))
  {
  }

  /**
    The decimal is the correctly rounded value of wei * 10^-decimals exactly when the shift is
    right, or that value rounds to zero.
  */
  lemma ToDecimalRightIff(wei: int, decimals: nat, precision: nat)
    requires precision > 0
    ensures DecimalOf(wei, decimals, precision) == Places(Coefficient(wei, decimals, precision), precision) <==>
      Coefficient(wei, decimals, precision) == 0 || ClearOfAll(decimals, Pow(10, precision))
  {
    hide Shift, Nearest, Coefficient, DecimalOf, ClearOfAll;
    var k := Shift(decimals, precision);
    DecimalOfIs(wei, decimals, precision);
    ShiftIff(decimals, precision);
    if k > decimals {
      CoefficientNearest(wei, decimals, precision);
      CoefficientNearest(wei, k, precision);
      PowPositive(10, decimals);
      TenTimesMore(decimals, k);
      NearestApart(wei * Pow(10, precision), Pow(10, decimals), Coefficient(wei, decimals, precision),
                   Pow(10, k), Coefficient(wei, k, precision));
    }
  }

  lemma TenTimesMore(i: nat, k: nat)
    requires i < k
    ensures Pow(10, k) >= 10 * Pow(10, i)
  {
    PowAdd(10, k - i - 1, i + 1);
    PowPositive(10, k - i - 1);
    MulMonotone(1, Pow(10, k - i - 1), Pow(10, i + 1));
  }

  /** In ten times coarser units the nearest number is another one, or both are zero. */
  lemma NearestApart(n: int, m1: nat, q1: int, m2: nat, q2: int)
    requires m1 > 0 && m2 >= 10 * m1 && Nearest(n, m1, q1) && Nearest(n, m2, q2)
    ensures q1 == q2 <==> q1 == 0
  {
    if q1 == 0 {
      NearestMonotone(n, q2, n, 0, m2);
    } else if q1 == q2 {
      FarApart(n, m1, m2, q1);
    }
  }

  lemma FarApart(n: int, m1: nat, m2: nat, q: int)
    requires m1 > 0 && m2 >= 10 * m1 && 2 * Abs(q * m1 - n) <= m1 && 2 * Abs(q * m2 - n) <= m2
    ensures q == 0
  {
    var x, y := q * m1, q * m2;
    TooFar(n, m1, m2, x, y);
    Spread(q, m1, m2 - m1, x, y);
  }

  lemma Spread(q: int, m: nat, d: nat, x: int, y: int)
    requires x == q * m && y == q * (m + d)
    ensures q != 0 ==> Abs(y - x) >= d
  {
    Distribute(m, d, q);
    MulSign(q < 0, Abs(q), d);
    if q != 0 {
      MulLeast(Abs(q), d);
    }
  }

  lemma TooFar(n: int, m1: nat, m2: nat, x: int, y: int)
    requires m1 > 0 && m2 >= 10 * m1 && 2 * Abs(x - n) <= m1 && 2 * Abs(y - n) <= m2
    ensures Abs(y - x) < m2 - m1
  {
  }

  /** The nearest multiple of 10^(k - precision), or w itself when k is at most the precision. */
  function Rounded(w: int, k: nat, precision: nat): int {
    if k <= precision then w else Coefficient(w, k, precision) * Pow(10, k - precision)
  }

  lemma RoundedPlaces(w: int, k: nat, precision: nat)
    ensures Equal(Places(Coefficient(w, k, precision), precision), Places(Rounded(w, k, precision), k))
  {
    var c := Coefficient(w, k, precision);
    if k <= precision {
      assert AtScale(Places(c, precision), precision) == c;
      assert AtScale(Places(w, k), precision) == w * Pow(10, precision - k);
    } else {
      var r := Rounded(w, k, precision);
      assert AtScale(Places(c, precision), k) == c * Pow(10, k - precision);
      assert AtScale(Places(r, k), k) == r;
    }
  }

  /** The division is exact: there are enough digits, or those it drops are zeros. */
  predicate NoRounding(w: int, k: nat, precision: nat) {
    PowPositive(10, if k > precision then k - precision else 0);
    k <= precision || w % Pow(10, k - precision) == 0
  }

  /** Rounding changes a number exactly when digits other than zero are dropped, and by at most half a unit. */
  lemma RoundedIff(w: int, k: nat, precision: nat)
    ensures Rounded(w, k, precision) == w <==> NoRounding(w, k, precision)
    ensures 2 * Abs(Rounded(w, k, precision) - w) <= if k > precision then Pow(10, k - precision) else 0
  {
    hide RoundAway;
    if k > precision {
      PowPositive(10, k - precision);
      RoundingError(w, Pow(10, k - precision));
    }
  }

  /**
    wei to decimal to wei, for all decimals and precisions: always defined; exact precisely when
    the division needs no rounding, that is when the shift is at most the precision or
    10^(shift - precision) divides the amount; and otherwise off by at most half of that power.
  */
  lemma WeiRoundTrip(wei: int, decimals: nat, precision: nat)
    requires precision > 0
    ensures var k := Shift(decimals, precision);
            var back := Rounded(wei, k, precision);
            && WeiOf(DecimalOf(wei, decimals, precision), decimals, precision) == Some(back)
            && (back == wei <==> NoRounding(wei, k, precision))
            && 2 * Abs(back - wei) <= if k > precision then Pow(10, k - precision) else 0
  {
    hide WeiOf, DecimalOf, Shift, Coefficient, Rounded, NoRounding, Equal, Nearest;
    var k := Shift(decimals, precision);
    DecimalOfIs(wei, decimals, precision);
    RoundedPlaces(wei, k, precision);
    ToWeiExact(DecimalOf(wei, decimals, precision), decimals, precision, Rounded(wei, k, precision));
    RoundedIff(wei, k, precision);
  }

  /**
    With a right shift, in terms of `decimals`: exact precisely when decimals <= precision or
    10^(decimals - precision) divides the amount, and otherwise off by at most half of that power.
  */
  lemma WeiRoundTripIff(wei: int, decimals: nat, precision: nat)
    requires precision > 0 && ClearOfAll(decimals, Pow(10, precision))
    ensures WeiOf(DecimalOf(wei, decimals, precision), decimals, precision) == Some(Rounded(wei, decimals, precision))
    ensures Rounded(wei, decimals, precision) == wei <==> NoRounding(wei, decimals, precision)
    ensures 2 * Abs(Rounded(wei, decimals, precision) - wei)
         <= if decimals > precision then Pow(10, decimals - precision) else 0
  {
    hide WeiOf, DecimalOf, Shift, Rounded, NoRounding, ClearOfAll;
    ShiftIff(decimals, precision);
    WeiRoundTrip(wei, decimals, precision);
  }

  /** The same, when the decimal is printed and read again on the way back to wei. */
  lemma WeiTextRoundTrip(wei: int, decimals: nat, precision: nat)
    requires 0 < precision <= 0x8000_0000
    ensures WeiOf(ReadOrZero(Print(DecimalOf(wei, decimals, precision))), decimals, precision)
         == Some(Rounded(wei, Shift(decimals, precision), precision))
  {
    DecimalOfIs(wei, decimals, precision);
    ToWeiOfText(DecimalOf(wei, decimals, precision), decimals, precision);
    WeiRoundTrip(wei, decimals, precision);
  }

  lemma RoundingError(n: int, p: nat)
    requires p > 0
    ensures 2 * Abs(RoundAway(n, p) * p - n) <= p
    ensures RoundAway(n, p) * p == n <==> n % p == 0
  {
    RoundAwayNearest(n, p);
    Multiple(RoundAway(n, p), p);
    if n % p == 0 {
      assert n == (n / p) * p;
      RoundAwayExact(n / p, p);
    }
  }

  /** Which amounts come back as zero: those below half of 10^(shift - precision), and zero. */
  lemma LostIff(wei: int, decimals: nat, precision: nat)
    requires precision > 0
    ensures var k := Shift(decimals, precision);
            WeiOf(DecimalOf(wei, decimals, precision), decimals, precision) == Some(0) <==>
              wei == 0 || (k > precision && 2 * Abs(wei) < Pow(10, k - precision))
  {
    hide WeiOf, DecimalOf, Shift, NoRounding, RoundAway;
    var k := Shift(decimals, precision);
    WeiRoundTrip(wei, decimals, precision);
    if k > precision {
      PowPositive(10, k - precision);
      RoundsToZero(wei, Pow(10, k - precision));
    }
  }

  lemma RoundsToZero(n: int, p: nat)
    requires p > 0
    ensures RoundAway(n, p) * p == 0 <==> 2 * Abs(n) < p
  {
    var q := RoundAway(n, p);
    RoundAwayNearest(n, p);
    ScaledSign(q, p);
    if 2 * Abs(n) < p {
      NearestMonotone(n, q, n, 0, p);
    }
  }

  /** One wei of a token with the usual 18 decimals, at the library's default precision of 16. */
  lemma OneWeiIsLost(decimals: nat, precision: nat)
    requires decimals == 18 && precision == 16
    ensures WeiOf(DecimalOf(1, decimals, precision), decimals, precision) == Some(0)
  {
    assert Pow(10, 2) == 100;
    PowAdd(10, 2, 14);
    PowPositive(10, 14);
    ShiftIs(decimals, precision);
    LostIff(1, decimals, precision);
  }

  /**
    Conversions with a wrong shift, at precision 1 and 15 decimals: the amount 1 becomes 10^31
    wei, and 10^20 wei, a multiple of 10^14, are lost on the way to decimal and back.
  */
  lemma LowPrecisionFails(decimals: nat, precision: nat)
    requires decimals == 15 && precision == 1
    ensures Shift(decimals, precision) == 31
    ensures WeiOf(Decimal(1, 0), decimals, precision) == Some(Pow(10, 31))
    ensures Pow(10, 14) > 0 && Pow(10, 20) % Pow(10, 14) == 0
    ensures WeiOf(DecimalOf(Pow(10, 20), decimals, precision), decimals, precision) == Some(0)
  {
    PowerOvershoots(precision);
    ShiftOfOne(decimals, precision, 31);
    PowMultiple(14, 6);
    PowDominates(20, 10);
    PowPositive(10, 20);
    LostIff(Pow(10, 20), decimals, precision);
  }

  lemma ShiftOfOne(decimals: nat, precision: nat, k: nat)
    requires precision > 0 && Shift(decimals, precision) == k
    ensures WeiOf(Decimal(1, 0), decimals, precision) == Some(Pow(10, k))
  {
    ParseOfPrint(Decimal(1, k));
    WeiOfIs(Decimal(1, 0), decimals, precision);
  }

  lemma PowMultiple(i: nat, j: nat)
    ensures Pow(10, i) > 0 && Pow(10, i + j) % Pow(10, i) == 0
  {
    PowPositive(10, i);
    PowAdd(10, j, i);
    Multiple(Pow(10, j), Pow(10, i));
  }

  lemma PowDominates(i: nat, j: nat)
    requires j > 0
    ensures 2 * Pow(10, i) < Pow(10, i + j)
  {
    PowPositive(10, i);
    PowAdd(10, j, i);
    PowPositive(10, j - 1);
    MulMonotone(10, Pow(10, j), Pow(10, i));
  }

  /** decimal to wei to decimal: the same number again, exactly for amounts with at most `precision` digits. */
  lemma DecimalRoundTrip(amount: Decimal, wei: int, decimals: nat, precision: nat)
    requires precision > 0 && WeiOf(amount, decimals, precision) == Some(wei)
    ensures Equal(DecimalOf(wei, decimals, precision), amount) <==> Fits(amount, precision)
  {
    var k := Shift(decimals, precision);
    ToWeiExact(amount, decimals, precision, wei);
    DecimalOfIs(wei, decimals, precision);
    FitsRoundTrip(amount, wei, k, precision, Places(Coefficient(wei, k, precision), precision));
  }

  lemma FitsRoundTrip(amount: Decimal, wei: int, k: nat, precision: nat, back: Decimal)
    requires Equal(amount, Places(wei, k)) && back == Places(Coefficient(wei, k, precision), precision)
    ensures Equal(back, amount) <==> Fits(amount, precision)
  {
    MovedDefined(amount, precision);
    EqualSymmetric(back, amount);
    MovedIff(amount, precision, Coefficient(wei, k, precision));
    if Moved(amount, precision).Some? {
      var n := Moved(amount, precision).value;
      MovedIff(amount, precision, n);
      SameCoefficient(amount, wei, n, k, precision);
    }
  }

  /** An amount that is both w * 10^-k and n * 10^-precision has n as its rounded coefficient. */
  lemma SameCoefficient(amount: Decimal, w: int, n: int, k: nat, precision: nat)
    requires Equal(amount, Places(w, k)) && Equal(amount, Places(n, precision))
    ensures Coefficient(w, k, precision) == n
  {
    var scale: nat := k + precision + Abs(amount.exp);
    CmpAtScale(amount, Places(w, k), scale);
    CmpAtScale(amount, Places(n, precision), scale);
    ScaledCoefficient(w, n, k, precision, scale);
  }

  lemma ScaledCoefficient(w: int, n: int, decimals: nat, precision: nat, k: nat)
    requires k >= decimals && k >= precision
    requires w * Pow(10, k - decimals) == n * Pow(10, k - precision)
    ensures Coefficient(w, decimals, precision) == n
  {
    if decimals <= precision {
      var s, t := Pow(10, precision - decimals), Pow(10, k - precision);
      PowAdd(10, precision - decimals, k - precision);
      PowPositive(10, k - precision);
      MulAssoc(w, s, t);
      MulCancel(n, w * s, t);
    } else {
      var s, t := Pow(10, decimals - precision), Pow(10, k - decimals);
      PowAdd(10, decimals - precision, k - decimals);
      PowPositive(10, decimals - precision);
      PowPositive(10, k - decimals);
      MulAssoc(n, s, t);
      MulCancel(w, n * s, t);
      RoundAwayExact(n, s);
    }
  }

  /** `ToDecimal` is monotone in wei, for negative values and at ties as well. */
  lemma ToDecimalMonotone(w1: int, w2: int, decimals: nat, precision: nat)
    requires precision > 0 && w1 <= w2
    ensures Cmp(DecimalOf(w1, decimals, precision), DecimalOf(w2, decimals, precision)) <= 0
  {
    DecimalOfIs(w1, decimals, precision);
    DecimalOfIs(w2, decimals, precision);
    CoefficientMonotone(w1, w2, Shift(decimals, precision), precision);
    CmpSameExponent(DecimalOf(w1, decimals, precision), DecimalOf(w2, decimals, precision));
  }

  lemma CoefficientMonotone(w1: int, w2: int, decimals: nat, precision: nat)
    requires w1 <= w2
    ensures Coefficient(w1, decimals, precision) <= Coefficient(w2, decimals, precision)
  {
    if decimals <= precision {
      PowPositive(10, precision - decimals);
      MulCancel(w2, w1, Pow(10, precision - decimals));
    } else {
      PowPositive(10, decimals - precision);
      RoundAwayMonotone(w1, w2, Pow(10, decimals - precision));
    }
  }
}
