/** Printed decimals are canonical: one text for each number, with no digit too many. */
module Printing {
  import opened Positional
  import opened DecimalText
  import opened Decimals
  import opened AmountText
  import opened Subscriptions

  /** The digits in order. */
  lemma DigitTable(d: nat)
    requires d < 10
    ensures DigitChar(d) == "0123456789"[d]
  {
  }

  /** A natural number is printed in as few digits as it has. */
  lemma PrintNatShort(n: nat, k: nat)
    requires k > 0
    ensures |PrintNat(n)| <= k <==> n < Pow(10, k)
  {
    PowPositive(10, k);
    DigitsLength(10, n, k);
  }

  lemma PrintIntSign(n: int)
    ensures |PrintInt(n)| > 0 && (PrintInt(n)[0] == '-' <==> n < 0)
    ensures n >= 0 ==> PrintInt(n) == PrintNat(n)
    ensures n < 0 ==> PrintInt(n) == "-" + PrintNat(-n)
  {
  }

  /** Digits before and behind the point with nothing superfluous, and a sign only for a negative number. */
  ghost predicate Canonical(negative: bool, whole: seq<nat>, frac: seq<nat>) {
    && InBase(10, whole) && InBase(10, frac) && |whole| > 0
    && (|whole| > 1 ==> whole[0] != 0)
    && (|frac| > 0 ==> frac[|frac| - 1] != 0)
    && (negative ==> Eval(10, whole + frac) > 0)
  }

  /** The sign, the whole digits, and a point only if digits follow it. */
  function CanonicalText(negative: bool, whole: seq<nat>, frac: seq<nat>): string
    requires forall i :: 0 <= i < |whole| ==> whole[i] < 10
    requires forall i :: 0 <= i < |frac| ==> frac[i] < 10
  {
    (if negative then "-" else "") + ToText(whole) + (if |frac| > 0 then "." + ToText(frac) else "")
  }

  /** Every decimal is printed in canonical form, and the text denotes it. */
  lemma PrintShape(d: Decimal) returns (whole: seq<nat>, frac: seq<nat>)
    ensures Canonical(d.coeff < 0, whole, frac)
    ensures Print(d) == CanonicalText(d.coeff < 0, whole, frac)
    ensures Equal(Places(WithSign(d.coeff < 0, Eval(10, whole + frac)), |frac|), d)
  {
    if d.exp >= 0 {
      whole, frac := DecimalDigits(Abs(AtScale(d, 0))), [];
      WholeShape(d, whole);
    } else {
      whole, frac := PlacesShape(d.coeff, -d.exp, d);
    }
  }

  lemma WholeShape(d: Decimal, whole: seq<nat>)
    requires d.exp >= 0 && whole == DecimalDigits(Abs(AtScale(d, 0)))
    ensures Canonical(d.coeff < 0, whole, [])
    ensures Print(d) == CanonicalText(d.coeff < 0, whole, [])
    ensures Equal(Places(WithSign(d.coeff < 0, Eval(10, whole + [])), 0), d)
  {
    hide Eval, Equal, Pow;
    var n := AtScale(d, 0);
    PowPositive(10, d.exp);
    SignOf(d.coeff, Pow(10, d.exp));
    EvalDecimalDigits(Abs(n));
    assert whole + [] == whole;
    WholeText(d, n);
    EqualWhole(d, n);
  }

  lemma SignOf(c: int, p: nat)
    requires p > 0
    ensures c * p < 0 <==> c < 0
    ensures c * p == 0 <==> c == 0
  {
    MulCancel(c, 0, p);
  }

  lemma WholeText(d: Decimal, n: int)
    requires d.exp >= 0 && n == AtScale(d, 0) && (n < 0 <==> d.coeff < 0)
    ensures Print(d) == CanonicalText(d.coeff < 0, DecimalDigits(Abs(n)), [])
  {
    hide AtScale, DecimalDigits;
    var text := ToText(DecimalDigits(Abs(n)));
    assert "" + text + "" == text && "-" + text + "" == "-" + text;
  }

  lemma EqualWhole(d: Decimal, n: int)
    requires d.exp >= 0 && n == AtScale(d, 0)
    ensures Equal(Places(n, 0), d)
  {
    CmpAtScale(Places(n, 0), d, 0);
    assert Pow(10, 0) == 1;
  }

  lemma PlacesShape(c: int, k: nat, d: Decimal) returns (whole: seq<nat>, frac: seq<nat>)
    requires k > 0 && d == Places(c, k)
    ensures Canonical(c < 0, whole, frac)
    ensures PrintPlaces(c, k) == CanonicalText(c < 0, whole, frac)
    ensures Equal(Places(WithSign(c < 0, Eval(10, whole + frac)), |frac|), d)
  {
    hide Eval, Equal, PrintPlaces, Padded, CanonicalText, PointText, Significant;
    var all: seq<nat>;
    whole, all := PlacesText(c, k);
    frac := Significant(all);
    NoLeadingZero(Abs(c), k, whole, all);
    LastSignificant(all);
    PaddedValue(Abs(c), k);
    PointTextCanonical(c < 0, whole, all);
    ZerosAreInsignificant(c < 0, whole, all, 0);
    if c < 0 {
      WithoutZeros(whole, all);
    }
  }

  lemma NoLeadingZero(n: nat, k: nat, whole: seq<nat>, frac: seq<nat>)
    requires whole + frac == Padded(n, k) && |frac| == k && |whole| > 0
    ensures |whole| > 1 ==> whole[0] != 0
  {
    hide Digits;
    var ds := DecimalDigits(n);
    assert whole[0] == (whole + frac)[0];
  }

  lemma {:induction false} LastSignificant(ds: seq<nat>)
    ensures var sig := Significant(ds); |sig| > 0 ==> sig[|sig| - 1] != 0
  {
    if |ds| > 0 && ds[|ds| - 1] == 0 {
      LastSignificant(ds[..|ds| - 1]);
    }
  }

  lemma PointTextCanonical(negative: bool, whole: seq<nat>, all: seq<nat>)
    requires InBase(10, whole) && InBase(10, all)
    ensures PointText(negative, ToText(whole), ToText(all)) == CanonicalText(negative, whole, Significant(all))
  {
    hide TrimZeros, ToText, Significant;
    TrimmedText(all);
    var w, f := ToText(whole), ToText(Significant(all));
    TextForms(negative, w, f);
  }

  lemma TextForms(negative: bool, w: string, f: string)
    ensures Signed(negative, if |f| > 0 then w + "." + f else w)
         == (if negative then "-" else "") + w + (if |f| > 0 then "." + f else "")
  {
    assert w + "." + f == w + ("." + f);
    assert "-" + (w + ("." + f)) == ("-" + w) + ("." + f);
    assert "" + w == w && w + "" == w && ("-" + w) + "" == "-" + w;
  }

  /** A canonical text shows its digits, so equal texts denote equal numbers. */
  lemma CanonicalPieces(negative: bool, whole: seq<nat>, frac: seq<nat>)
    requires Canonical(negative, whole, frac)
    ensures SplitPoint(CanonicalText(negative, whole, frac))
         == Some(Pieces(Signed(negative, ToText(whole + frac)), |frac|))
    ensures ParseInt(Signed(negative, ToText(whole + frac))) == Some(WithSign(negative, Eval(10, whole + frac)))
  {
    hide SplitPoint, ToText, Eval, ParseInt;
    ParseDigits(whole + frac, negative);
    JoinText(whole, frac);
    TextForms(negative, ToText(whole), ToText(frac));
    NothingToTrim(frac);
    SplitText(negative, ToText(whole), ToText(frac));
  }

  lemma NothingToTrim(frac: seq<nat>)
    requires InBase(10, frac) && (|frac| > 0 ==> frac[|frac| - 1] != 0)
    ensures TrimZeros(ToText(frac)) == ToText(frac)
  {
  }

  lemma LeadingDigit(ds: seq<nat>)
    requires InBase(10, ds) && |ds| > 0 && ds[0] != 0
    ensures Eval(10, ds) >= Pow(10, |ds| - 1)
  {
    assert ds == ds[..1] + ds[1..];
    EvalConcat(10, ds[..1], ds[1..]);
    assert Eval(10, ds[..1]) == ds[0];
    MulMonotone(1, ds[0], Pow(10, |ds| - 1));
  }

  /** Numbers without superfluous zeros in front have as many digits as they need. */
  lemma SameLength(x: seq<nat>, y: seq<nat>)
    requires InBase(10, x) && InBase(10, y) && Eval(10, x) == Eval(10, y)
    requires |y| > |x| ==> y[0] != 0
    ensures |y| <= |x|
  {
    hide Eval;
    if |y| > |x| {
      PowGrows(|x|, |y| - 1);
      LeadingDigit(y);
      EvalBound(10, x);
    }
  }

  lemma PowGrows(i: nat, j: nat)
    requires i <= j
    ensures Pow(10, i) <= Pow(10, j)
  {
    PowAdd(10, i, j - i);
    PowPositive(10, j - i);
    MulMonotone(1, Pow(10, j - i), Pow(10, i));
  }

  /** Digits of the same number with the same places are the same. */
  lemma SameDigits(w1: seq<nat>, f1: seq<nat>, w2: seq<nat>, f2: seq<nat>, n: bool)
    requires Canonical(n, w1, f1) && Canonical(n, w2, f2)
    requires |f1| == |f2| && Eval(10, w1 + f1) == Eval(10, w2 + f2)
    ensures w1 == w2 && f1 == f2
  {
    hide Eval;
    assert |w1| > |w2| ==> (w1 + f1)[0] == w1[0];
    assert |w2| > |w1| ==> (w2 + f2)[0] == w2[0];
    SameLength(w1 + f1, w2 + f2);
    SameLength(w2 + f2, w1 + f1);
    EvalInjective(10, w1 + f1, w2 + f2);
    assert w1 == (w1 + f1)[..|w1|] && w2 == (w2 + f2)[..|w2|];
    assert f1 == (w1 + f1)[|w1|..] && f2 == (w2 + f2)[|w2|..];
  }

  /** More places mean a last digit that the other number does not have. */
  lemma NotMorePlaces(v: int, i: nat, whole: seq<nat>, frac: seq<nat>, negative: bool)
    requires Canonical(negative, whole, frac)
    requires Equal(Places(v, i), Places(WithSign(negative, Eval(10, whole + frac)), |frac|))
    ensures |frac| <= i
  {
    hide Eval, Equal;
    if |frac| > i {
      var x := Eval(10, whole + frac);
      ScaledUp(v, i, WithSign(negative, x), |frac|);
      LastOf(whole, frac);
      PowPositive(10, |frac| - i - 1);
      MultipleOfTen(v, Pow(10, |frac| - i - 1), WithSign(negative, x), negative, x);
    }
  }

  lemma ScaledUp(v: int, i: nat, w: int, j: nat)
    requires i < j && Equal(Places(v, i), Places(w, j))
    ensures w == v * (10 * Pow(10, j - i - 1))
  {
    CmpAtScale(Places(v, i), Places(w, j), j);
    assert Pow(10, 0) == 1;
  }

  lemma LastOf(whole: seq<nat>, frac: seq<nat>)
    requires InBase(10, frac) && |frac| > 0
    ensures Eval(10, whole + frac) % 10 == frac[|frac| - 1]
  {
    var front := (whole + frac)[..|whole + frac| - 1];
    LastDigit(10, Eval(10, front), frac[|frac| - 1]);
  }

  lemma MultipleOfTen(v: int, p: nat, w: int, negative: bool, x: nat)
    requires w == v * (10 * p) && w == WithSign(negative, x)
    ensures x % 10 == 0
  {
    MulAssoc(v, 10, p);
    assert w == 10 * (v * p);
  }

  /** Two decimals are printed alike exactly when they are the same number. */
  lemma PrintIff(a: Decimal, b: Decimal)
    ensures Print(a) == Print(b) <==> Equal(a, b)
  {
    hide Print, Equal, Eval, Canonical, CanonicalText, SplitPoint, ParseInt;
    var w1, f1 := PrintShape(a);
    var w2, f2 := PrintShape(b);
    var x, y := WithSign(a.coeff < 0, Eval(10, w1 + f1)), WithSign(b.coeff < 0, Eval(10, w2 + f2));
    EqualCongruent(Places(x, |f1|), a, b);
    EqualSymmetric(Places(y, |f2|), b);
    EqualSymmetric(b, Places(x, |f1|));
    EqualCongruent(b, Places(y, |f2|), Places(x, |f1|));
    EqualSymmetric(Places(x, |f1|), Places(y, |f2|));
    if Print(a) == Print(b) {
      CanonicalPieces(a.coeff < 0, w1, f1);
      CanonicalPieces(b.coeff < 0, w2, f2);
      EqualReflexive(Places(x, |f1|));
    }
    if Equal(a, b) {
      SameSign(a, b);
      NotMorePlaces(x, |f1|, w2, f2, b.coeff < 0);
      NotMorePlaces(y, |f2|, w1, f1, a.coeff < 0);
      SamePlacesSameValue(x, y, |f1|);
      SameDigits(w1, f1, w2, f2, a.coeff < 0);
    }
  }

  lemma SamePlacesSameValue(x: int, y: int, k: nat)
    requires Equal(Places(x, k), Places(y, k))
    ensures x == y
  {
    CmpSameExponent(Places(x, k), Places(y, k));
  }

  lemma SameSign(a: Decimal, b: Decimal)
    requires Equal(a, b)
    ensures a.coeff < 0 <==> b.coeff < 0
  {
    var base := Min(a.exp, b.exp);
    PowPositive(10, a.exp - base);
    PowPositive(10, b.exp - base);
    SignOf(a.coeff, Pow(10, a.exp - base));
    SignOf(b.coeff, Pow(10, b.exp - base));
  }
}
