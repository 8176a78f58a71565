/** `decimal.NewFromString`: reading an amount, with a decimal point or in scientific notation. */
module AmountText {
  import opened Positional
  import opened DecimalText
  import opened Decimals
  import opened Subscriptions

  /** The position of the first of some characters; the length of the text when there is none. */
  function Find(s: string, marks: set<char>): (i: nat)
    ensures i <= |s| && (i < |s| ==> s[i] in marks)
    ensures forall j :: 0 <= j < i ==> s[j] !in marks
  {
    if |s| == 0 || s[0] in marks then 0 else 1 + Find(s[1..], marks)
  }

  predicate FitsInt32(n: int) {
    -0x8000_0000 <= n < 0x8000_0000
  }

  /** None where the source returns an error. */
  function FromString(value: string): Option<Decimal> {
    var e := Find(value, {'E', 'e'});
    if e == |value| then Mantissa(value, 0)
    else match ParseInt(value[e + 1..])
      case None => None
      case Some(exp) => if FitsInt32(exp) then Mantissa(value[..e], exp) else None
  }

  /** The digits of a text without its decimal point, and how many of them are behind it. */
  datatype Pieces = Pieces(digits: string, places: nat)

  /** Zeros at the end of the fraction are dropped; more than one point is an error. */
  function SplitPoint(value: string): Option<Pieces> {
    var p := Find(value, {'.'});
    if p == |value| then Some(Pieces(value, 0))
    else if '.' in value[p + 1..] then None
    else
      var fraction := TrimZeros(value[p + 1..]);
      Some(Pieces(value[..p] + fraction, |fraction|))
  }

  function Mantissa(value: string, exp: int): Option<Decimal> {
    match SplitPoint(value)
    case None => None
    case Some(p) => WithExponent(p.digits, exp - p.places)
  }

  function WithExponent(digits: string, exp: int): Option<Decimal> {
    match ParseInt(digits)
    case None => None
    case Some(n) => if FitsInt32(exp) then Some(Decimal(n, exp)) else None
  }

  predicate Free(s: string, marks: set<char>) {
    forall i :: 0 <= i < |s| ==> s[i] !in marks
  }

  /** A text without e and E is read as it stands. */
  lemma WithoutExponent(s: string)
    requires Free(s, {'E', 'e'})
    ensures FromString(s) == Mantissa(s, 0)
  {
    FindAt(s, {'E', 'e'}, |s|);
  }

  /** The first e or E ends the mantissa; behind it there must be an integer of 32 bits. */
  lemma BehindExponent(front: string, mark: string, back: string, s: string)
    requires Free(front, {'E', 'e'}) && (mark == "e" || mark == "E") && s == front + mark + back
    ensures FromString(s) ==
      match ParseInt(back)
      case None => None
      case Some(x) => if -0x8000_0000 <= x < 0x8000_0000 then Mantissa(front, x) else None
  {
    FindAt(s, {'E', 'e'}, |front|);
    assert s[..|front|] == front && s[|front| + 1..] == back;
  }

  /** A mantissa without a point is an integer. */
  lemma WithoutPoint(s: string, exp: int)
    requires Free(s, {'.'})
    ensures Mantissa(s, exp) ==
      match ParseInt(s)
      case None => None
      case Some(n) => if -0x8000_0000 <= exp < 0x8000_0000 then Some(Decimal(n, exp)) else None
  {
    FindAt(s, {'.'}, |s|);
  }

  /** With one point its digits are joined, zeros at the end left out; a second point is an error. */
  lemma AroundPoint(whole: string, fraction: string, exp: int, s: string)
    requires Free(whole, {'.'}) && s == whole + "." + fraction
    ensures '.' in fraction ==> Mantissa(s, exp) == None
    ensures '.' !in fraction ==>
      var kept := TrimZeros(fraction);
      Mantissa(s, exp) ==
        match ParseInt(whole + kept)
        case None => None
        case Some(n) =>
          if -0x8000_0000 <= exp - |kept| < 0x8000_0000 then Some(Decimal(n, exp - |kept|)) else None
  {
    hide ParseInt;
    FindAt(s, {'.'}, |whole|);
    assert s[..|whole|] == whole && s[|whole| + 1..] == fraction;
  }

  lemma FindAt(s: string, marks: set<char>, i: nat)
    requires i <= |s| && (i < |s| ==> s[i] in marks) && forall j :: 0 <= j < i ==> s[j] !in marks
    ensures Find(s, marks) == i
  {
  }

  /** A digit string without the zeros at its end. */
  function Significant(ds: seq<nat>): (r: seq<nat>)
    ensures |r| <= |ds| && r == ds[..|r|]
  {
    if |ds| > 0 && ds[|ds| - 1] == 0 then Significant(ds[..|ds| - 1]) else ds
  }

  lemma {:induction false} TrimmedText(ds: seq<nat>)
    requires InBase(10, ds)
    ensures TrimZeros(ToText(ds)) == ToText(Significant(ds))
    ensures TrimZeros(ToText(Significant(ds))) == ToText(Significant(ds))
  {
    if |ds| > 0 && ds[|ds| - 1] == 0 {
      TrimmedText(ds[..|ds| - 1]);
      assert ToText(ds)[..|ds| - 1] == ToText(ds[..|ds| - 1]);
    }
  }

  lemma {:induction false} SignificantValue(ds: seq<nat>)
    ensures Eval(10, ds) == Eval(10, Significant(ds)) * Pow(10, |ds| - |Significant(ds)|)
  {
    if |ds| > 0 && ds[|ds| - 1] == 0 {
      SignificantValue(ds[..|ds| - 1]);
      var s, k := Significant(ds), |ds| - 1 - |Significant(ds)|;
      MulAssoc(Eval(10, s), Pow(10, k), 10);
    }
  }

  predicate NoPoint(s: string) {
    forall i :: 0 <= i < |s| ==> s[i] != '.'
  }

  lemma SplitAtPoint(front: string, fraction: string)
    requires NoPoint(front) && NoPoint(fraction)
    ensures SplitPoint(front + "." + fraction) == Some(Pieces(front + TrimZeros(fraction), |TrimZeros(fraction)|))
  {
    var s := front + "." + fraction;
    FindAt(s, {'.'}, |front|);
    assert s[|front| + 1..] == fraction && s[..|front|] == front;
  }

  lemma SignedNoPoint(negative: bool, digits: string)
    requires AllDigits(digits)
    ensures NoPoint(Signed(negative, digits)) && NoPoint(digits)
  {
  }

  lemma JoinText(x: seq<nat>, y: seq<nat>)
    requires InBase(10, x) && InBase(10, y)
    ensures ToText(x + y) == ToText(x) + ToText(y)
  {
  }

  lemma SignFirst(negative: bool, a: string, b: string)
    ensures Signed(negative, a + b) == Signed(negative, a) + b
  {
    assert "-" + (a + b) == ("-" + a) + b;
  }

  /** The text has these digits before and behind its point, zeros at the end left out. */
  predicate Splits(text: string, negative: bool, whole: seq<nat>, frac: seq<nat>)
    requires forall i :: 0 <= i < |whole| ==> whole[i] < 10
    requires forall i :: 0 <= i < |frac| ==> frac[i] < 10
  {
    var sig := Significant(frac);
    SplitPoint(text) == Some(Pieces(Signed(negative, ToText(whole + sig)), |sig|))
  }

  /** A number written out with a decimal point; its digits may begin and end with zeros. */
  function WrittenOut(negative: bool, whole: seq<nat>, frac: seq<nat>): string
    requires forall i :: 0 <= i < |whole| ==> whole[i] < 10
    requires forall i :: 0 <= i < |frac| ==> frac[i] < 10
  {
    Signed(negative, ToText(whole)) + "." + ToText(frac)
  }

  lemma WrittenOutSplits(negative: bool, whole: seq<nat>, frac: seq<nat>)
    requires InBase(10, whole) && InBase(10, frac)
    ensures Splits(WrittenOut(negative, whole, frac), negative, whole, frac)
  {
    hide SplitPoint, Signed, ToText, TrimZeros;
    var sig := Significant(frac);
    TrimmedText(frac);
    JoinText(whole, sig);
    SignedNoPoint(negative, ToText(whole));
    SignedNoPoint(negative, ToText(frac));
    SplitAtPoint(Signed(negative, ToText(whole)), ToText(frac));
    SignFirst(negative, ToText(whole), ToText(sig));
  }

  lemma PrintedSplits(negative: bool, whole: seq<nat>, frac: seq<nat>)
    requires InBase(10, whole) && InBase(10, frac)
    ensures Splits(PointText(negative, ToText(whole), ToText(frac)), negative, whole, frac)
  {
    var sig := Significant(frac);
    TrimmedText(frac);
    JoinText(whole, sig);
    SplitText(negative, ToText(whole), ToText(sig));
  }

  lemma SplitText(negative: bool, whole: string, sig: string)
    requires AllDigits(whole) && AllDigits(sig) && TrimZeros(sig) == sig
    ensures SplitPoint(Signed(negative, if |sig| > 0 then whole + "." + sig else whole))
         == Some(Pieces(Signed(negative, whole + sig), |sig|))
  {
    var front := Signed(negative, whole);
    SignedNoPoint(negative, whole);
    if |sig| == 0 {
      assert whole + sig == whole;
      FindAt(front, {'.'}, |front|);
    } else {
      SignBoth(negative, whole, sig);
      SplitAtPoint(front, sig);
    }
  }

  lemma SignBoth(negative: bool, whole: string, sig: string)
    ensures Signed(negative, whole + sig) == Signed(negative, whole) + sig
    ensures Signed(negative, whole + "." + sig) == Signed(negative, whole) + "." + sig
  {
    SignFirst(negative, whole, sig);
    SignFirst(negative, whole + ".", sig);
    SignFirst(negative, whole, ".");
  }

  lemma ReadDigits(negative: bool, ds: seq<nat>, exp: int)
    requires |ds| > 0 && InBase(10, ds) && FitsInt32(exp)
    ensures WithExponent(Signed(negative, ToText(ds)), exp) == Some(Decimal(WithSign(negative, Eval(10, ds)), exp))
  {
    ParseDigits(ds, negative);
  }

  /** A text with a decimal point is read without the zeros at its end. */
  lemma ReadPoint(negative: bool, whole: seq<nat>, frac: seq<nat>, exp: int, text: string, ds: seq<nat>, places: nat)
    requires InBase(10, whole) && InBase(10, frac) && Splits(text, negative, whole, frac)
    requires ds == whole + Significant(frac) && |ds| > 0 && places == |Significant(frac)| && FitsInt32(exp - places)
    ensures Mantissa(text, exp) == Some(Decimal(WithSign(negative, Eval(10, ds)), exp - places))
  {
    ReadPieces(text, exp, negative, ds, places);
  }

  lemma ReadPieces(text: string, exp: int, negative: bool, ds: seq<nat>, places: nat)
    requires |ds| > 0 && InBase(10, ds) && FitsInt32(exp - places)
    requires SplitPoint(text) == Some(Pieces(Signed(negative, ToText(ds)), places))
    ensures Mantissa(text, exp) == Some(Decimal(WithSign(negative, Eval(10, ds)), exp - places))
  {
    ReadDigits(negative, ds, exp - places);
  }

  lemma ZerosAreInsignificant(negative: bool, whole: seq<nat>, frac: seq<nat>, exp: int)
    ensures var sig := Significant(frac);
            Equal(Decimal(WithSign(negative, Eval(10, whole + sig)), exp - |sig|),
                  Decimal(WithSign(negative, Eval(10, whole + frac)), exp - |frac|))
  {
    WithoutZeros(whole, frac);
    SameMagnitude(negative, Eval(10, whole + Significant(frac)), |frac| - |Significant(frac)|, Eval(10, whole + frac),
                  exp - |Significant(frac)|);
  }

  lemma SameMagnitude(negative: bool, a: nat, j: nat, b: nat, e: int)
    requires b == a * Pow(10, j)
    ensures Equal(Decimal(WithSign(negative, a), e), Decimal(WithSign(negative, b), e - j))
  {
    MulSign(negative, a, Pow(10, j));
    SameNumber(WithSign(negative, a), e, j, WithSign(negative, b));
  }

  lemma WithoutZeros(whole: seq<nat>, frac: seq<nat>)
    ensures Eval(10, whole + frac) == Eval(10, whole + Significant(frac)) * Pow(10, |frac| - |Significant(frac)|)
  {
    var sig := Significant(frac);
    var j := |frac| - |sig|;
    SignificantValue(frac);
    EvalConcat(10, whole, frac);
    EvalConcat(10, whole, sig);
    PowAdd(10, |sig|, j);
    ScaledSum(Eval(10, whole), Pow(10, |sig|), Eval(10, sig), Pow(10, j));
  }

  lemma ScaledSum(w: nat, p: nat, s: nat, q: nat)
    ensures (w * p + s) * q == w * (p * q) + s * q
  {
    assert (w * p) * q == w * (p * q);
  }

  lemma SameNumber(c: int, e: int, j: nat, d: int)
    requires d == c * Pow(10, j)
    ensures Equal(Decimal(c, e), Decimal(d, e - j))
  {
  }

  /** The text reads, with the exponent exp added to its own, as the number d. */
  ghost predicate ReadsAs(text: string, exp: int, d: Decimal) {
    exists r :: Mantissa(text, exp) == Some(r) && Equal(r, d)
  }

  /** What is printed reads back as the same number, and with an exponent as the number that many places on. */
  lemma ReadPrint(d: Decimal, exp: int)
    requires FitsInt32(exp) && FitsInt32(exp + d.exp)
    ensures ReadsAs(Print(d), exp, Decimal(d.coeff, exp + d.exp))
  {
    if d.exp >= 0 {
      ReadWhole(d, exp, Print(d));
    } else {
      ReadPlaces(d.coeff, -d.exp, exp, Print(d), Decimal(d.coeff, exp + d.exp));
    }
  }

  lemma ReadWhole(d: Decimal, exp: int, text: string)
    requires d.exp >= 0 && FitsInt32(exp) && text == PrintInt(AtScale(d, 0))
    ensures ReadsAs(text, exp, Decimal(d.coeff, exp + d.exp))
  {
    var n := AtScale(d, 0);
    ReadInteger(n, exp);
    assert Equal(Decimal(n, exp), Decimal(d.coeff, exp + d.exp)) by { EqualShiftUp(d.coeff, d.exp, exp); }
  }

  lemma ReadInteger(n: int, exp: int)
    requires FitsInt32(exp)
    ensures Mantissa(PrintInt(n), exp) == Some(Decimal(n, exp))
  {
    ParsePrint(n);
    FindAt(PrintInt(n), {'.'}, |PrintInt(n)|);
  }

  lemma EqualShiftUp(c: int, k: nat, exp: int)
    ensures Equal(Decimal(c * Pow(10, k), exp), Decimal(c, exp + k))
  {
    var a, b := Decimal(c * Pow(10, k), exp), Decimal(c, exp + k);
    CmpIs(a, b, exp, 0, k);
    assert Pow(10, 0) == 1;
  }

  /** Comparison in terms of the powers the coefficients are scaled by. */
  lemma CmpIs(a: Decimal, b: Decimal, base: int, i: nat, j: nat)
    requires base == Min(a.exp, b.exp) && a.exp == base + i && b.exp == base + j
    ensures Cmp(a, b) == a.coeff * Pow(10, i) - b.coeff * Pow(10, j)
  {
    assert a.exp + -base == i && b.exp + -base == j;
  }

  lemma ReadPlaces(c: int, k: nat, exp: int, text: string, d: Decimal)
    requires k > 0 && FitsInt32(exp) && FitsInt32(exp - k)
    requires text == PrintPlaces(c, k) && d == Decimal(c, exp - k)
    ensures ReadsAs(text, exp, d)
  {
    hide Splits, PrintPlaces, PointText, Padded, ReadsAs;
    var whole, frac := PlacesText(c, k);
    PaddedValue(Abs(c), k);
    PrintedSplits(c < 0, whole, frac);
    ReadParts(c < 0, whole, frac, Padded(Abs(c), k), exp, text, d);
  }

  lemma PlacesText(c: int, k: nat) returns (whole: seq<nat>, frac: seq<nat>)
    ensures |whole| > 0 && |frac| == k && InBase(10, whole) && InBase(10, frac)
    ensures PrintPlaces(c, k) == PointText(c < 0, ToText(whole), ToText(frac))
    ensures whole + frac == Padded(Abs(c), k)
  {
    hide Padded, PointText, IntPart, FracPart, PrintNat;
    var full := Padded(Abs(c), k);
    Parts(Abs(c), k);
    whole, frac := full[..|full| - k], full[|full| - k..];
  }

  lemma ReadParts(negative: bool, whole: seq<nat>, frac: seq<nat>, full: seq<nat>, exp: int, text: string, d: Decimal)
    requires InBase(10, whole) && InBase(10, frac) && full == whole + frac && |whole + Significant(frac)| > 0
    requires FitsInt32(exp) && FitsInt32(exp - |frac|) && Splits(text, negative, whole, frac)
    requires d == Decimal(WithSign(negative, Eval(10, full)), exp - |frac|)
    ensures ReadsAs(text, exp, d)
  {
    var sig := Significant(frac);
    ReadPoint(negative, whole, frac, exp, text, whole + sig, |sig|);
    ZerosAreInsignificant(negative, whole, frac, exp);
  }

  /** A text without a digit before the point, and with nothing but zeros behind it, is no number. */
  lemma NoDigits(text: string, negative: bool, whole: seq<nat>, frac: seq<nat>, exp: int)
    requires InBase(10, whole) && InBase(10, frac) && Splits(text, negative, whole, frac)
    requires |whole + Significant(frac)| == 0
    ensures Mantissa(text, exp) == None
  {
    assert ToText(whole + Significant(frac)) == "";
    assert ParseInt("") == None && ParseInt("-") == None;
  }

  lemma AnyDigits(whole: seq<nat>, frac: seq<nat>)
    requires InBase(10, frac)
    ensures |whole + Significant(frac)| > 0 <==> |whole| > 0 || Eval(10, frac) > 0
  {
    EvalZeroDigits(frac);
    TrimmedText(frac);
  }

  /**
    Any number written out with a decimal point, with zeros at either end or not, is read as the
    number it denotes; it is refused exactly when there is no digit before the point and only
    zeros behind it.
  */
  lemma WrittenOutReads(negative: bool, whole: seq<nat>, frac: seq<nat>)
    requires InBase(10, whole) && InBase(10, frac) && |frac| <= 0x8000_0000
    ensures var read := FromString(WrittenOut(negative, whole, frac));
            && (read.Some? <==> |whole| > 0 || Eval(10, frac) > 0)
            && (read.Some? ==> Equal(read.value, Places(WithSign(negative, Eval(10, whole + frac)), |frac|)))
  {
    hide WrittenOut, Splits, Equal, Eval, Mantissa;
    var text := WrittenOut(negative, whole, frac);
    WrittenOutSplits(negative, whole, frac);
    WrittenOutChars(negative, whole, frac);
    FindAt(text, {'E', 'e'}, |text|);
    AnyDigits(whole, frac);
    if |whole + Significant(frac)| > 0 {
      var d := Places(WithSign(negative, Eval(10, whole + frac)), |frac|);
      ReadParts(negative, whole, frac, whole + frac, 0, text, d);
    } else {
      NoDigits(text, negative, whole, frac, 0);
    }
  }

  lemma WrittenOutChars(negative: bool, whole: seq<nat>, frac: seq<nat>)
    requires InBase(10, whole) && InBase(10, frac)
    ensures NumberText(WrittenOut(negative, whole, frac))
  {
  }

  /** And with an exponent, as the number that many places on. */
  lemma WrittenOutScientific(negative: bool, whole: seq<nat>, frac: seq<nat>, exp: int, text: string)
    requires InBase(10, whole) && InBase(10, frac) && (|whole| > 0 || Eval(10, frac) > 0)
    requires FitsInt32(exp) && FitsInt32(exp - |frac|)
    requires var front := WrittenOut(negative, whole, frac);
             text == front + "e" + PrintInt(exp) || text == front + "E" + PrintInt(exp)
    ensures FromString(text).Some?
    ensures Equal(FromString(text).value, Decimal(WithSign(negative, Eval(10, whole + frac)), exp - |frac|))
  {
    hide WrittenOut, Splits, Equal, Eval, Mantissa;
    var front := WrittenOut(negative, whole, frac);
    WrittenOutSplits(negative, whole, frac);
    WrittenOutChars(negative, whole, frac);
    SplitExponent(front, exp, text);
    AnyDigits(whole, frac);
    ReadParts(negative, whole, frac, whole + frac, exp, front,
              Decimal(WithSign(negative, Eval(10, whole + frac)), exp - |frac|));
  }

  /** Reading what was printed gives the same number. */
  lemma StringRoundTrip(d: Decimal)
    requires FitsInt32(d.exp)
    ensures FromString(Print(d)).Some? && Equal(FromString(Print(d)).value, d)
  {
    NoMark(d);
    FindAt(Print(d), {'E', 'e'}, |Print(d)|);
    ReadPrint(d, 0);
  }

  /** The text of an integer reads as that integer, with exponent zero. */
  lemma IntegerText(n: int)
    ensures FromString(PrintInt(n)) == Some(Decimal(n, 0))
  {
    FindAt(PrintInt(n), {'E', 'e'}, |PrintInt(n)|);
    ReadInteger(n, 0);
  }

  /** Scientific notation moves the decimal point. */
  lemma ScientificNotation(d: Decimal, exp: int, text: string)
    requires FitsInt32(exp + d.exp) && FitsInt32(exp)
    requires text == Print(d) + "e" + PrintInt(exp) || text == Print(d) + "E" + PrintInt(exp)
    ensures FromString(text).Some? && Equal(FromString(text).value, Decimal(d.coeff, exp + d.exp))
  {
    NoMark(d);
    SplitExponent(Print(d), exp, text);
    ReadPrint(d, exp);
  }

  lemma SplitExponent(front: string, exp: int, text: string)
    requires FitsInt32(exp) && NumberText(front)
    requires text == front + "e" + PrintInt(exp) || text == front + "E" + PrintInt(exp)
    ensures FromString(text) == Mantissa(front, exp)
  {
    FindAt(text, {'E', 'e'}, |front|);
    assert text[|front| + 1..] == PrintInt(exp) && text[..|front|] == front;
    ParsePrint(exp);
  }

  predicate NumberChar(c: char) {
    IsDigit(c) || c == '-' || c == '.'
  }

  predicate NumberText(s: string) {
    forall i :: 0 <= i < |s| ==> NumberChar(s[i])
  }

  lemma NoMark(d: Decimal)
    ensures NumberText(Print(d))
  {
    hide PrintInt, PrintPlaces, NumberText;
    if d.exp < 0 {
      PlacesNoMark(d.coeff, -d.exp);
    } else {
      IntegerNoMark(AtScale(d, 0));
    }
  }

  lemma IntegerNoMark(n: int)
    ensures NumberText(PrintInt(n))
  {
  }

  lemma PlacesNoMark(c: int, k: nat)
    ensures NumberText(PrintPlaces(c, k))
  {
    var str := PrintNat(Abs(c));
    PointTextChars(c < 0, IntPart(str, k), FracPart(str, k));
  }

  lemma PointTextChars(negative: bool, whole: string, frac: string)
    requires AllDigits(whole) && AllDigits(frac)
    ensures NumberText(PointText(negative, whole, frac))
  {
    TrimmedPrefix(frac);
  }

  lemma TrimmedPrefix(s: string)
    ensures TrimZeros(s) <= s
  {
  }
}
