/** Decimal text of integers: `big.Int.String`, and `big.Int.SetString` with base 10. */
module DecimalText {
  import opened Positional
  import opened Subscriptions

  function DigitChar(d: nat): char
    requires d < 10
  {
    '0' + d as char
  }

  predicate IsDigit(c: char) {
    '0' <= c <= '9'
  }

  predicate AllDigits(s: string) {
    forall i :: 0 <= i < |s| ==> IsDigit(s[i])
  }

  function ToText(ds: seq<nat>): (s: string)
    requires forall i :: 0 <= i < |ds| ==> ds[i] < 10
    ensures |s| == |ds| && AllDigits(s)
  {
    seq(|ds|, i requires 0 <= i < |ds| => DigitChar(ds[i]))
  }

  function FromText(s: string): (ds: seq<nat>)
    requires AllDigits(s)
    ensures |ds| == |s| && forall i :: 0 <= i < |ds| ==> ds[i] < 10
  {
    seq(|s|, i requires 0 <= i < |s| => (s[i] - '0') as nat)
  }

  /** Decimal digits of n without leading zeros; a single zero for zero. */
  function DecimalDigits(n: nat): (ds: seq<nat>)
    ensures |ds| > 0 && InBase(10, ds)
  {
    if n == 0 then [0] else Digits(10, n)
  }

  function PrintNat(n: nat): string {
    ToText(DecimalDigits(n))
  }

  function Signed(negative: bool, digits: string): string {
    if negative then "-" + digits else digits
  }

  function WithSign(negative: bool, n: nat): int {
    var i: int := n;
    if negative then -i else i
  }

  function Abs(n: int): nat {
    if n < 0 then -n else n
  }

  function PrintInt(n: int): string {
    Signed(n < 0, PrintNat(Abs(n)))
  }

  function ParseUnsigned(s: string): Option<nat> {
    if |s| == 0 || !AllDigits(s) then None else Some(Eval(10, FromText(s)))
  }

  /** None where `SetString` fails and leaves its receiver undefined. */
  function ParseInt(s: string): Option<int> {
    var signed := |s| > 0 && (s[0] == '+' || s[0] == '-');
    match ParseUnsigned(if signed then s[1..] else s)
    case None => None
    case Some(n) => Some(WithSign(signed && s[0] == '-', n))
  }

  lemma TextRoundTrip(ds: seq<nat>)
    requires InBase(10, ds)
    ensures FromText(ToText(ds)) == ds
  {
  }

  lemma EvalDecimalDigits(n: nat)
    ensures Eval(10, DecimalDigits(n)) == n
  {
    if n > 0 {
      EvalDigits(10, n);
    }
  }

  /** A sign never interferes with what follows it. */
  lemma ParseSigned(negative: bool, body: string)
    requires |body| > 0 && IsDigit(body[0])
    ensures ParseInt(Signed(negative, body)) ==
      match ParseUnsigned(body)
      case None => None
      case Some(n) => Some(WithSign(negative, n))
  {
    if negative {
      assert ("-" + body)[1..] == body;
    }
  }

  lemma ParseDigits(ds: seq<nat>, negative: bool)
    requires |ds| > 0 && InBase(10, ds)
    ensures ParseInt(Signed(negative, ToText(ds))) == Some(WithSign(negative, Eval(10, ds)))
  {
    TextRoundTrip(ds);
    ParseSigned(negative, ToText(ds));
  }

  lemma ParsePrint(n: int)
    ensures ParseInt(PrintInt(n)) == Some(n)
  {
    EvalDecimalDigits(Abs(n));
    ParseDigits(DecimalDigits(Abs(n)), n < 0);
  }

  /** Text with a decimal point behind its first digit never parses as an integer. */
  lemma PointDoesNotParse(whole: seq<nat>, rest: string, negative: bool)
    requires |whole| > 0 && InBase(10, whole)
    ensures ParseInt(Signed(negative, ToText(whole) + "." + rest)) == None
  {
    var body := ToText(whole) + "." + rest;
    assert body[|whole|] == '.' && body[0] == ToText(whole)[0];
    assert !AllDigits(body);
    ParseSigned(negative, body);
  }

  /** The number that a text denotes, if it is an optional sign and digits. */
  ghost predicate Denotes(s: string, negative: bool, ds: seq<nat>) {
    && InBase(10, ds) && |ds| > 0
    && (s == (if negative then "-" else "") + ToText(ds) || (!negative && s == "+" + ToText(ds)))
  }

  /** For every text: parsing gives exactly the number of the digits behind an optional sign, and nothing else. */
  lemma ParseIntIff(s: string, n: int)
    ensures ParseInt(s) == Some(n) <==>
      exists negative: bool, ds: seq<nat> :: Denotes(s, negative, ds) && n == WithSign(negative, Eval(10, ds))
  {
    hide Eval;
    if ParseInt(s) == Some(n) {
      ParsedText(s);
      var signed := |s| > 0 && (s[0] == '+' || s[0] == '-');
      assert Denotes(s, signed && s[0] == '-', FromText(if signed then s[1..] else s));
    }
    forall negative: bool, ds: seq<nat> | Denotes(s, negative, ds)
      ensures ParseInt(s) == Some(WithSign(negative, Eval(10, ds)))
    {
      ParseDenoted(s, negative, ds);
    }
  }

  lemma ParsedText(s: string)
    requires ParseInt(s).Some?
    ensures var signed := |s| > 0 && (s[0] == '+' || s[0] == '-');
            var digits := if signed then s[1..] else s;
            && |digits| > 0 && AllDigits(digits)
            && Denotes(s, signed && s[0] == '-', FromText(digits))
  {
    var signed := |s| > 0 && (s[0] == '+' || s[0] == '-');
    var digits := if signed then s[1..] else s;
    assert ToText(FromText(digits)) == digits;
    assert signed ==> s == [s[0]] + digits;
    assert "" + digits == digits;
  }

  lemma ParseDenoted(s: string, negative: bool, ds: seq<nat>)
    requires Denotes(s, negative, ds)
    ensures ParseInt(s) == Some(WithSign(negative, Eval(10, ds)))
  {
    if s == "+" + ToText(ds) {
      TextRoundTrip(ds);
      assert s[1..] == ToText(ds);
    } else {
      assert "" + ToText(ds) == ToText(ds);
      ParseDigits(ds, negative);
    }
  }
}
