/** What `FromHex` and `HexToAddress` make of any text: the number that its digits denote. */
module HexText {
  import opened Positional
  import opened Hex

  /** The digits in order, in both letter cases. */
  lemma DigitTable(d: nat)
    requires d < 16
    ensures HexDigit(d) == "0123456789abcdef"[d]
    ensures DigitValue("0123456789abcdef"[d]) == d && DigitValue("0123456789ABCDEF"[d]) == d
  {
  }

  /** A character that is none of them has no value. */
  lemma NoDigit(c: char)
    ensures IsHexDigit(c) <==> c in "0123456789abcdef" || c in "ABCDEF"
  {
    if IsHexDigit(c) {
      var d := DigitValue(c);
      assert c == "0123456789abcdef"[d] || c == "0123456789ABCDEF"[d];
      assert d >= 10 ==> "0123456789ABCDEF"[d] == "ABCDEF"[d - 10];
      assert d < 10 ==> "0123456789ABCDEF"[d] == "0123456789abcdef"[d];
    }
  }

  /** The number that hexadecimal digits denote. */
  function HexValue(t: string): nat {
    if |t| == 0 then 0 else HexValue(t[..|t| - 1]) * 16 + DigitValue(t[|t| - 1])
  }

  /** The length of the longest prefix of whole hexadecimal pairs. */
  function PairsLength(t: string): (n: nat)
    ensures n <= |t| && n % 2 == 0
    ensures forall i :: 0 <= i < n ==> IsHexDigit(t[i])
    ensures n + 2 <= |t| ==> !IsHexDigit(t[n]) || !IsHexDigit(t[n + 1])
  {
    if |t| < 2 || !IsHexDigit(t[0]) || !IsHexDigit(t[1]) then 0 else 2 + PairsLength(t[2..])
  }

  /** The text behind a prefix. */
  function Unprefixed(s: string): string {
    if |s| >= 2 && s[0] == '0' && s[1] in {'x', 'X'} then s[2..] else s
  }

  /** How many digits of a text are read: of odd text the first digit stands alone, the others come in pairs. */
  function DigitsRead(t: string): (n: nat)
    ensures n <= |t| && forall i :: 0 <= i < n ==> IsHexDigit(t[i])
  {
    if |t| % 2 == 0 then PairsLength(t)
    else if IsHexDigit(t[0]) then 1 + PairsLength(t[1..])
    else 0
  }

  /** Decoding reads the whole pairs at the start of a text. */
  lemma {:induction false} DecodePairs(t: string)
    ensures Decode(t) == Decode(t[..PairsLength(t)]) && 2 * |Decode(t)| == PairsLength(t)
  {
    var n := PairsLength(t);
    if n > 0 {
      DecodePairs(t[2..]);
      assert t[..n][2..] == t[2..][..n - 2];
    }
  }

  lemma {:induction false} DecodeConcat(x: string, y: string)
    requires |x| % 2 == 0 && forall i :: 0 <= i < |x| ==> IsHexDigit(x[i])
    ensures Decode(x + y) == Decode(x) + Decode(y)
  {
    if |x| == 0 {
      assert x + y == y;
    } else {
      assert (x + y)[2..] == x[2..] + y;
      DecodeConcat(x[2..], y);
    }
  }

  lemma {:induction false} AllPairs(t: string)
    requires |t| % 2 == 0 && forall i :: 0 <= i < |t| ==> IsHexDigit(t[i])
    ensures PairsLength(t) == |t|
  {
    if |t| > 0 {
      AllPairs(t[2..]);
    }
  }

  /** Bytes and digits denote the same number. */
  lemma {:induction false} DecodeValue(t: string)
    requires |t| % 2 == 0 && forall i :: 0 <= i < |t| ==> IsHexDigit(t[i])
    ensures Eval(256, Decode(t)) == HexValue(t)
  {
    if |t| > 0 {
      var front, c, d := t[..|t| - 2], t[|t| - 2], t[|t| - 1];
      DecodeValue(front);
      assert t == front + [c, d];
      LastPair(front, c, d, t);
    }
  }

  lemma LastPair(front: string, c: char, d: char, t: string)
    requires |front| % 2 == 0 && forall i :: 0 <= i < |front| ==> IsHexDigit(front[i])
    requires IsHexDigit(c) && IsHexDigit(d) && t == front + [c, d] && Eval(256, Decode(front)) == HexValue(front)
    ensures Eval(256, Decode(t)) == HexValue(t)
  {
    hide Eval, Decode, HexValue, DigitValue, IsHexDigit;
    DecodeConcat(front, [c, d]);
    OnePair(c, d);
    EvalSnoc(256, Decode(front), DigitValue(c) * 16 + DigitValue(d));
    TwoDigits(front, c, d, t);
  }

  lemma OnePair(c: char, d: char)
    requires IsHexDigit(c) && IsHexDigit(d)
    ensures DigitValue(c) * 16 + DigitValue(d) < 256 && Decode([c, d]) == [DigitValue(c) * 16 + DigitValue(d)]
  {
    assert [c, d][2..] == [];
  }

  lemma TwoDigits(front: string, c: char, d: char, t: string)
    requires t == front + [c, d]
    ensures HexValue(t) == HexValue(front) * 256 + (DigitValue(c) * 16 + DigitValue(d))
  {
    hide DigitValue;
    assert t[..|t| - 1] == front + [c] && (front + [c])[..|front|] == front;
  }

  /** A zero in front changes no number. */
  lemma {:induction false} ZeroInFront(t: string)
    ensures HexValue("0" + t) == HexValue(t)
  {
    if |t| > 0 {
      ZeroInFront(t[..|t| - 1]);
      assert ("0" + t)[..|t|] == "0" + t[..|t| - 1];
    } else {
      assert "0" + t == "0" && "0"[..0] == "";
    }
  }

  /** An odd text is read as if a zero preceded it. */
  lemma OddText(t: string)
    requires |t| % 2 == 1
    ensures DigitsRead(t) == (if IsHexDigit(t[0]) then PairsLength("0" + t) - 1 else 0)
    ensures !IsHexDigit(t[0]) ==> PairsLength("0" + t) == 0
  {
    assert ("0" + t)[2..] == t[1..];
  }

  /** What is decoded: the text behind a prefix, with a zero in front of odd text. */
  lemma BodyRead(s: string, t: string, body: string)
    requires t == Unprefixed(s) && body == if |t| % 2 == 1 then "0" + t else t
    ensures FromHex(s) == Decode(body)
  {
    hide Decode;
  }

  /**
    For every text: the bytes of `FromHex` denote the number of the digits that are read, in
    as many bytes as those digits need, two to a byte.
  */
  lemma FromHexIs(s: string)
    ensures var t := Unprefixed(s);
            && 2 * |FromHex(s)| == DigitsRead(t) + DigitsRead(t) % 2
            && Eval(256, FromHex(s)) == HexValue(t[..DigitsRead(t)])
  {
    hide HexValue, Decode, Eval, FromHex, PairsLength, DigitsRead, IsHexDigit, Unprefixed;
    var t := Unprefixed(s);
    if |t| % 2 == 1 {
      BodyRead(s, t, "0" + t);
      OddDigits(t);
    } else {
      BodyRead(s, t, t);
      EvenDigits(t);
    }
  }

  lemma EvenDigits(t: string)
    requires |t| % 2 == 0
    ensures 2 * |Decode(t)| == DigitsRead(t) && Eval(256, Decode(t)) == HexValue(t[..DigitsRead(t)])
    ensures DigitsRead(t) % 2 == 0
  {
    hide HexValue, Decode, Eval, PairsLength;
    DecodePairs(t);
    DecodeValue(t[..PairsLength(t)]);
  }

  lemma OddDigits(t: string)
    requires |t| % 2 == 1
    ensures var n := DigitsRead(t);
            2 * |Decode("0" + t)| == n + n % 2 && Eval(256, Decode("0" + t)) == HexValue(t[..n])
  {
    hide HexValue, Decode, Eval, PairsLength;
    var body := "0" + t;
    var k := PairsLength(body);
    DecodePairs(body);
    DecodeValue(body[..k]);
    OddText(t);
    if k > 0 {
      assert body[..k] == "0" + t[..k - 1];
      ZeroInFront(t[..k - 1]);
    } else {
      assert body[..0] == t[..0];
    }
  }

  lemma PrefixCut(t: string)
    ensures Unprefixed("0x" + t) == t && Unprefixed("0X" + t) == t
  {
    assert ("0x" + t)[2..] == t && ("0X" + t)[2..] == t;
  }

  /** The first digit of an odd text is a byte of its own. */
  lemma OddDigit(c: char, t: string, digits: string)
    requires IsHexDigit(c) && |t| % 2 == 0 && digits == [c] + t
    ensures FromHex("0x" + digits) == [DigitValue(c)] + Decode(t)
  {
    hide FromHex, Decode, DigitValue, IsHexDigit, Unprefixed;
    PrefixCut(digits);
    BodyRead("0x" + digits, digits, "0" + digits);
    DecodeOdd(c, t, "0" + digits);
  }

  lemma DecodeOdd(c: char, t: string, body: string)
    requires IsHexDigit(c) && body == "0" + ([c] + t)
    ensures Decode(body) == [DigitValue(c)] + Decode(t)
  {
    assert body[0] == '0' && body[1] == c && body[2..] == t;
  }

  /** For every text: the address denotes that number modulo 2^160. */
  lemma HexToAddressIs(s: string)
    ensures Pow(256, 20) > 0
    ensures var t := Unprefixed(s); Eval(256, HexToAddress(s)) == HexValue(t[..DigitsRead(t)]) % Pow(256, 20)
  {
    hide HexValue, FromHex, Eval, BytesToAddress, Pow;
    FromHexIs(s);
    LastTwenty(FromHex(s));
  }

  lemma LastTwenty(bs: seq<byte>)
    ensures Pow(256, 20) > 0 && Eval(256, BytesToAddress(bs)) == Eval(256, bs) % Pow(256, 20)
  {
    hide Eval, Pow;
    PowPositive(256, 20);
    EvalBound(256, BytesToAddress(bs));
    if |bs| > 20 {
      var front, back := bs[..|bs| - 20], bs[|bs| - 20..];
      assert bs == front + back;
      EvalConcat(256, front, back);
      LastDigit(Pow(256, 20), Eval(256, front), Eval(256, back));
    } else {
      EvalLeftPad(256, bs, 20);
      LastDigit(Pow(256, 20), 0, Eval(256, BytesToAddress(bs)));
    }
  }
}
