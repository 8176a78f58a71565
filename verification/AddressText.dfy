/** `IsValidAddress` and `IsZeroAddress`, which take an address or its text. */
module AddressText {
  import opened Positional
  import opened Hex
  import opened HexText

  datatype AddressArg = Text(s: string) | Bytes(a: Address) | OtherArg

  /** Upper case for the positions that the EIP-55 checksum selects; any selection is allowed here. */
  function Upper(c: char, up: bool): char {
    if up && 'a' <= c <= 'f' then c - 'a' + 'A' else c
  }

  /** `Address.Hex`: the 40 digits behind 0x, each letter in the case that `casing` chooses. */
  function AddressHex(a: Address, casing: nat -> bool): (s: string)
    ensures |s| == 42
  {
    "0x" + seq(40, i requires 0 <= i < 40 => Upper(Encode(a)[i], casing(i)))
  }

  /** The regular expression `^0x[0-9a-fA-F]{40}$`. */
  predicate IsAddressText(s: string) {
    |s| == 42 && s[0] == '0' && s[1] == 'x' && forall i :: 2 <= i < 42 ==> IsHexDigit(s[i])
  }

  predicate IsValidAddress(x: AddressArg, casing: nat -> bool) {
    match x
    case Text(s) => IsAddressText(s)
    case Bytes(a) => IsAddressText(AddressHex(a, casing))
    case OtherArg => false
  }

  predicate IsZeroAddress(x: AddressArg) {
    match x
    case Text(s) => HexToAddress(s) == FromHex("0x" + ZeroDigits())
    case Bytes(a) => a == FromHex("0x" + ZeroDigits())
    case OtherArg => false
  }

  function ZeroDigits(): (s: string)
    ensures |s| == 40
  {
    seq(40, _ => '0')
  }

  predicate SameUpToCase(s: string, t: string) {
    && |s| == |t|
    && forall i :: 0 <= i < |s| ==> s[i] == t[i] || (IsHexDigit(s[i]) && DigitValue(s[i]) == DigitValue(t[i]))
  }

  lemma UpperKeepsDigit(c: char, up: bool)
    requires IsHexDigit(c)
    ensures DigitValue(Upper(c, up)) == DigitValue(c)
  {
  }

  lemma {:induction false} EncodeAllHex(bs: seq<byte>)
    ensures forall i :: 0 <= i < |Encode(bs)| ==> IsHexDigit(Encode(bs)[i])
  {
    if |bs| > 0 {
      DigitRoundTrip(bs[0] / 16);
      DigitRoundTrip(bs[0] % 16);
      EncodeAllHex(bs[1..]);
    }
  }

  lemma PrintedIsText(a: Address, casing: nat -> bool)
    ensures IsAddressText(AddressHex(a, casing))
  {
    EncodeAllHex(a);
    var s := AddressHex(a, casing);
    forall i | 2 <= i < 42 ensures IsHexDigit(s[i]) {
      UpperKeepsDigit(Encode(a)[i - 2], casing(i - 2));
    }
  }

  /** Every address is valid, and so is its text, in whatever letter case either is printed. */
  lemma PrintedIsValid(a: Address, casing: nat -> bool, casing': nat -> bool)
    ensures IsValidAddress(Bytes(a), casing)
    ensures IsValidAddress(Text(AddressHex(a, casing)), casing')
  {
    PrintedIsText(a, casing);
  }

  /** Decoding looks at digit values only. */
  lemma {:induction false} DecodeIgnoresCase(s: string, t: string)
    requires |s| == |t| && forall i :: 0 <= i < |s| ==> DigitValue(s[i]) == DigitValue(t[i])
    ensures Decode(s) == Decode(t)
  {
    if |s| >= 2 {
      DecodeIgnoresCase(s[2..], t[2..]);
    }
  }

  /** Printing what was parsed gives the digits back, by value. */
  lemma {:induction false} EncodeDecode(s: string)
    requires |s| % 2 == 0 && forall i :: 0 <= i < |s| ==> IsHexDigit(s[i])
    ensures 2 * |Decode(s)| == |s|
    ensures forall i :: 0 <= i < |s| ==> DigitValue(Encode(Decode(s))[i]) == DigitValue(s[i])
  {
    if |s| >= 2 {
      EncodeDecode(s[2..]);
      EncodeDecodeStep(s);
    }
  }

  lemma EncodeDecodeStep(s: string)
    requires |s| >= 2 && IsHexDigit(s[0]) && IsHexDigit(s[1]) && 2 * |Decode(s[2..])| == |s| - 2
    requires forall i :: 0 <= i < |s| - 2 ==> DigitValue(Encode(Decode(s[2..]))[i]) == DigitValue(s[2..][i])
    ensures 2 * |Decode(s)| == |s|
    ensures forall i :: 0 <= i < |s| ==> DigitValue(Encode(Decode(s))[i]) == DigitValue(s[i])
  {
    hide Encode, Decode, DigitValue, IsHexDigit;
    PairText(s[0], s[1], s[2..]);
    assert s == [s[0], s[1]] + s[2..];
    forall i | 0 <= i < |s| ensures DigitValue(Encode(Decode(s))[i]) == DigitValue(s[i]) {
      if i >= 2 {
        assert Encode(Decode(s))[i] == Encode(Decode(s))[2..][i - 2] && s[i] == s[2..][i - 2];
      }
    }
  }

  /** The text of what a pair of digits is parsed to, at the head of a longer text. */
  lemma PairText(c: char, d: char, rest: string)
    requires IsHexDigit(c) && IsHexDigit(d)
    ensures var s, t := [c, d] + rest, Encode(Decode([c, d] + rest));
            && |Decode(s)| == 1 + |Decode(rest)| && |t| >= 2
            && DigitValue(t[0]) == DigitValue(c) && DigitValue(t[1]) == DigitValue(d) && t[2..] == Encode(Decode(rest))
  {
    var hi, lo := DigitValue(c), DigitValue(d);
    DigitRoundTrip(hi);
    DigitRoundTrip(lo);
    assert (hi * 16 + lo) / 16 == hi && (hi * 16 + lo) % 16 == lo;
    assert ([c, d] + rest)[2..] == rest;
    assert ([hi * 16 + lo] + Decode(rest))[1..] == Decode(rest);
  }

  lemma ValidTextBytes(s: string)
    requires IsAddressText(s)
    ensures HexToAddress(s) == Decode(s[2..])
  {
    EncodeDecode(s[2..]);
  }

  /** Text that is accepted parses to an address that prints as the same text, up to letter case. */
  lemma ParsePrint(s: string, casing: nat -> bool)
    requires IsValidAddress(Text(s), casing)
    ensures SameUpToCase(AddressHex(HexToAddress(s), casing), s)
  {
    ValidTextBytes(s);
    EncodeDecode(s[2..]);
    var a := HexToAddress(s);
    EncodeAllHex(a);
    var t := AddressHex(a, casing);
    forall i | 2 <= i < 42 ensures IsHexDigit(t[i]) && DigitValue(t[i]) == DigitValue(s[i]) {
      UpperKeepsDigit(Encode(a)[i - 2], casing(i - 2));
      assert s[2..][i - 2] == s[i];
    }
  }

  /** Parsing what was printed gives the address back. */
  lemma PrintParse(a: Address, casing: nat -> bool)
    ensures HexToAddress(AddressHex(a, casing)) == a
  {
    PrintedIsText(a, casing);
    var s := AddressHex(a, casing);
    ValidTextBytes(s);
    EncodeAllHex(a);
    forall i | 0 <= i < 40 ensures DigitValue(s[2..][i]) == DigitValue(Encode(a)[i]) {
      UpperKeepsDigit(Encode(a)[i], casing(i));
    }
    DecodeIgnoresCase(s[2..], Encode(a));
    DecodeEncode(a, "");
    assert Encode(a) + "" == Encode(a);
    assert a + Decode("") == a;
  }

  lemma {:induction false} DecodeZeros(s: string)
    requires |s| % 2 == 0 && forall i :: 0 <= i < |s| ==> IsHexDigit(s[i])
    ensures |Decode(s)| == |s| / 2
    ensures Decode(s) == Zeros(|s| / 2) <==> forall i :: 0 <= i < |s| ==> s[i] == '0'
  {
    if |s| >= 2 {
      DecodeZeros(s[2..]);
      var bs := Decode(s);
      assert bs[1..] == Decode(s[2..]);
      assert Zeros(|s| / 2)[1..] == Zeros(|s[2..]| / 2);
      assert bs == [bs[0]] + bs[1..];
      assert forall i :: 2 <= i < |s| ==> s[i] == s[2..][i - 2];
      if bs == Zeros(|s| / 2) {
        assert bs[0] == 0 && bs[1..] == Zeros(|s| / 2)[1..];
        forall i | 0 <= i < |s| ensures s[i] == '0' {
        }
      }
    }
  }

  lemma ZeroBytes()
    ensures FromHex("0x" + ZeroDigits()) == Zeros(20)
  {
    var s := "0x" + ZeroDigits();
    assert s[2..] == ZeroDigits();
    DecodeZeros(ZeroDigits());
  }

  /** The last 20 bytes are zero exactly when the last 40 digits are. */
  lemma LastBytesZero(t: string)
    requires |t| % 2 == 0 && forall i :: 0 <= i < |t| ==> IsHexDigit(t[i])
    ensures BytesToAddress(Decode(t)) == Zeros(20) <==> forall i :: 0 <= i < |t| && i >= |t| - 40 ==> t[i] == '0'
  {
    hide Decode, IsHexDigit, BytesToAddress;
    if |t| > 40 {
      var front, back := t[..|t| - 40], t[|t| - 40..];
      assert t == front + back;
      DecodeConcat(front, back);
      DecodeZeros(front);
      DecodeZeros(back);
      LastBytes(Decode(front), Decode(back));
      SameSuffix(t, |front|);
    } else {
      DecodeZeros(t);
      PaddedZeros(Decode(t));
    }
  }

  lemma SameSuffix(t: string, k: nat)
    requires k <= |t|
    ensures (forall i :: 0 <= i < |t[k..]| ==> t[k..][i] == '0')
       <==> (forall i :: 0 <= i < |t| && i >= k ==> t[i] == '0')
  {
    assert forall i :: k <= i < |t| ==> t[i] == t[k..][i - k];
    assert forall i :: 0 <= i < |t[k..]| ==> t[k..][i] == t[i + k];
  }

  lemma LastBytes(x: seq<byte>, y: seq<byte>)
    requires |y| == 20
    ensures BytesToAddress(x + y) == y
  {
    if |x| > 0 {
      assert (x + y)[|x|..] == y;
    } else {
      assert x + y == y;
    }
  }

  lemma PaddedZeros(bs: seq<byte>)
    requires |bs| <= 20
    ensures BytesToAddress(bs) == Zeros(20) <==> bs == Zeros(|bs|)
  {
    var k := 20 - |bs|;
    assert BytesToAddress(bs) == Zeros(k) + bs;
    assert Zeros(20) == Zeros(k) + Zeros(|bs|);
    assert (Zeros(k) + bs)[k..] == bs && (Zeros(k) + Zeros(|bs|))[k..] == Zeros(|bs|);
  }

  /**
    For every text, address or not: it counts as zero exactly when the last 40 of the digits
    that are read are zero, as many of them as there are.
  */
  lemma ZeroTextIff(s: string)
    ensures var t := Unprefixed(s);
            var n := DigitsRead(t);
            IsZeroAddress(Text(s)) <==> forall i :: 0 <= i < n && i >= n - 40 ==> t[i] == '0'
  {
    hide FromHex, BytesToAddress, Decode, IsHexDigit, PairsLength;
    var t := Unprefixed(s);
    var body := if |t| % 2 == 1 then "0" + t else t;
    var k := PairsLength(body);
    BodyRead(s, t, body);
    ZeroBytes();
    DecodePairs(body);
    LastBytesZero(body[..k]);
    if |t| % 2 == 1 {
      OddText(t);
      ShiftedZeros(t, k);
    } else {
      assert forall i :: 0 <= i < k ==> body[..k][i] == t[i];
    }
  }

  lemma ShiftedZeros(t: string, k: nat)
    requires k <= |t| + 1
    ensures var digits := ("0" + t)[..k];
            var n := if k > 0 then k - 1 else 0;
            (forall i :: 0 <= i < k && i >= k - 40 ==> digits[i] == '0')
            <==> (forall i :: 0 <= i < n && i >= n - 40 ==> t[i] == '0')
  {
    var digits := ("0" + t)[..k];
    assert forall i :: 0 < i < k ==> digits[i] == t[i - 1];
    assert forall i :: 0 <= i < k - 1 ==> t[i] == digits[i + 1];
  }

  /** For accepted text: zero exactly when all 40 digits are; and text and bytes agree. */
  lemma ZeroText(s: string, casing: nat -> bool)
    requires IsValidAddress(Text(s), casing)
    ensures IsZeroAddress(Text(s)) <==> forall i :: 2 <= i < 42 ==> s[i] == '0'
    ensures IsZeroAddress(Text(s)) <==> IsZeroAddress(Bytes(HexToAddress(s)))
  {
    hide DigitsRead, IsZeroAddress;
    var t := s[2..];
    AddressDigits(s);
    ZeroTextIff(s);
    BytesOfText(s);
    assert forall i :: 2 <= i < 42 ==> s[i] == t[i - 2];
    assert forall i :: 0 <= i < 40 ==> t[i] == s[i + 2];
  }

  lemma BytesOfText(s: string)
    ensures IsZeroAddress(Text(s)) <==> IsZeroAddress(Bytes(HexToAddress(s)))
  {
  }

  lemma AddressDigits(s: string)
    requires IsAddressText(s)
    ensures Unprefixed(s) == s[2..] && DigitsRead(Unprefixed(s)) == 40
  {
    hide PairsLength;
    AllPairs(s[2..]);
  }

  lemma ZeroPrinted(a: Address, casing: nat -> bool)
    ensures IsZeroAddress(Text(AddressHex(a, casing))) <==> IsZeroAddress(Bytes(a))
    ensures IsZeroAddress(Bytes(a)) <==> a == Zeros(20)
  {
    PrintParse(a, casing);
    ZeroBytes();
  }

  /** Some text that is no address and counts as zero: nothing is read of it, or zeros only. */
  lemma JunkIsZero(s: string, casing: nat -> bool)
    requires
      || DigitsRead(Unprefixed(s)) == 0
      || (|s| < 42 && forall i :: 0 <= i < |Unprefixed(s)| ==> Unprefixed(s)[i] == '0')
    ensures IsZeroAddress(Text(s)) && !IsValidAddress(Text(s), casing)
  {
    ZeroTextIff(s);
    if IsAddressText(s) {
      AddressDigits(s);
    }
  }

  /** An argument of another type is neither valid nor zero. */
  lemma OtherIsNeither(casing: nat -> bool)
    ensures !IsValidAddress(OtherArg, casing) && !IsZeroAddress(OtherArg)
  {
  }
}
