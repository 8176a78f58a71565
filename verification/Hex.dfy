/** Bytes, hexadecimal text and the fixed-size values of go-ethereum's `common` package. */
module Hex {
  import opened Positional

  type byte = b: nat | b < 256
  type Word = w: seq<byte> | |w| == 32 witness seq(32, _ => 0)
  type Address = a: seq<byte> | |a| == 20 witness seq(20, _ => 0)

  function HexDigit(d: nat): char
    requires d < 16
  {
    if d < 10 then '0' + d as char else 'a' + (d - 10) as char
  }

  /** The value of a hexadecimal digit in either case; 16 for any other character. */
  function DigitValue(c: char): (d: nat)
    ensures d <= 16
  {
    if '0' <= c <= '9' then (c - '0') as nat
    else if 'a' <= c <= 'f' then (c - 'a') as nat + 10
    else if 'A' <= c <= 'F' then (c - 'A') as nat + 10
    else 16
  }

  predicate IsHexDigit(c: char) {
    DigitValue(c) < 16
  }

  /** `Bytes2Hex`. */
  function Encode(bs: seq<byte>): (s: string)
    ensures |s| == 2 * |bs|
  {
    if |bs| == 0 then "" else [HexDigit(bs[0] / 16), HexDigit(bs[0] % 16)] + Encode(bs[1..])
  }

  /** `Hex2Bytes`: the bytes of the longest prefix of whole hexadecimal pairs; what follows is dropped. */
  function Decode(s: string): seq<byte> {
    if |s| < 2 || !IsHexDigit(s[0]) || !IsHexDigit(s[1]) then []
    else [DigitValue(s[0]) * 16 + DigitValue(s[1])] + Decode(s[2..])
  }

  /** `hexutil.Encode`, and the `Hex` method of a hash. */
  function Encode0x(bs: seq<byte>): string {
    "0x" + Encode(bs)
  }

  predicate Has0xPrefix(s: string) {
    |s| >= 2 && s[0] == '0' && (s[1] == 'x' || s[1] == 'X')
  }

  /** The text behind a prefix, made even with a leading zero. */
  function HexBody(s: string): string {
    var body := if Has0xPrefix(s) then s[2..] else s;
    if |body| % 2 == 1 then "0" + body else body
  }

  function FromHex(s: string): seq<byte> {
    Decode(HexBody(s))
  }

  function BytesToAddress(bs: seq<byte>): Address {
    if |bs| > 20 then bs[|bs| - 20..] else PadBytes(bs, 20)
  }

  function HexToAddress(s: string): Address {
    BytesToAddress(FromHex(s))
  }

  /** `LeftPadBytes`. */
  function PadBytes(bs: seq<byte>, k: nat): (r: seq<byte>)
    ensures r == LeftPad(bs, k) && |r| == if |bs| > k then |bs| else k
  {
    LeftPad(bs, k)
  }

  lemma DigitRoundTrip(d: nat)
    requires d < 16
    ensures DigitValue(HexDigit(d)) == d && HexDigit(d) != 'x' && HexDigit(d) != 'X'
  {
  }

  lemma DecodePair(b: byte, rest: string)
    ensures Decode([HexDigit(b / 16), HexDigit(b % 16)] + rest) == [b] + Decode(rest)
  {
    DigitRoundTrip(b / 16);
    DigitRoundTrip(b % 16);
    var s := [HexDigit(b / 16), HexDigit(b % 16)] + rest;
    assert s[2..] == rest;
    DivMod(b, 16);
  }

  lemma Assoc<T>(x: seq<T>, y: seq<T>, z: seq<T>)
    ensures (x + y) + z == x + (y + z)
  {
  }

  /** Decoding the text of some bytes, whatever follows it, starts with those bytes. */
  lemma {:induction false} DecodeEncode(bs: seq<byte>, tail: string)
    ensures Decode(Encode(bs) + tail) == bs + Decode(tail)
  {
    if |bs| == 0 {
      assert Encode(bs) + tail == tail;
      assert bs + Decode(tail) == Decode(tail);
    } else {
      var b, rest := bs[0], bs[1..];
      var pair := [HexDigit(b / 16), HexDigit(b % 16)];
      DecodeEncode(rest, tail);
      DecodePair(b, Encode(rest) + tail);
      Assoc(pair, Encode(rest), tail);
      Assoc([b], rest, Decode(tail));
      assert [b] + rest == bs;
    }
  }

  lemma EncodeUnprefixed(bs: seq<byte>)
    ensures !Has0xPrefix(Encode(bs))
  {
    if |bs| > 0 {
      DigitRoundTrip(bs[0] % 16);
    }
  }

  /** The text of some bytes reads back as those bytes. */
  lemma DecodeText(bs: seq<byte>)
    ensures Decode(Encode(bs)) == bs
  {
    DecodeEncode(bs, "");
    assert Encode(bs) + "" == Encode(bs);
    assert bs + [] == bs;
  }

  /** So it does with `FromHex`, which looks for a prefix first. */
  lemma FromHexEncode(bs: seq<byte>)
    ensures FromHex(Encode(bs)) == bs
  {
    hide Encode, Decode, Has0xPrefix;
    EncodeUnprefixed(bs);
    DecodeText(bs);
  }

  /** And the text with its prefix. */
  lemma FromHexEncode0x(bs: seq<byte>)
    ensures FromHex(Encode0x(bs)) == bs
  {
    hide Encode, Decode;
    DecodeText(bs);
    assert Encode0x(bs)[2..] == Encode(bs);
  }

  lemma HexInjective(x: seq<byte>, y: seq<byte>)
    ensures Encode0x(x) == Encode0x(y) <==> x == y
  {
    hide Encode0x, FromHex;
    FromHexEncode0x(x);
    FromHexEncode0x(y);
  }

  lemma {:induction false} EncodeConcat(x: seq<byte>, y: seq<byte>)
    ensures Encode(x + y) == Encode(x) + Encode(y)
  {
    if |x| == 0 {
      assert x + y == y;
    } else {
      assert (x + y)[1..] == x[1..] + y;
      EncodeConcat(x[1..], y);
    }
  }

  /** The text of a middle part of some bytes is the middle part of their text. */
  lemma EncodeMiddle(a: seq<byte>, b: seq<byte>, c: seq<byte>, all: seq<byte>)
    requires all == a + (b + c)
    ensures Encode(all)[2 * |a|..2 * |a| + 2 * |b|] == Encode(b)
  {
    hide Encode;
    EncodeConcat(a, b + c);
    EncodeConcat(b, c);
    Middle(Encode(a), Encode(b), Encode(c));
  }

  /** Cutting the text at even positions cuts the bytes at half of them. */
  lemma EncodeSlice(bs: seq<byte>, i: nat, j: nat)
    requires i <= j <= |bs|
    ensures Encode(bs)[2 * i..2 * j] == Encode(bs[i..j])
  {
    hide Encode;
    Cut(bs, i, j);
    EncodeMiddle(bs[..i], bs[i..j], bs[j..], bs);
  }

  lemma Cut(bs: seq<byte>, i: nat, j: nat)
    requires i <= j <= |bs|
    ensures bs[..i] + (bs[i..j] + bs[j..]) == bs
  {
  }

  lemma Middle(a: string, b: string, c: string)
    ensures (a + (b + c))[|a|..|a| + |b|] == b
  {
  }

  /** A hash's text read as an address is the hash's last 20 bytes. */
  lemma HashTextToAddress(h: Word)
    ensures HexToAddress(Encode0x(h)) == h[12..]
  {
    hide FromHex, Encode0x;
    FromHexEncode0x(h);
  }

  lemma Pow32()
    ensures Pow(256, 32) == 0x1_0000000000000000_0000000000000000_0000000000000000_0000000000000000
  {
    assert Pow(256, 4) == 0x1_0000_0000;
    PowAdd(256, 4, 4);
    PowAdd(256, 8, 8);
    PowAdd(256, 16, 16);
  }

  /** `common.HexToHash` of a written-out hash. */
  function HashOf(n: nat): (w: Word)
    requires n < 0x1_0000000000000000_0000000000000000_0000000000000000_0000000000000000
    ensures Eval(256, w) == n
  {
    Pow32();
    Fixed(256, n, 32)
  }
}
