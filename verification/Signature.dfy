/** Packing the signature values of a transaction, and splitting a signature with `SigRSV`. */
module Signature {
  import opened Positional
  import opened Hex
  import opened HexText
  import opened Subscriptions

  function Overwritten(dst: seq<byte>, at: nat, src: seq<byte>): (r: seq<byte>)
    requires at + |src| <= |dst|
    ensures |r| == |dst|
  {
    dst[..at] + src + dst[at + |src|..]
  }

  /** Go's `copy` into dst from position `at`. */
  method Copy(dst: array<byte>, at: nat, src: seq<byte>)
    requires at + |src| <= dst.Length
    modifies dst
    ensures dst[..] == Overwritten(old(dst[..]), at, src)
  {
    assert dst[..] == Overwritten(dst[..], at, src[..0]);
    for i := 0 to |src|
      invariant dst[..] == Overwritten(old(dst[..]), at, src[..i])
    {
      hide Overwritten;
      OverwriteNext(old(dst[..]), at, src, i);
      dst[at + i] := src[i];
    }
    assert src[..|src|] == src;
  }

  lemma OverwriteNext(dst: seq<byte>, at: nat, src: seq<byte>, i: nat)
    requires at + |src| <= |dst| && i < |src|
    ensures Overwritten(dst, at, src[..i + 1]) == Overwritten(dst, at, src[..i])[at + i := src[i]]
  {
  }

  /** The 65-byte signature: 32 big-endian bytes for r, 32 for s, one for v. */
  function Packed(r: nat, s: nat, v: byte): seq<byte>
    requires r < Pow(256, 32) && s < Pow(256, 32)
  {
    Fixed(256, r, 32) + Fixed(256, s, 32) + [v]
  }

  /** What the three writes leave: S ends at byte 64, and from 33 bytes on it covers the end of R. */
  function Placed(R: seq<byte>, S: seq<byte>, v: byte): (sig: seq<byte>)
    requires |R| <= 32 && |S| <= 64
    ensures |sig| == 65
  {
    var tail := LeftPad(S, 32);
    LeftPad(R, 32)[..64 - |tail|] + tail + [v]
  }

  /** The bytes written for two numbers; None where a slice bound is negative and the code panics. */
  function Written(r: nat, s: nat, v: byte): Option<seq<byte>> {
    DigitsLength(256, r, 32);
    DigitsLength(256, s, 64);
    if r < Pow(256, 32) && s < Pow(256, 64) then Some(Placed(Digits(256, r), Digits(256, s), v)) else None
  }

  /** Writes R and then S so that they end at bytes 32 and 64. */
  method Pack(r: nat, s: nat, v: byte) returns (sig: Option<array<byte>>)
    ensures sig.Some? <==> r < Pow(256, 32) && s < Pow(256, 64)
    ensures sig.Some? ==> fresh(sig.value) && Written(r, s, v) == Some(sig.value[..])
    ensures sig.Some? && s < Pow(256, 32) ==> sig.value[..] == Packed(r, s, v)
  {
    var R: seq<byte> := Digits(256, r);
    var S: seq<byte> := Digits(256, s);
    DigitsLength(256, r, 32);
    DigitsLength(256, s, 64);
    if |R| > 32 || |S| > 64 {
      return None;
    }
    var buffer := new byte[65](_ => 0);
    assert buffer[..] == Zeros(65);
    hide *;
    Copy(buffer, 32 - |R|, R);
    Copy(buffer, 64 - |S|, S);
    buffer[64] := v;
    Writes(R, S, v);
    WrittenPlaced(r, s, v);
    if s < Pow(256, 32) {
      WrittenIs(r, s, v);
    }
    return Some(buffer);
  }

  lemma Writes(R: seq<byte>, S: seq<byte>, v: byte)
    requires |R| <= 32 && |S| <= 64
    ensures Overwritten(Overwritten(Zeros(65), 32 - |R|, R), 64 - |S|, S)[64 := v] == Placed(R, S, v)
  {
    var first := Overwritten(Zeros(65), 32 - |R|, R);
    assert first == LeftPad(R, 32) + Zeros(33);
    var tail := LeftPad(S, 32);
    assert Overwritten(first, 64 - |S|, S) == LeftPad(R, 32)[..64 - |tail|] + tail + Zeros(1);
  }

  lemma WrittenPlaced(r: nat, s: nat, v: byte)
    requires r < Pow(256, 32) && s < Pow(256, 64) && |Digits(256, r)| <= 32 && |Digits(256, s)| <= 64
    ensures Written(r, s, v) == Some(Placed(Digits(256, r), Digits(256, s), v))
  {
  }

  lemma PlacedShort(R: seq<byte>, S: seq<byte>, v: byte)
    requires |R| <= 32 && |S| <= 32
    ensures Placed(R, S, v) == LeftPad(R, 32) + LeftPad(S, 32) + [v]
  {
    assert LeftPad(R, 32)[..32] == LeftPad(R, 32);
  }

  lemma WrittenIs(r: nat, s: nat, v: byte)
    requires r < Pow(256, 32) && s < Pow(256, 32)
    ensures Written(r, s, v) == Some(Packed(r, s, v))
  {
    hide Pow, LeftPad, Placed;
    HalfIsLess(s);
    DigitsLength(256, r, 32);
    DigitsLength(256, s, 32);
    PlacedShort(Digits(256, r), Digits(256, s), v);
  }

  lemma HalfIsLess(s: nat)
    requires s < Pow(256, 32)
    ensures s < Pow(256, 64)
  {
    PowAdd(256, 32, 32);
    PowPositive(256, 32);
    MulMonotone(1, Pow(256, 32), Pow(256, 32));
  }

  /** The buffer is written without a panic and holds both numbers, exactly when both are below 2^256. */
  lemma WrittenHolds(r: nat, s: nat, v: byte)
    ensures (match Written(r, s, v)
             case None => false
             case Some(sig) => Eval(256, sig[..32]) == r && Eval(256, sig[32..64]) == s)
       <==> r < Pow(256, 32) && s < Pow(256, 32)
  {
    hide Eval, Digits, Pow, Placed;
    if r < Pow(256, 32) && s < Pow(256, 32) {
      HalfIsLess(s);
      WrittenIs(r, s, v);
      PackedParts(r, s, v);
    } else if Written(r, s, v).Some? {
      EvalBound(256, Written(r, s, v).value[32..64]);
    }
  }

  /** S needs more than 32 bytes: it replaces the end of R, which survives only where the bytes agree. */
  lemma Clobbered(R: seq<byte>, S: seq<byte>, v: byte)
    requires |R| <= 32 < |S| <= 64
    ensures Placed(R, S, v) == LeftPad(R, 32)[..64 - |S|] + S + [v]
    ensures Placed(R, S, v)[..32] == LeftPad(R, 32) <==> LeftPad(R, 32)[64 - |S|..] == S[..|S| - 32]
  {
    var front := LeftPad(R, 32);
    assert Placed(R, S, v)[..32] == front[..64 - |S|] + S[..|S| - 32];
    assert front == front[..64 - |S|] + front[64 - |S|..];
    assert (front[..64 - |S|] + S[..|S| - 32])[64 - |S|..] == S[..|S| - 32];
  }

  datatype SigArg = Raw(bytes: seq<byte>) | Text(text: string) | Neither

  /** The bytes of the argument; a text that does not decode keeps what was decoded, or nothing without 0x. */
  function SigBytes(isig: SigArg): seq<byte> {
    match isig
    case Raw(bs) => bs
    case Text(t) => if Has0xPrefix(t) then Decode(t[2..]) else []
    case Neither => []
  }

  /** `strconv.Atoi` on two characters, zero when they are not both decimal digits. */
  function Atoi(s: string): nat
    requires |s| == 2
  {
    if '0' <= s[0] <= '9' && '0' <= s[1] <= '9' then (s[0] - '0') as nat * 10 + (s[1] - '0') as nat else 0
  }

  datatype RSV = RSV(r: Word, s: Word, v: byte)

  /** What `copy(R[:], bytes)` leaves in a zeroed 32-byte array. */
  function IntoWord(bs: seq<byte>): Word {
    if |bs| >= 32 then bs[..32] else bs + Zeros(32 - |bs|)
  }

  /** `SigRSV`; None where slicing the hexadecimal text panics. */
  function Split(isig: SigArg): Option<RSV> {
    var text := Encode(SigBytes(isig));
    if |text| < 130 then None
    else Some(RSV(IntoWord(FromHex(text[0..64])), IntoWord(FromHex(text[64..128])), (Atoi(text[128..130]) + 27) % 256))
  }

  /** A zeroed array, and `copy` of the bytes into it. */
  method CopyIntoWord(bs: seq<byte>) returns (a: array<byte>)
    ensures fresh(a) && a[..] == IntoWord(bs)
  {
    a := new byte[32](_ => 0);
    assert a[..] == Zeros(32);
    Copy(a, 0, if |bs| > 32 then bs[..32] else bs);
    assert a[..] == IntoWord(bs);
  }

  /** Panics below 65 bytes; otherwise the two 32-byte parts, and 27 plus the last byte as it is misread. */
  method SigRSV(isig: SigArg) returns (panics: bool, R: array<byte>, S: array<byte>, V: byte)
    ensures panics <==> |SigBytes(isig)| < 65
    ensures fresh(R) && fresh(S)
    ensures !panics ==>
      var sig := SigBytes(isig);
      var high, low := sig[64] / 16, sig[64] % 16;
      && R[..] == sig[..32] && S[..] == sig[32..64]
      && V == 27 + if high < 10 && low < 10 then high * 10 + low else 0
  {
    hide SigBytes, FromHex, IntoWord, Atoi;
    var sig := SigBytes(isig);
    var sigstr := Encode(sig);
    assert SigBytes(Raw(sig)) == sig by { RawBytes(sig); }
    panics, V := |sigstr| < 130, 0;
    R := CopyIntoWord(if panics then [] else FromHex(sigstr[0..64]));
    S := CopyIntoWord(if panics then [] else FromHex(sigstr[64..128]));
    if !panics {
      V := (Atoi(sigstr[128..130]) + 27) % 256;
    }
    SplitParts(sig);
  }

  lemma RawBytes(sig: seq<byte>)
    ensures SigBytes(Raw(sig)) == sig
  {
  }

  lemma DecimalByte(b: byte)
    ensures Atoi([HexDigit(b / 16), HexDigit(b % 16)]) == Misread(b)
  {
  }

  lemma TextParts(sig: seq<byte>)
    requires |sig| >= 65
    ensures Encode(sig)[0..64] == Encode(sig[..32]) && Encode(sig)[64..128] == Encode(sig[32..64])
    ensures Encode(sig)[128..130] == Encode([sig[64]])
  {
    EncodeSlice(sig, 0, 32);
    EncodeSlice(sig, 32, 64);
    EncodeSlice(sig, 64, 65);
    assert sig[0..32] == sig[..32] && sig[64..65] == [sig[64]];
  }

  /** The number that byte 64 is read as: its hexadecimal text taken as decimal. */
  function Misread(b: byte): nat {
    if b / 16 < 10 && b % 16 < 10 then b / 16 * 10 + b % 16 else 0
  }

  /** Splitting takes the first two 32-byte parts and reads the hexadecimal text of byte 64 as a decimal number. */
  lemma SplitParts(sig: seq<byte>)
    ensures Split(Raw(sig)).Some? <==> |sig| >= 65
    ensures |sig| >= 65 ==> Split(Raw(sig)) == Some(RSV(sig[..32], sig[32..64], Misread(sig[64]) + 27))
  {
    hide FromHex, Encode, Atoi, Misread, IntoWord;
    if |sig| >= 65 {
      TextParts(sig);
      WordRead(sig[..32]);
      WordRead(sig[32..64]);
      ByteRead(sig[64]);
    }
  }

  lemma WordRead(w: Word)
    ensures IntoWord(FromHex(Encode(w))) == w
  {
    FromHexEncode(w);
    assert w[..32] == w;
  }

  lemma ByteRead(b: byte)
    ensures Atoi(Encode([b])) == Misread(b) && Misread(b) < 100
  {
    assert Encode([b]) == [HexDigit(b / 16), HexDigit(b % 16)];
    DecimalByte(b);
  }

  /** For every text: nothing without 0x, and otherwise the bytes of the whole pairs of digits at its start. */
  lemma TextArgument(t: string)
    ensures !Has0xPrefix(t) ==> SigBytes(Text(t)) == []
    ensures Has0xPrefix(t) ==>
      && 2 * |SigBytes(Text(t))| == PairsLength(t[2..])
      && Eval(256, SigBytes(Text(t))) == HexValue(t[2..][..PairsLength(t[2..])])
  {
    hide Eval, HexValue, PairsLength, Decode;
    if Has0xPrefix(t) {
      DecodePairs(t[2..]);
      DecodeValue(t[2..][..PairsLength(t[2..])]);
    }
  }

  lemma TextBytes(sig: seq<byte>)
    ensures SigBytes(Text(Encode0x(sig))) == sig
  {
    DecodeEncode(sig, "");
    assert Encode(sig) + "" == Encode(sig);
    assert Encode0x(sig)[2..] == Encode(sig);
    assert sig + [] == sig;
  }

  /** A signature and its 0x text split alike. */
  lemma TextSplitsAlike(sig: seq<byte>)
    ensures Split(Text(Encode0x(sig))) == Split(Raw(sig))
  {
    TextBytes(sig);
    assert SigBytes(Raw(sig)) == sig;
  }

  /** The parts rebuild a 65-byte signature exactly when its last byte is at most 9; recovery ids are 0 and 1. */
  lemma RebuildsIff(sig: seq<byte>)
    requires |sig| == 65
    ensures Split(Raw(sig)).Some? && Split(Raw(sig)).value.v >= 27
    ensures var p := Split(Raw(sig)).value;
            p.r + p.s + [p.v - 27] == sig <==> sig[64] <= 9
  {
    SplitParts(sig);
    var p := Split(Raw(sig)).value;
    var b := sig[64];
    assert b == b / 16 * 16 + b % 16;
    assert sig == sig[..32] + sig[32..64] + [b];
    assert (p.r + p.s + [p.v - 27])[64] == p.v - 27;
  }

  /** Splitting a signature from bytes or from text gives the numbers packed into it. */
  lemma SplitValues(sig: seq<byte>)
    requires |sig| == 65 && sig[64] <= 9
    ensures Split(Raw(sig)) == Some(RSV(sig[..32], sig[32..64], sig[64] + 27))
    ensures Split(Text(Encode0x(sig))) == Split(Raw(sig))
  {
    hide Split, Encode0x;
    SplitParts(sig);
    TextSplitsAlike(sig);
  }

  lemma PackedParts(r: nat, s: nat, v: byte)
    requires r < Pow(256, 32) && s < Pow(256, 32)
    ensures var sig := Packed(r, s, v);
            && |sig| == 65 && sig[64] == v
            && Eval(256, sig[..32]) == r && Eval(256, sig[32..64]) == s
  {
    var sig := Packed(r, s, v);
    assert sig[..32] == Fixed(256, r, 32) && sig[32..64] == Fixed(256, s, 32);
  }

  /** Splitting what was packed gives the values back, from bytes or from text. */
  lemma PackThenSplit(r: nat, s: nat, v: byte, sig: seq<byte>)
    requires r < Pow(256, 32) && s < Pow(256, 32) && v <= 9 && sig == Packed(r, s, v)
    ensures Split(Raw(sig)).Some? && Split(Text(Encode0x(sig))) == Split(Raw(sig))
    ensures var p := Split(Raw(sig)).value;
            Eval(256, p.r) == r && Eval(256, p.s) == s && p.v == v + 27
  {
    PackedParts(r, s, v);
    SplitValues(sig);
  }
}
