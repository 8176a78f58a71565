/** Call data of the ERC-20 `transfer`: assembled by hand, and packed from the ABI. */
module CallData {
  import opened Positional
  import opened Hex
  import opened Subscriptions

  type Selector = s: seq<byte> | |s| == 4 witness seq(4, _ => 0)

  /** `big.Int.Bytes`: big-endian bytes of the absolute value. */
  function AbsBytes(n: int): seq<byte> {
    Digits(256, if n < 0 then -n else n)
  }

  /** The method id, the padded address and the padded amount, appended one after the other. */
  method BuildTransferData(methodID: Selector, toAddress: string, amount: int) returns (data: seq<byte>)
    ensures data == HandBuilt(methodID, HexToAddress(toAddress), amount)
    ensures 0 <= amount < Pow(256, 32) ==>
      |data| == 68 && DecodeTransfer(methodID, data) == Some((HexToAddress(toAddress), amount))
    ensures data == TransferTokensTxData(methodID, toAddress, amount) <==>
      0 <= amount < Pow(256, 32) || 2 * amount + Pow(256, 32) == 0
  {
    hide *;
    var paddedAddress := PadBytes(HexToAddress(toAddress), 32);
    var paddedAmount := PadBytes(AbsBytes(amount), 32);
    data := [];
    data := data + methodID;
    data := data + paddedAddress;
    data := data + paddedAmount;
    assert data == HandBuilt(methodID, HexToAddress(toAddress), amount) by {
      Appended(methodID, HexToAddress(toAddress), amount);
    }
    if 0 <= amount < Pow(256, 32) {
      TransferRoundTrip(methodID, HexToAddress(toAddress), amount);
    }
    SameDataIff(methodID, toAddress, amount);
  }

  function HandBuilt(methodID: Selector, to: Address, amount: int): seq<byte> {
    methodID + PadBytes(to, 32) + PadBytes(AbsBytes(amount), 32)
  }

  lemma Appended(methodID: Selector, to: Address, amount: int)
    ensures [] + methodID + PadBytes(to, 32) + PadBytes(AbsBytes(amount), 32) == HandBuilt(methodID, to, amount)
  {
    assert [] + methodID == methodID;
  }

  /** `TransferTokensTxData`: the static-argument encoding; a number is first reduced to 256 bits. */
  function TransferTokensTxData(methodID: Selector, toAddress: string, amount: int): seq<byte> {
    AbiPacked(methodID, HexToAddress(toAddress), amount)
  }

  function AbiPacked(methodID: Selector, to: Address, amount: int): seq<byte> {
    PowPositive(256, 32);
    methodID + PadBytes(to, 32) + Fixed(256, amount % Pow(256, 32), 32)
  }

  /** Reads call data back: the receiver and the amount, when selector, length and padding are right. */
  function DecodeTransfer(methodID: Selector, data: seq<byte>): Option<(Address, nat)> {
    if |data| == 68 && data[..4] == methodID && data[4..16] == Zeros(12)
    then Some((data[16..36], Eval(256, data[36..]))) else None
  }

  /** Both forms decode to what was encoded, for amounts below 2^256. */
  lemma TransferRoundTrip(methodID: Selector, to: Address, amount: nat)
    requires amount < Pow(256, 32)
    ensures |HandBuilt(methodID, to, amount)| == 68
    ensures DecodeTransfer(methodID, HandBuilt(methodID, to, amount)) == Some((to, amount))
    ensures HandBuilt(methodID, to, amount) == AbiPacked(methodID, to, amount)
  {
    hide Pow, Eval, Digits;
    DigitsLength(256, amount, 32);
    EvalDigits(256, amount);
    EvalLeftPad(256, Digits(256, amount), 32);
    Reduce(amount, Pow(256, 32));
    var data := HandBuilt(methodID, to, amount);
    assert PadBytes(to, 32) == Zeros(12) + to;
    assert data[..4] == methodID && data[4..16] == Zeros(12) && data[16..36] == to;
    assert data[36..] == PadBytes(AbsBytes(amount), 32);
  }

  lemma Reduce(n: int, m: nat)
    requires 0 <= n < m
    ensures n % m == n
  {
  }

  /** Encoding what was decoded gives the data back: decoding is injective on what it accepts. */
  lemma TransferReencodes(methodID: Selector, data: seq<byte>)
    requires DecodeTransfer(methodID, data).Some?
    ensures var (to, amount) := DecodeTransfer(methodID, data).value;
            amount < Pow(256, 32) && HandBuilt(methodID, to, amount) == data
  {
    var word := data[36..];
    FixedEval(256, word);
    assert data == data[..4] + (data[4..16] + data[16..36]) + word;
    assert PadBytes(data[16..36], 32) == data[4..16] + data[16..36];
  }

  /** Where the hand-built data has its parts, for any amount of at most 32 bytes. */
  lemma TransferLayout(methodID: Selector, to: Address, amount: nat)
    requires amount < Pow(256, 32)
    ensures var data := HandBuilt(methodID, to, amount);
            && |data| == 68 && data[..4] == methodID && data[4..16] == Zeros(12) && data[16..36] == to
            && Eval(256, data[36..]) == amount
  {
    hide Pow, Eval, Digits;
    TransferRoundTrip(methodID, to, amount);
  }

  lemma TransferInjective(methodID: Selector, to1: Address, amount1: nat, to2: Address, amount2: nat)
    requires amount1 < Pow(256, 32) && amount2 < Pow(256, 32)
    ensures HandBuilt(methodID, to1, amount1) == HandBuilt(methodID, to2, amount2) <==> to1 == to2 && amount1 == amount2
  {
    TransferRoundTrip(methodID, to1, amount1);
    TransferRoundTrip(methodID, to2, amount2);
  }

  /**
    On all integers: the two constructions agree exactly for 0 <= amount < 2^256, and for
    the one negative number that is its own two's complement.
  */
  lemma SameDataIff(methodID: Selector, toAddress: string, amount: int)
    ensures HandBuilt(methodID, HexToAddress(toAddress), amount) == TransferTokensTxData(methodID, toAddress, amount)
       <==> 0 <= amount < Pow(256, 32) || 2 * amount + Pow(256, 32) == 0
  {
    hide PadBytes, AbsBytes, Fixed, HexToAddress;
    PowPositive(256, 32);
    SameAmountIff(amount);
    SamePrefix(methodID + PadBytes(HexToAddress(toAddress), 32), PadBytes(AbsBytes(amount), 32),
               Fixed(256, amount % Pow(256, 32), 32));
  }

  lemma SamePrefix(a: seq<byte>, x: seq<byte>, y: seq<byte>)
    ensures a + x == a + y <==> x == y
  {
    assert (a + x)[|a|..] == x && (a + y)[|a|..] == y;
  }

  /** The padded bytes of the absolute value are those of the two's complement. */
  lemma SameAmountIff(amount: int)
    ensures Pow(256, 32) > 0
    ensures PadBytes(AbsBytes(amount), 32) == Fixed(256, amount % Pow(256, 32), 32) <==>
      0 <= amount < Pow(256, 32) || 2 * amount + Pow(256, 32) == 0
  {
    hide Pow, Fixed;
    PowPositive(256, 32);
    var limit := Pow(256, 32);
    var m: nat := if amount < 0 then -amount else amount;
    var byHand, packed := PadBytes(AbsBytes(amount), 32), Fixed(256, amount % limit, 32);
    DigitsLength(256, m, 32);
    EvalDigits(256, m);
    EvalLeftPad(256, Digits(256, m), 32);
    if m < limit {
      TwosComplement(amount, limit);
      if m == amount % limit {
        EvalInjective(256, byHand, packed);
      }
    }
  }

  lemma TwosComplement(n: int, m: nat)
    requires 0 < n + m && n < m
    ensures n % m == if n < 0 then n + m else n
  {
    if n < 0 {
      Reduce(n + m, m);
      assert (n + m) % m == n % m;
    }
  }
}
