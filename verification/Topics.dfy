/** `abi.MakeTopics`: the values of filter rules, of any Go type, as topics. */
module FilterTopics {
  import opened Positional
  import opened Hex

  /** The sizes of the signed integer types, in bytes. */
  type IntSize = s: nat | s == 1 || s == 2 || s == 4 || s == 8 witness 1

  /** A rule value by its Go type. */
  datatype RuleValue =
    | HashRule(word: Word)
    | AddressRule(address: Address)
    | BigRule(big: int)
    | BoolRule(b: bool)
    | IntRule(n: int, size: IntSize)
    | UintRule(u: nat)
    | BytesRule(bytes: seq<byte>)  // a string or a byte slice, which is hashed
    | ArrayRule(elements: seq<byte>)
    | OtherRule

  /** An unsupported type is an error; a value that needs more than 32 bytes is a slice out of range. */
  datatype Why = Unsupported | SlicePanic

  datatype Made<+T> = Made(value: T) | Failed(why: Why)

  function RightAligned(blob: seq<byte>): Made<Word> {
    if |blob| > 32 then Failed(SlicePanic) else Made(LeftPad(blob, 32))
  }

  /** The topic of a value. Of a big integer the sign is lost, as `Bytes` drops it. */
  function TopicFor(v: RuleValue, keccak: seq<byte> -> Word): Made<Word>
  {
    match v
    case HashRule(w) => Made(w)
    case AddressRule(a) => Made(Zeros(12) + a)
    case BigRule(n) => RightAligned(Digits(256, if n < 0 then -n else n))
    case BoolRule(b) => Made(Zeros(31) + [if b then 1 else 0])
    case IntRule(n, size) => Made(IntTopic(n, size))
    case UintRule(n) => RightAligned(Digits(256, n))
    case BytesRule(bs) => Made(keccak(bs))
    case ArrayRule(bs) => if |bs| > 32 then Failed(SlicePanic) else Made(bs + Zeros(32 - |bs|))
    case OtherRule => Failed(Unsupported)
  }

  /** The topics of one rule's first values. */
  predicate RuleMade(rule: seq<RuleValue>, ws: seq<Word>, keccak: seq<byte> -> Word)
  {
    |ws| <= |rule| && forall j :: 0 <= j < |ws| ==> TopicFor(rule[j], keccak) == Made(ws[j])
  }

  /** The topics of the query's first rules. */
  predicate QueryMade(query: seq<seq<RuleValue>>, topics: seq<seq<Word>>, keccak: seq<byte> -> Word)
  {
    && |topics| <= |query|
    && forall i :: 0 <= i < |topics| ==> |topics[i]| == |query[i]| && RuleMade(query[i], topics[i], keccak)
  }

  /** Every value gives its topic, list by list; the first value that gives none decides the failure. */
  method MakeTopics(query: seq<seq<RuleValue>>, keccak: seq<byte> -> Word) returns (r: Made<seq<seq<Word>>>)
    ensures r.Made? ==> |r.value| == |query| && QueryMade(query, r.value, keccak)
    ensures r.Failed? ==> exists done: seq<seq<Word>>, ws: seq<Word> ::
      && |done| < |query| && QueryMade(query, done, keccak)
      && |ws| < |query[|done|]| && RuleMade(query[|done|], ws, keccak)
      && TopicFor(query[|done|][|ws|], keccak) == Failed(r.why)
  {
    var topics: seq<seq<Word>> := [];
    for i := 0 to |query|
      invariant |topics| == i && QueryMade(query, topics, keccak)
    {
      var list: seq<Word> := [];
      for j := 0 to |query[i]|
        invariant |list| == j && RuleMade(query[i], list, keccak)
      {
        var topic := TopicFor(query[i][j], keccak);
        if topic.Failed? {
          return Failed(topic.why);
        }
        list := list + [topic.value];
      }
      topics := topics + [list];
    }
    return Made(topics);
  }

  /** `genIntType`: sign bytes, and over them the low bytes of the value, from the last byte on. */
  method GenIntType(n: int, size: nat) returns (topic: array<byte>)
    requires size <= 32
    ensures fresh(topic) && topic[..] == IntTopic(n, size)
  {
    var fill: byte := if n < 0 then 255 else 0;
    topic := new byte[32](_ => fill);
    for i := 0 to size
      invariant topic[..] == Repeat(fill, 32 - i) + LowBytes(n, i)
    {
      topic[31 - i] := ByteAt(n, i);
    }
  }

  function Repeat(b: byte, k: nat): (bs: seq<byte>)
    ensures |bs| == k
  {
    seq(k, _ => b)
  }

  /** The byte of weight 256^i, of a negative number in two's complement. */
  function ByteAt(n: int, i: nat): byte {
    PowPositive(256, i);
    n / Pow(256, i) % 256
  }

  function LowBytes(n: int, k: nat): (bs: seq<byte>)
    ensures |bs| == k
  {
    if k == 0 then [] else [ByteAt(n, k - 1)] + LowBytes(n, k - 1)
  }

  function IntTopic(n: int, size: nat): Word
    requires size <= 32
  {
    Repeat(if n < 0 then 255 else 0, 32 - size) + LowBytes(n, size)
  }

  /** The topic of a signed integer is its two's complement in 32 bytes. */
  lemma IntTopicValue(n: int, size: nat)
    requires size <= 32
    requires if n < 0 then n + Pow(256, size) >= 0 else n < Pow(256, size)
    ensures Eval(256, IntTopic(n, size)) == if n < 0 then Pow(256, 32) + n else n
  {
    hide Eval, Pow, LowBytes;
    var fill: byte := if n < 0 then 255 else 0;
    var p := Pow(256, size);
    PowPositive(256, size);
    EvalConcat(256, Repeat(fill, 32 - size), LowBytes(n, size));
    EvalLowBytes(n, size);
    EvalRepeat(fill, 32 - size);
    PowAdd(256, 32 - size, size);
    if n < 0 {
      Distribute(Pow(256, 32 - size), -1, p);
      Remainder(n + p, p, -1, n);
    } else {
      Remainder(n, p, 0, n);
    }
  }

  /** The number below p that differs from n by a multiple of p is the remainder. */
  lemma Remainder(r: int, p: nat, q: int, n: int)
    requires p > 0 && 0 <= r < p && n == q * p + r
    ensures n % p == r
  {
    var d := n / p;
    assert n == d * p + n % p;
    if d < q {
      MulLess(d + 1, q, p);
    }
    if q < d {
      MulLess(q + 1, d, p);
    }
  }

  lemma MulLess(x: int, y: int, p: nat)
    requires x <= y
    ensures x * p <= y * p
  {
    Distribute(x, y - x, p);
  }

  lemma {:induction false} EvalRepeat(b: byte, k: nat)
    requires b == 0 || b == 255
    ensures Eval(256, Repeat(b, k)) == if b == 0 then 0 else Pow(256, k) - 1
  {
    if k > 0 {
      EvalRepeat(b, k - 1);
      assert Repeat(b, k) == Repeat(b, k - 1) + [b];
      EvalSnoc(256, Repeat(b, k - 1), b);
    }
  }

  /** The low bytes are the number modulo 256^k. */
  lemma {:induction false} EvalLowBytes(n: int, k: nat)
    ensures Pow(256, k) > 0 && Eval(256, LowBytes(n, k)) == n % Pow(256, k)
  {
    PowPositive(256, k);
    if k > 0 {
      PowPositive(256, k - 1);
      EvalLowBytes(n, k - 1);
      EvalConcat(256, [ByteAt(n, k - 1)], LowBytes(n, k - 1));
      SingleByte(ByteAt(n, k - 1));
      SplitRemainder(n, Pow(256, k - 1));
    }
  }

  lemma SingleByte(b: byte)
    ensures Eval(256, [b]) == b
  {
  }

  lemma SplitRemainder(n: int, p: nat)
    requires p > 0
    ensures (n / p % 256) * p + n % p == n % (256 * p)
  {
    var d, r := n / p, n % p;
    var q, b := d / 256, d % 256;
    assert n == d * p + r && d == q * 256 + b;
    Distribute(q * 256, b, p);
    MulAssoc(q, 256, p);
    MulLess(b, 255, p);
    Remainder(b * p + r, 256 * p, q, n);
  }

  /** What the topic of a value holds, and when there is none. */
  lemma TopicHolds(v: RuleValue, keccak: seq<byte> -> Word)
    ensures match v
            case HashRule(w) => TopicFor(v, keccak) == Made(w)
            case AddressRule(a) => TopicFor(v, keccak) == Made(Zeros(12) + a)
            case BigRule(n) => HoldsNumber(TopicFor(v, keccak), if n < 0 then -n else n)
            case BoolRule(b) => HoldsNumber(TopicFor(v, keccak), if b then 1 else 0)
            case IntRule(n, size) => TopicFor(v, keccak) == Made(IntTopic(n, size))
            case UintRule(n) => HoldsNumber(TopicFor(v, keccak), n)
            case BytesRule(bs) => TopicFor(v, keccak) == Made(keccak(bs))
            case ArrayRule(bs) =>
              if |bs| > 32 then TopicFor(v, keccak) == Failed(SlicePanic)
              else && TopicFor(v, keccak).Made?
                   && TopicFor(v, keccak).value[..|bs|] == bs
                   && forall i :: |bs| <= i < 32 ==> TopicFor(v, keccak).value[i] == 0
            case OtherRule => TopicFor(v, keccak) == Failed(Unsupported)
  {
    hide Eval, Digits, Pow;
    match v
    case BigRule(n) => AlignedNumber(if n < 0 then -n else n);
    case UintRule(n) => AlignedNumber(n);
    case BoolRule(b) => LastByte(if b then 1 else 0);
    case _ =>
  }

  /** The word of a number below 2^256; no word for any other. */
  ghost predicate HoldsNumber(m: Made<Word>, n: nat) {
    if n < Pow(256, 32) then m.Made? && Eval(256, m.value) == n else m == Failed(SlicePanic)
  }

  lemma AlignedNumber(n: nat)
    ensures HoldsNumber(RightAligned(Digits(256, n)), n)
  {
    DigitsLength(256, n, 32);
    EvalDigits(256, n);
    EvalLeftPad(256, Digits(256, n), 32);
  }

  lemma LastByte(b: byte)
    requires b < 2
    ensures HoldsNumber(Made(Zeros(31) + [b]), b)
  {
    EvalZeros(256, 31);
    EvalSnoc(256, Zeros(31), b);
    PowPositive(256, 31);
    assert Pow(256, 32) == 256 * Pow(256, 31);
  }
}
