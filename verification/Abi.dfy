/**
  Event logs as the contract ABI lays them out: the event's hash and its indexed
  arguments are topics, the other arguments are 32-byte words of data. Encoding
  follows the Contract ABI Specification, section "Events"; decoding follows
  go-ethereum's `UnpackIntoInterface`, `ParseTopics` and `BoundContract.UnpackLog`.
*/
module Abi {
  import opened Positional
  import opened Hex
  import opened Subscriptions

  datatype Log = Log(topics: seq<Word>, data: seq<byte>)

  datatype Type = AddressTy | Uint256Ty | Uint8Ty | Bytes32Ty

  datatype Value = AddressV(address: Address) | UintV(n: nat) | Bytes32V(word: Word)

  /**
    An event's hash, its argument types in declaration order, and the positions of the
    arguments that are indexed and of those that are not, each in declaration order.
  */
  datatype EventAbi = EventAbi(id: Word, types: seq<Type>, topicArgs: seq<nat>, dataArgs: seq<nat>) {
    ghost predicate Valid() {
      && Increasing(topicArgs, |types|) && Increasing(dataArgs, |types|)
      && forall k: nat :: k < |types| ==> (k in topicArgs) != (k in dataArgs)
    }
  }

  ghost predicate Increasing(ps: seq<nat>, n: nat) {
    && |ps| <= n
    && (forall i :: 0 <= i < |ps| ==> ps[i] < n)
    && (forall i, j :: 0 <= i < j < |ps| ==> ps[i] < ps[j])
  }

  datatype AbiError = NoTopics | SignatureMismatch | EmptyData | ShortData | NothingToCopy | TopicCountMismatch

  predicate HasType(v: Value, ty: Type) {
    match ty
    case AddressTy => v.AddressV?
    case Uint256Ty => v.UintV? && v.n < Pow(256, 32)
    case Uint8Ty => v.UintV? && v.n < 256
    case Bytes32Ty => v.Bytes32V?
  }

  ghost predicate WellTyped(tys: seq<Type>, vs: seq<Value>) {
    |vs| == |tys| && forall i :: 0 <= i < |tys| ==> HasType(vs[i], tys[i])
  }

  function EncodeWord(v: Value, ty: Type): Word
    requires HasType(v, ty)
  {
    match v
    case AddressV(a) => PadBytes(a, 32)
    case Bytes32V(w) => w
    case UintV(n) => if ty.Uint8Ty? then PadBytes([n], 32) else Fixed(256, n, 32)
  }

  /** `toGoType` for the static types: an address is the last 20 bytes, a uint8 the last byte. */
  function DecodeWord(w: Word, ty: Type): Value {
    match ty
    case AddressTy => AddressV(w[12..])
    case Uint256Ty => UintV(Eval(256, w))
    case Uint8Ty => UintV(w[31])
    case Bytes32Ty => Bytes32V(w)
  }

  /** The value of a field nothing has been decoded into; a nil `*big.Int` counts as zero. */
  function Zero(ty: Type): Value {
    match ty
    case AddressTy => AddressV(Zeros(20))
    case Uint256Ty => UintV(0)
    case Uint8Ty => UintV(0)
    case Bytes32Ty => Bytes32V(Zeros(32))
  }

  function Pick<T>(xs: seq<T>, positions: seq<nat>): seq<T>
    requires forall i :: 0 <= i < |positions| ==> positions[i] < |xs|
  {
    seq(|positions|, i requires 0 <= i < |positions| => xs[positions[i]])
  }

  function IndexOf(ps: seq<nat>, k: nat): (i: nat)
    requires k in ps
    ensures i < |ps| && ps[i] == k
  {
    if ps[0] == k then 0 else 1 + IndexOf(ps[1..], k)
  }

  function Words(tys: seq<Type>, vs: seq<Value>): seq<Word>
    requires WellTyped(tys, vs)
  {
    seq(|tys|, i requires 0 <= i < |tys| => EncodeWord(vs[i], tys[i]))
  }

  function Join(ws: seq<Word>): (r: seq<byte>)
    ensures |r| == 32 * |ws|
  {
    if |ws| == 0 then [] else Join(ws[..|ws| - 1]) + ws[|ws| - 1]
  }

  /** The log a contract emits for an event. */
  function EncodeLog(e: EventAbi, vs: seq<Value>): Log
    requires e.Valid() && WellTyped(e.types, vs)
  {
    var ws := Words(e.types, vs);
    Log([e.id] + Pick(ws, e.topicArgs), Join(Pick(ws, e.dataArgs)))
  }

  /** `UnpackValues`: the word at offset 32 * i for the i-th type; None when the data ends before the last one. */
  function UnpackValues(tys: seq<Type>, data: seq<byte>): Option<seq<Value>> {
    if |data| < 32 * |tys| then None
    else Some(seq(|tys|, i requires 0 <= i < |tys| => DecodeWord(data[32 * i..32 * i + 32], tys[i])))
  }

  datatype Unpack = Values(vs: seq<Value>) | Failed(err: AbiError)

  /** `UnpackIntoInterface`: the decoded non-indexed arguments, in order. */
  function UnpackData(e: EventAbi, data: seq<byte>): (r: Unpack)
    requires e.Valid()
    ensures r.Values? ==> |r.vs| == |e.dataArgs|
  {
    if |data| == 0 then
      if |e.types| != 0 then Failed(EmptyData) else Values([])
    else
      match UnpackValues(Pick(e.types, e.dataArgs), data)
      case None => Failed(ShortData)
      case Some(vs) => if |vs| == 0 && |e.types| != 0 then Failed(NothingToCopy) else Values(vs)
  }

  function ParseTopics(tys: seq<Type>, topics: seq<Word>): seq<Value>
    requires |topics| == |tys|
  {
    seq(|tys|, i requires 0 <= i < |tys| => DecodeWord(topics[i], tys[i]))
  }

  function Zeroes(tys: seq<Type>): seq<Value> {
    seq(|tys|, i requires 0 <= i < |tys| => Zero(tys[i]))
  }

  /** Puts decoded values into the fields of the event struct, declared in argument order. */
  function Merge<T>(e: EventAbi, topics: seq<T>, data: seq<T>): (xs: seq<T>)
    requires e.Valid() && |topics| == |e.topicArgs| && |data| == |e.dataArgs|
    ensures |xs| == |e.types|
    ensures Pick(xs, e.topicArgs) == topics && Pick(xs, e.dataArgs) == data
  {
    seq(|e.types|, k requires 0 <= k < |e.types| =>
      if k in e.topicArgs then topics[IndexOf(e.topicArgs, k)] else data[IndexOf(e.dataArgs, k)])
  }

  /** The fields taken from the data; no data at all leaves them as they were. */
  function DataFields(e: EventAbi, data: seq<byte>): (r: Unpack)
    requires e.Valid()
    ensures r.Values? ==> |r.vs| == |e.dataArgs|
  {
    if |data| > 0 then UnpackData(e, data) else Values(Zeroes(Pick(e.types, e.dataArgs)))
  }

  /** `BoundContract.UnpackLog` into a new event struct: the fields as they are afterwards, and the error. */
  function UnpackLog(e: EventAbi, log: Log): Unpacked<seq<Value>, AbiError>
    requires e.Valid()
  {
    var dataTys, topicTys := Pick(e.types, e.dataArgs), Pick(e.types, e.topicArgs);
    var blank := Merge(e, Zeroes(topicTys), Zeroes(dataTys));
    if |log.topics| == 0 then Unpacked(blank, Some(NoTopics))
    else if log.topics[0] != e.id then Unpacked(blank, Some(SignatureMismatch))
    else
      match DataFields(e, log.data)
      case Failed(err) => Unpacked(blank, Some(err))
      case Values(data) =>
        var topics := log.topics[1..];
        if |topics| != |topicTys| then
          Unpacked(Merge(e, Zeroes(topicTys), data), Some(TopicCountMismatch))
        else
          Unpacked(Merge(e, ParseTopics(topicTys, topics), data), None)
  }

  /** The constructor a value of a type has, whatever its range. */
  predicate Matches(v: Value, ty: Type) {
    match ty
    case AddressTy => v.AddressV?
    case Uint256Ty => v.UintV?
    case Uint8Ty => v.UintV?
    case Bytes32Ty => v.Bytes32V?
  }

  ghost predicate AllMatch(vs: seq<Value>, tys: seq<Type>) {
    |vs| == |tys| && forall i :: 0 <= i < |vs| ==> Matches(vs[i], tys[i])
  }

  lemma MergeMatches(e: EventAbi, topics: seq<Value>, data: seq<Value>)
    requires e.Valid()
    requires AllMatch(topics, Pick(e.types, e.topicArgs)) && AllMatch(data, Pick(e.types, e.dataArgs))
    ensures AllMatch(Merge(e, topics, data), e.types)
  {
    var m := Merge(e, topics, data);
    forall k: nat | k < |e.types| ensures Matches(m[k], e.types[k]) {
      var ps := if k in e.topicArgs then e.topicArgs else e.dataArgs;
      var i := IndexOf(ps, k);
      assert Pick(m, ps)[i] == m[k] && Pick(e.types, ps)[i] == e.types[k];
    }
  }

  lemma UnpackDataMatches(e: EventAbi, data: seq<byte>)
    requires e.Valid() && UnpackData(e, data).Values?
    ensures AllMatch(UnpackData(e, data).vs, Pick(e.types, e.dataArgs))
  {
  }

  /** The struct keeps its field types even when unpacking fails halfway. */
  lemma UnpackLogMatches(e: EventAbi, log: Log)
    requires e.Valid()
    ensures AllMatch(UnpackLog(e, log).fields, e.types)
  {
    var dataTys, topicTys := Pick(e.types, e.dataArgs), Pick(e.types, e.topicArgs);
    MergeMatches(e, Zeroes(topicTys), Zeroes(dataTys));
    if |log.topics| > 0 {
      var unpacked := if |log.data| > 0 then UnpackData(e, log.data) else Values(Zeroes(dataTys));
      if unpacked.Values? {
        if |log.data| > 0 {
          UnpackDataMatches(e, log.data);
        }
        MergeMatches(e, Zeroes(topicTys), unpacked.vs);
        if |log.topics| == 1 + |topicTys| {
          MergeMatches(e, ParseTopics(topicTys, log.topics[1..]), unpacked.vs);
        }
      }
    }
  }

  lemma WordRoundTrip(v: Value, ty: Type)
    requires HasType(v, ty)
    ensures DecodeWord(EncodeWord(v, ty), ty) == v
  {
  }

  /** Picking commutes with encoding: the i-th picked word encodes the i-th picked value at the i-th picked type. */
  lemma PickWords(tys: seq<Type>, vs: seq<Value>, ps: seq<nat>)
    requires WellTyped(tys, vs) && Increasing(ps, |tys|)
    ensures WellTyped(Pick(tys, ps), Pick(vs, ps))
    ensures Pick(Words(tys, vs), ps) == Words(Pick(tys, ps), Pick(vs, ps))
  {
  }

  lemma {:induction false} JoinAt(ws: seq<Word>, i: nat)
    requires i < |ws|
    ensures Join(ws)[32 * i..32 * i + 32] == ws[i]
  {
    if i < |ws| - 1 {
      JoinAt(ws[..|ws| - 1], i);
    }
  }

  /** A record is determined by its indexed and its other fields. */
  lemma PartsDetermine<T>(e: EventAbi, xs: seq<T>, ys: seq<T>)
    requires e.Valid() && |xs| == |ys| == |e.types|
    requires Pick(xs, e.topicArgs) == Pick(ys, e.topicArgs) && Pick(xs, e.dataArgs) == Pick(ys, e.dataArgs)
    ensures xs == ys
  {
    forall k: nat | k < |xs| ensures xs[k] == ys[k] {
      var ps := if k in e.topicArgs then e.topicArgs else e.dataArgs;
      var i := IndexOf(ps, k);
      assert Pick(xs, ps)[i] == xs[k] && Pick(ys, ps)[i] == ys[k];
    }
  }

  lemma DataRoundTrip(tys: seq<Type>, vs: seq<Value>)
    requires WellTyped(tys, vs)
    ensures UnpackValues(tys, Join(Words(tys, vs))) == Some(vs)
  {
    var ws := Words(tys, vs);
    forall i | 0 <= i < |tys| ensures DecodeWord(Join(ws)[32 * i..32 * i + 32], tys[i]) == vs[i] {
      JoinAt(ws, i);
      WordRoundTrip(vs[i], tys[i]);
    }
    assert UnpackValues(tys, Join(ws)).value == vs;
  }

  lemma TopicsRoundTrip(tys: seq<Type>, vs: seq<Value>)
    requires WellTyped(tys, vs)
    ensures ParseTopics(tys, Words(tys, vs)) == vs
  {
    forall i | 0 <= i < |tys| ensures DecodeWord(Words(tys, vs)[i], tys[i]) == vs[i] {
      WordRoundTrip(vs[i], tys[i]);
    }
  }

  /** What a word holds: an address in its last 20 bytes, a number in big-endian order, a bytes32 as it is. */
  lemma WordHolds(v: Value, ty: Type)
    requires HasType(v, ty)
    ensures match v
            case AddressV(a) => EncodeWord(v, ty) == Zeros(12) + a
            case UintV(n) => Eval(256, EncodeWord(v, ty)) == n
            case Bytes32V(w) => EncodeWord(v, ty) == w
  {
    if ty.Uint8Ty? {
      EvalLeftPad(256, [v.n], 32);
      assert Eval(256, [v.n]) == v.n;
    }
  }

  /** The 32-byte words of some data. */
  function DataWords(data: seq<byte>): seq<Word> {
    seq(|data| / 32, i requires 0 <= i < |data| / 32 => data[32 * i..32 * i + 32])
  }

  lemma DataWordsOfJoin(ws: seq<Word>)
    ensures DataWords(Join(ws)) == ws
  {
    forall i | 0 <= i < |ws| ensures DataWords(Join(ws))[i] == ws[i] {
      JoinAt(ws, i);
    }
  }

  /** Where an emitted log has its arguments: each group in declaration order, behind the hash and in the data. */
  lemma LogLayout(e: EventAbi, vs: seq<Value>)
    requires e.Valid() && WellTyped(e.types, vs)
    ensures var log := EncodeLog(e, vs);
            && |log.topics| == 1 + |e.topicArgs| && log.topics[0] == e.id
            && (forall i :: 1 <= i <= |e.topicArgs| ==>
                  log.topics[i] == EncodeWord(vs[e.topicArgs[i - 1]], e.types[e.topicArgs[i - 1]]))
            && |log.data| == 32 * |e.dataArgs| && |DataWords(log.data)| == |e.dataArgs|
            && (forall i :: 0 <= i < |e.dataArgs| ==>
                  DataWords(log.data)[i] == EncodeWord(vs[e.dataArgs[i]], e.types[e.dataArgs[i]]))
  {
    DataWordsOfJoin(Pick(Words(e.types, vs), e.dataArgs));
  }

  /** For every event signature and every record of it: what the contract logs unpacks to the record. */
  lemma LogRoundTrip(e: EventAbi, vs: seq<Value>)
    requires e.Valid() && WellTyped(e.types, vs)
    ensures UnpackLog(e, EncodeLog(e, vs)) == Unpacked(vs, None)
  {
    var log := EncodeLog(e, vs);
    var dataTys, topicTys := Pick(e.types, e.dataArgs), Pick(e.types, e.topicArgs);
    var dataVs, topicVs := Pick(vs, e.dataArgs), Pick(vs, e.topicArgs);
    PickWords(e.types, vs, e.dataArgs);
    PickWords(e.types, vs, e.topicArgs);
    DataRoundTrip(dataTys, dataVs);
    TopicsRoundTrip(topicTys, topicVs);
    PartsDetermine(e, Merge(e, topicVs, dataVs), vs);
    assert log.topics[1..] == Words(topicTys, topicVs);
    if |log.data| == 0 {
      assert dataVs == Zeroes(dataTys);
    }
  }

  /**
    Which logs unpack without error: those with the event's hash as first topic, one more
    topic for each indexed argument, and data that is empty or long enough.
  */
  lemma UnpackLogAccepts(e: EventAbi, log: Log)
    requires e.Valid()
    ensures UnpackLog(e, log).err.None? <==>
      var data, topics := |e.dataArgs|, |e.topicArgs|;
      && |log.topics| == 1 + topics && log.topics[0] == e.id
      && (|log.data| == 0 || |e.types| == 0 || (data > 0 && |log.data| >= 32 * data))
  {
  }

  /** Which error it is otherwise, and what the struct holds then: only the topic count is looked at after the data. */
  lemma UnpackLogFails(e: EventAbi, log: Log)
    requires e.Valid()
    ensures UnpackLog(e, log).err ==
      if |log.topics| == 0 then Some(NoTopics)
      else if log.topics[0] != e.id then Some(SignatureMismatch)
      else if 0 < |log.data| < 32 * |e.dataArgs| then Some(ShortData)
      else if |log.data| > 0 && |e.dataArgs| == 0 && |e.types| > 0 then Some(NothingToCopy)
      else if |log.topics| != 1 + |e.topicArgs| then Some(TopicCountMismatch)
      else None
    ensures var out := UnpackLog(e, log);
            out.err.Some? ==>
              && |out.fields| == |e.types|
              && Pick(out.fields, e.topicArgs) == Zeroes(Pick(e.types, e.topicArgs))
              && Values(Pick(out.fields, e.dataArgs)) ==
                 if out.err == Some(TopicCountMismatch) then DataFields(e, log.data)
                 else Values(Zeroes(Pick(e.types, e.dataArgs)))
  {
  }

  /** When unpacking the data alone fails, and with which error. */
  lemma UnpackDataFails(e: EventAbi, data: seq<byte>)
    requires e.Valid()
    ensures UnpackData(e, data) == Failed(EmptyData) <==> |data| == 0 && |e.types| > 0
    ensures UnpackData(e, data) == Failed(ShortData) <==> 0 < |data| < 32 * |e.dataArgs|
    ensures UnpackData(e, data) == Failed(NothingToCopy) <==> |data| > 0 && |e.dataArgs| == 0 && |e.types| > 0
  {
  }

  /** A record with the right indexed and the right other fields is what the log unpacks to. */
  lemma UnpackLogIs(e: EventAbi, log: Log, xs: seq<Value>)
    requires e.Valid() && |xs| == |e.types|
    requires |log.topics| == 1 + |e.topicArgs| && log.topics[0] == e.id
    requires Pick(xs, e.topicArgs) == ParseTopics(Pick(e.types, e.topicArgs), log.topics[1..])
    requires DataFields(e, log.data) == Values(Pick(xs, e.dataArgs))
    ensures UnpackLog(e, log) == Unpacked(xs, None)
  {
    PartsDetermine(e, UnpackLog(e, log).fields, xs);
  }

  /** No log unpacks as two events with different hashes. */
  lemma UnpackLogExclusive(e1: EventAbi, e2: EventAbi, log: Log)
    requires e1.Valid() && e2.Valid() && e1.id != e2.id && UnpackLog(e1, log).err.None?
    ensures UnpackLog(e2, log).err == Some(SignatureMismatch)
  {
  }

  /** A word that encodes what it decodes to: addresses and uint8 need their zero padding. */
  predicate Canonical(w: Word, ty: Type) {
    match ty
    case AddressTy => w[..12] == Zeros(12)
    case Uint8Ty => w[..31] == Zeros(31)
    case Uint256Ty => true
    case Bytes32Ty => true
  }

  lemma WordReencodes(w: Word, ty: Type)
    requires Canonical(w, ty)
    ensures HasType(DecodeWord(w, ty), ty) && EncodeWord(DecodeWord(w, ty), ty) == w
  {
    FixedEval(256, w);
    if ty.AddressTy? {
      assert w == w[..12] + w[12..];
    } else if ty.Uint8Ty? {
      assert w == w[..31] + [w[31]];
    }
  }

  lemma MergeTypes(e: EventAbi, topics: seq<Value>, data: seq<Value>)
    requires e.Valid()
    requires WellTyped(Pick(e.types, e.topicArgs), topics) && WellTyped(Pick(e.types, e.dataArgs), data)
    ensures WellTyped(e.types, Merge(e, topics, data))
  {
    var m := Merge(e, topics, data);
    forall k: nat | k < |e.types| ensures HasType(m[k], e.types[k]) {
      var ps := if k in e.topicArgs then e.topicArgs else e.dataArgs;
      var i := IndexOf(ps, k);
      assert Pick(m, ps)[i] == m[k] && Pick(e.types, ps)[i] == e.types[k];
    }
  }

  /** Data of whole words is the concatenation of its words. */
  lemma {:induction false} JoinSplit(data: seq<byte>, k: nat)
    requires |data| == 32 * k
    ensures Join(seq(k, i requires 0 <= i < k => data[32 * i..32 * i + 32])) == data
  {
    var ws := seq(k, i requires 0 <= i < k => data[32 * i..32 * i + 32]);
    if k > 0 {
      var front := data[..32 * (k - 1)];
      JoinSplit(front, k - 1);
      var ws' := seq(k - 1, i requires 0 <= i < k - 1 => front[32 * i..32 * i + 32]);
      forall i | 0 <= i < k - 1 ensures ws[i] == ws'[i] {
        assert data[32 * i..32 * i + 32] == front[32 * i..32 * i + 32];
      }
      assert ws[..k - 1] == ws';
      assert data == front + ws[k - 1];
    }
  }

  /** The logs a contract may emit for an event: exactly its topics and words, all canonical. */
  ghost predicate CanonicalLog(e: EventAbi, log: Log)
    requires e.Valid()
  {
    var dataTys, topicTys := Pick(e.types, e.dataArgs), Pick(e.types, e.topicArgs);
    && |log.topics| == 1 + |topicTys| && log.topics[0] == e.id && |log.data| == 32 * |dataTys|
    && (forall i :: 0 <= i < |topicTys| ==> Canonical(log.topics[i + 1], topicTys[i]))
    && (forall i :: 0 <= i < |dataTys| ==> Canonical(log.data[32 * i..32 * i + 32], dataTys[i]))
  }

  lemma TopicsReencode(tys: seq<Type>, topics: seq<Word>)
    requires |topics| == |tys| && forall i :: 0 <= i < |tys| ==> Canonical(topics[i], tys[i])
    ensures WellTyped(tys, ParseTopics(tys, topics)) && Words(tys, ParseTopics(tys, topics)) == topics
  {
    forall i | 0 <= i < |tys|
      ensures HasType(DecodeWord(topics[i], tys[i]), tys[i])
      ensures EncodeWord(DecodeWord(topics[i], tys[i]), tys[i]) == topics[i]
    {
      WordReencodes(topics[i], tys[i]);
    }
  }

  lemma DataReencodes(tys: seq<Type>, data: seq<byte>)
    requires |data| == 32 * |tys|
    requires forall i :: 0 <= i < |tys| ==> Canonical(data[32 * i..32 * i + 32], tys[i])
    ensures UnpackValues(tys, data).Some? && WellTyped(tys, UnpackValues(tys, data).value)
    ensures Join(Words(tys, UnpackValues(tys, data).value)) == data
  {
    var ws := seq(|tys|, i requires 0 <= i < |tys| => data[32 * i..32 * i + 32]);
    JoinSplit(data, |tys|);
    TopicsReencode(tys, ws);
    assert UnpackValues(tys, data).value == ParseTopics(tys, ws);
  }

  /** The other direction: a canonical log unpacks, and encoding what it unpacks to gives the log back. */
  lemma LogReencodes(e: EventAbi, log: Log)
    requires e.Valid() && CanonicalLog(e, log)
    ensures var out := UnpackLog(e, log);
            out.err.None? && WellTyped(e.types, out.fields) && EncodeLog(e, out.fields) == log
  {
    var dataTys, topicTys := Pick(e.types, e.dataArgs), Pick(e.types, e.topicArgs);
    TopicsReencode(topicTys, log.topics[1..]);
    DataReencodes(dataTys, log.data);
    var topicVs, dataVs := ParseTopics(topicTys, log.topics[1..]), UnpackValues(dataTys, log.data).value;
    MergeReencodes(e, topicVs, dataVs);
    assert [e.id] + log.topics[1..] == log.topics;
    if |log.data| == 0 {
      assert Zeroes(dataTys) == dataVs;
    }
  }

  lemma MergeReencodes(e: EventAbi, topicVs: seq<Value>, dataVs: seq<Value>)
    requires e.Valid()
    requires WellTyped(Pick(e.types, e.topicArgs), topicVs) && WellTyped(Pick(e.types, e.dataArgs), dataVs)
    ensures var vs := Merge(e, topicVs, dataVs);
            && WellTyped(e.types, vs)
            && EncodeLog(e, vs) == Log([e.id] + Words(Pick(e.types, e.topicArgs), topicVs),
                                       Join(Words(Pick(e.types, e.dataArgs), dataVs)))
  {
    var vs := Merge(e, topicVs, dataVs);
    MergeTypes(e, topicVs, dataVs);
    PickWords(e.types, vs, e.topicArgs);
    PickWords(e.types, vs, e.dataArgs);
  }
}
