/**
  Filter queries: the lists given to `FilterTransfer`, `FilterLogFill` and the others become
  topic rules, the node selects the logs that match them, and the iterator delivers the events.
*/
module EventFilters {
  import opened Positional
  import opened Abi
  import opened Hex
  import opened Subscriptions
  import EventIterators
  import EventWatchers
  import FilterProducer
  import opened FilterTopics
  import TokenReader
  import ExchangeReader

  type Rule = seq<Value>

  /** The topic of a value: addresses and integers are right-aligned, 32-byte words copied. */
  function TopicOf(v: Value): Word
    requires InWord(v)
  {
    match v
    case AddressV(a) => Zeros(12) + a
    case Bytes32V(w) => w
    case UintV(n) => Fixed(256, n, 32)
  }

  predicate InWord(v: Value) {
    v.UintV? ==> v.n < Pow(256, 32)
  }

  lemma TypedInWord(v: Value, ty: Type)
    requires HasType(v, ty)
    ensures InWord(v)
  {
    assert Pow(256, 32) == 256 * Pow(256, 31);
    PowPositive(256, 31);
  }

  /** The topic of a query is the topic the contract writes. */
  lemma TopicIsWord(v: Value, ty: Type)
    requires HasType(v, ty)
    ensures InWord(v) && TopicOf(v) == EncodeWord(v, ty)
  {
    TypedInWord(v, ty);
    if ty.Uint8Ty? {
      EvalLeftPad(256, [v.n], 32);
      assert Eval(256, [v.n]) == v.n;
      EvalInjective(256, TopicOf(v), EncodeWord(v, ty));
    }
  }

  /** Two values of a type have the same topic only if they are equal. */
  lemma TopicInjective(v: Value, u: Value, ty: Type)
    requires HasType(v, ty) && HasType(u, ty)
    ensures EncodeWord(v, ty) == EncodeWord(u, ty) <==> v == u
  {
    WordRoundTrip(v, ty);
    WordRoundTrip(u, ty);
  }

  ghost predicate RuleFor(rule: Rule, ty: Type) {
    forall i :: 0 <= i < |rule| ==> HasType(rule[i], ty)
  }

  /** One rule, possibly empty, for each of the first indexed arguments. */
  ghost predicate RulesFor(rules: seq<Rule>, e: EventAbi)
    requires e.Valid()
  {
    |rules| <= |e.topicArgs| && forall i :: 0 <= i < |rules| ==> RuleFor(rules[i], e.types[e.topicArgs[i]])
  }

  function RuleTopics(rule: Rule): seq<Word>
    requires forall i :: 0 <= i < |rule| ==> InWord(rule[i])
  {
    seq(|rule|, i requires 0 <= i < |rule| => TopicOf(rule[i]))
  }

  predicate RulesInWord(rules: seq<Rule>) {
    forall i, j :: 0 <= i < |rules| && 0 <= j < |rules[i]| ==> InWord(rules[i][j])
  }

  /** The topics of the query: the event's hash alone, then one list for each rule. */
  function QueryTopics(id: Word, rules: seq<Rule>): seq<seq<Word>>
    requires RulesInWord(rules)
  {
    [[id]] + seq(|rules|, i requires 0 <= i < |rules| => RuleTopics(rules[i]))
  }

  predicate TopicsMatch(log: Log, topics: seq<seq<Word>>) {
    |topics| <= |log.topics| && forall i :: 0 <= i < |topics| ==> |topics[i]| == 0 || log.topics[i] in topics[i]
  }

  /** A log as the node keeps it: with the contract that emitted it and the number of its block. */
  datatype ChainLog = ChainLog(log: Log, address: Address, block: nat)

  datatype Query = Query(fromBlock: Option<int>, toBlock: Option<int>, addresses: seq<Address>, topics: seq<seq<Word>>)

  /** `big.Int.Uint64`: the low 64 bits of the absolute value. */
  function Uint64(x: int): nat {
    (if x < 0 then -x else x) % 0x1_0000_0000_0000_0000
  }

  /** `big.Int.Int64`: the same bits read as a signed number, negated for a negative one. */
  function Int64(x: int): int {
    var low := Uint64(x);
    var v := if low < 0x8000_0000_0000_0000 then low else low - 0x1_0000_0000_0000_0000;
    if x < 0 && v != -0x8000_0000_0000_0000 then -v else v
  }

  predicate InBlocks(q: Query, block: nat) {
    && (q.fromBlock.Some? && Int64(q.fromBlock.value) >= 0 ==> Uint64(q.fromBlock.value) <= block)
    && (q.toBlock.Some? && Int64(q.toBlock.value) >= 0 ==> block <= Uint64(q.toBlock.value))
  }

  /** Within the signed range a bound from zero on is a bound, and a negative one stands for no bound. */
  lemma BlockBounds(from: int, to: int, addresses: seq<Address>, topics: seq<seq<Word>>, block: nat)
    requires -0x8000_0000_0000_0000 <= from < 0x8000_0000_0000_0000
    requires -0x8000_0000_0000_0000 <= to < 0x8000_0000_0000_0000
    ensures InBlocks(Query(Some(from), Some(to), addresses, topics), block)
       <==> from <= block && (to >= 0 ==> block <= to)
  {
  }

  /** `includes`. */
  method Includes(addresses: seq<Address>, a: Address) returns (found: bool)
    ensures found <==> a in addresses
  {
    for i := 0 to |addresses|
      invariant a !in addresses[..i]
    {
      if addresses[i] == a {
        return true;
      }
    }
    return false;
  }

  predicate Selected(l: ChainLog, q: Query) {
    InBlocks(q, l.block) && Allows(q.addresses, l.address) && TopicsMatch(l.log, q.topics)
  }

  function Select(logs: seq<ChainLog>, q: Query): seq<ChainLog> {
    if |logs| == 0 then []
    else Select(logs[..|logs| - 1], q) + if Selected(logs[|logs| - 1], q) then [logs[|logs| - 1]] else []
  }

  /** What the node keeps, spelled out for block numbers: in order, the logs that meet every condition. */
  lemma SelectIs(logs: seq<ChainLog>, from: nat, to: nat, addresses: seq<Address>, topics: seq<seq<Word>>, l: ChainLog)
    requires from < 0x8000_0000_0000_0000 && to < 0x8000_0000_0000_0000
    ensures var kept := Select(logs, Query(Some(from), Some(to), addresses, topics));
            l in kept <==>
              && l in logs && from <= l.block <= to && (l.address in addresses || addresses == [])
              && |l.log.topics| >= |topics|
              && forall i :: 0 <= i < |topics| ==> topics[i] == [] || l.log.topics[i] in topics[i]
  {
    var q := Query(Some(from), Some(to), addresses, topics);
    BlockBounds(from, to, addresses, topics, l.block);
    SelectMembers(logs, q, l);
  }

  lemma {:induction false} SelectMembers(logs: seq<ChainLog>, q: Query, l: ChainLog)
    ensures l in Select(logs, q) <==> l in logs && Selected(l, q)
  {
    hide Selected;
    if |logs| > 0 {
      var front := logs[..|logs| - 1];
      SelectMembers(front, q, l);
      assert logs == front + [logs[|logs| - 1]];
    }
  }

  /** Selecting goes log by log, so the order stays. */
  lemma {:induction false} SelectConcat(x: seq<ChainLog>, y: seq<ChainLog>, q: Query)
    ensures Select(x + y, q) == Select(x, q) + Select(y, q)
  {
    hide Selected;
    if |y| == 0 {
      assert x + y == x && Select(x, q) + [] == Select(x, q);
    } else {
      SelectConcat(x, y[..|y| - 1], q);
      assert (x + y)[..|x + y| - 1] == x + y[..|y| - 1];
    }
  }

  /** The node's filter: skips a log at the first condition it does not meet. */
  method FilterLogs(logs: seq<ChainLog>, q: Query) returns (ret: seq<ChainLog>)
    ensures ret == Select(logs, q)
  {
    ret := [];
    for n := 0 to |logs|
      invariant ret == Select(logs[..n], q)
    {
      var l := logs[n];
      assert logs[..n + 1][..n] == logs[..n];
      if q.fromBlock.Some? && Int64(q.fromBlock.value) >= 0 && Uint64(q.fromBlock.value) > l.block {
        continue;
      }
      if q.toBlock.Some? && Int64(q.toBlock.value) >= 0 && Uint64(q.toBlock.value) < l.block {
        continue;
      }
      if |q.addresses| > 0 {
        var found := Includes(q.addresses, l.address);
        if !found {
          continue;
        }
      }
      if |q.topics| > |l.log.topics| {
        continue;
      }
      var matches := MatchTopics(l.log, q.topics);
      if matches {
        ret := ret + [l];
      }
    }
    assert logs[..|logs|] == logs;
  }

  /** The inner loops: every topic must be in its list, or the list be empty. */
  method MatchTopics(log: Log, topics: seq<seq<Word>>) returns (matches: bool)
    requires |topics| <= |log.topics|
    ensures matches <==> TopicsMatch(log, topics)
  {
    for i := 0 to |topics|
      invariant forall j :: 0 <= j < i ==> |topics[j]| == 0 || log.topics[j] in topics[j]
    {
      var listed := |topics[i]| == 0;
      for k := 0 to |topics[i]|
        invariant listed <==> |topics[i]| == 0 || log.topics[i] in topics[i][..k]
      {
        if log.topics[i] == topics[i][k] {
          listed := true;
          break;
        }
      }
      if !listed {
        return false;
      }
    }
    return true;
  }

  /** A list that constrains one field; an empty list lets everything through. */
  predicate Allows<T(==)>(items: seq<T>, x: T) {
    |items| == 0 || x in items
  }

  /** The Go values that the bindings put into their rules: addresses, 32-byte arrays and uint8. */
  function RuleValueOf(v: Value): RuleValue {
    match v
    case AddressV(a) => FilterTopics.AddressRule(a)
    case Bytes32V(w) => ArrayRule(w)
    case UintV(n) => UintRule(n)
  }

  function RuleValues(rule: Rule): (values: seq<RuleValue>)
    ensures |values| == |rule|
  {
    seq(|rule|, i requires 0 <= i < |rule| => RuleValueOf(rule[i]))
  }

  /** `for _, item := range items { rule = append(rule, item) }`. */
  method AddressRule(items: seq<Address>) returns (rule: seq<RuleValue>)
    ensures rule == RuleValues(Addresses(items))
  {
    rule := [];
    for i := 0 to |items|
      invariant rule == RuleValues(Addresses(items[..i]))
    {
      rule := rule + [FilterTopics.AddressRule(items[i])];
    }
    assert items[..|items|] == items;
  }

  method WordRule(items: seq<Word>) returns (rule: seq<RuleValue>)
    ensures rule == RuleValues(Words32(items))
  {
    rule := [];
    for i := 0 to |items|
      invariant rule == RuleValues(Words32(items[..i]))
    {
      rule := rule + [ArrayRule(items[i])];
    }
    assert items[..|items|] == items;
  }

  /** What `FilterLogs` and `WatchLogs` hand to `MakeTopics`: the event's hash, then the rules. */
  function QueryValues(id: Word, rules: seq<Rule>): seq<seq<RuleValue>> {
    [[HashRule(id)]] + seq(|rules|, i requires 0 <= i < |rules| => RuleValues(rules[i]))
  }

  lemma ValueTopic(v: Value, keccak: seq<byte> -> Word)
    requires InWord(v)
    ensures TopicFor(RuleValueOf(v), keccak) == Made(TopicOf(v))
  {
    if v.UintV? {
      DigitsLength(256, v.n, 32);
    } else if v.Bytes32V? {
      assert v.word + Zeros(0) == v.word;
    }
  }

  /** `MakeTopics` never fails on the rules of the bindings, and makes the topics that the theorems below are about. */
  method BindingTopics(id: Word, values: seq<seq<RuleValue>>, ghost rules: seq<Rule>, keccak: seq<byte> -> Word)
    returns (topics: seq<seq<Word>>)
    requires RulesInWord(rules) && values == QueryValues(id, rules)
    ensures topics == QueryTopics(id, rules)
  {
    BindingValues(id, rules, keccak);
    var made := MakeTopics(values, keccak);
    TopicsAre(id, rules, made.value, keccak);
    topics := made.value;
  }

  lemma BindingValues(id: Word, rules: seq<Rule>, keccak: seq<byte> -> Word)
    requires RulesInWord(rules)
    ensures forall i, j :: 0 <= i <= |rules| && 0 <= j < |QueryValues(id, rules)[i]| ==>
              TopicFor(QueryValues(id, rules)[i][j], keccak).Made?
  {
    forall i, j | 0 <= i < |rules| && 0 <= j < |rules[i]| ensures TopicFor(RuleValueOf(rules[i][j]), keccak).Made? {
      ValueTopic(rules[i][j], keccak);
    }
  }

  lemma TopicsAre(id: Word, rules: seq<Rule>, topics: seq<seq<Word>>, keccak: seq<byte> -> Word)
    requires RulesInWord(rules)
    requires |topics| == 1 + |rules| && QueryMade(QueryValues(id, rules), topics, keccak)
    ensures topics == QueryTopics(id, rules)
  {
    hide RuleMade, RuleValues, RuleTopics, QueryTopics, QueryValues, QueryMade;
    QueryShape(id, rules);
    var values, expected := QueryValues(id, rules), QueryTopics(id, rules);
    ValuesShape(id, rules);
    forall i | 0 <= i < |topics| ensures topics[i] == expected[i] {
      MadeAt(values, topics, keccak, i);
      if i == 0 {
        HashTopicIs(id, topics[0], keccak);
      } else {
        assert values[i - 1 + 1] == RuleValues(rules[i - 1]) && expected[i - 1 + 1] == RuleTopics(rules[i - 1]);
        RuleTopicsAre(rules[i - 1], topics[i], keccak);
      }
    }
  }

  lemma ValuesShape(id: Word, rules: seq<Rule>)
    ensures var values := QueryValues(id, rules);
            && |values| == |rules| + 1 && values[0] == [HashRule(id)]
            && forall i :: 0 <= i < |rules| ==> values[i + 1] == RuleValues(rules[i])
  {
  }

  lemma MadeAt(query: seq<seq<RuleValue>>, topics: seq<seq<Word>>, keccak: seq<byte> -> Word, i: nat)
    requires QueryMade(query, topics, keccak) && i < |topics|
    ensures |topics| <= |query| && |topics[i]| == |query[i]| && RuleMade(query[i], topics[i], keccak)
  {
  }

  lemma HashTopicIs(id: Word, ws: seq<Word>, keccak: seq<byte> -> Word)
    requires |ws| == 1 && RuleMade([HashRule(id)], ws, keccak)
    ensures ws == [id]
  {
    assert TopicFor(HashRule(id), keccak) == Made(ws[0]);
  }

  lemma RuleTopicsAre(rule: Rule, ws: seq<Word>, keccak: seq<byte> -> Word)
    requires forall j :: 0 <= j < |rule| ==> InWord(rule[j])
    requires |ws| == |rule| && RuleMade(RuleValues(rule), ws, keccak)
    ensures ws == RuleTopics(rule)
  {
    hide TopicFor, TopicOf, RuleValueOf;
    forall j | 0 <= j < |rule| ensures ws[j] == TopicOf(rule[j]) {
      ValueTopic(rule[j], keccak);
      assert TopicFor(RuleValues(rule)[j], keccak) == Made(ws[j]);
    }
  }

  /** A record satisfies the rules: each of its first indexed fields is listed, or its list is empty. */
  predicate Satisfies(fields: seq<Value>, rules: seq<Rule>) {
    |rules| <= |fields| && forall i :: 0 <= i < |rules| ==> |rules[i]| == 0 || fields[i] in rules[i]
  }

  lemma RuleSelects(v: Value, rule: Rule, ty: Type)
    requires HasType(v, ty) && RuleFor(rule, ty)
    ensures forall i :: 0 <= i < |rule| ==> InWord(rule[i])
    ensures EncodeWord(v, ty) in RuleTopics(rule) <==> v in rule
  {
    forall i | 0 <= i < |rule| ensures InWord(rule[i]) && (TopicOf(rule[i]) == EncodeWord(v, ty) <==> rule[i] == v) {
      TopicIsWord(rule[i], ty);
      TopicInjective(rule[i], v, ty);
    }
    if v in rule {
      var i :| 0 <= i < |rule| && rule[i] == v;
      assert RuleTopics(rule)[i] == EncodeWord(v, ty);
    }
  }

  lemma RulesTyped(e: EventAbi, rules: seq<Rule>)
    requires e.Valid() && RulesFor(rules, e)
    ensures RulesInWord(rules)
  {
    forall i, j | 0 <= i < |rules| && 0 <= j < |rules[i]| ensures InWord(rules[i][j]) {
      TypedInWord(rules[i][j], e.types[e.topicArgs[i]]);
    }
  }

  /** Exactly the logs of records that satisfy the rules are selected. */
  lemma SelectsRecords(e: EventAbi, vs: seq<Value>, rules: seq<Rule>)
    requires e.Valid() && WellTyped(e.types, vs) && RulesFor(rules, e)
    ensures RulesInWord(rules)
    ensures TopicsMatch(EncodeLog(e, vs), QueryTopics(e.id, rules)) <==> Satisfies(Pick(vs, e.topicArgs), rules)
  {
    RulesTyped(e, rules);
    var topics := EncodeLog(e, vs).topics;
    var fields := Pick(vs, e.topicArgs);
    forall i | 0 <= i < |rules|
      ensures topics[i + 1] in RuleTopics(rules[i]) <==> fields[i] in rules[i]
    {
      RuleSelects(fields[i], rules[i], e.types[e.topicArgs[i]]);
    }
    SelectedByRules(EncodeLog(e, vs), e.id, rules);
  }

  /** Matching the query, rule by rule. */
  lemma SelectedByRules(log: Log, id: Word, rules: seq<Rule>)
    requires RulesInWord(rules) && |log.topics| > |rules|
    ensures TopicsMatch(log, QueryTopics(id, rules)) <==>
      && log.topics[0] == id
      && forall i :: 0 <= i < |rules| ==> |rules[i]| == 0 || log.topics[i + 1] in RuleTopics(rules[i])
  {
    hide QueryTopics, RuleTopics;
    QueryShape(id, rules);
    var query := QueryTopics(id, rules);
    forall i | 0 <= i < |rules|
      ensures (|query[i + 1]| == 0 || log.topics[i + 1] in query[i + 1]) <==>
              (|rules[i]| == 0 || log.topics[i + 1] in RuleTopics(rules[i]))
    {
      RuleLength(rules[i]);
    }
    assert forall i :: 1 <= i < |query| ==> query[i] == RuleTopics(rules[i - 1]);
  }

  lemma RuleLength(rule: Rule)
    requires forall i :: 0 <= i < |rule| ==> InWord(rule[i])
    ensures |RuleTopics(rule)| == |rule|
  {
  }

  lemma QueryShape(id: Word, rules: seq<Rule>)
    requires RulesInWord(rules)
    ensures var query := QueryTopics(id, rules);
            && |query| == |rules| + 1 && query[0] == [id]
            && forall i :: 0 <= i < |rules| ==> query[i + 1] == RuleTopics(rules[i])
  {
  }

  /** An event as emitted by a contract: its signature and its fields, the contract and the block. */
  datatype Emitted = Emitted(abi: EventAbi, fields: seq<Value>, address: Address, block: nat)

  /** A well-formed event, and if it has the hash of e, an event of e. */
  ghost predicate WellFormed(e: EventAbi, x: Emitted) {
    x.abi.Valid() && WellTyped(x.abi.types, x.fields) && (x.abi.id == e.id ==> x.abi == e)
  }

  /** Events of one signature e, among well-formed events of other signatures. */
  ghost predicate Stream(e: EventAbi, emitted: seq<Emitted>) {
    forall i :: 0 <= i < |emitted| ==> WellFormed(e, emitted[i])
  }

  function LogOf(e: EventAbi, x: Emitted): ChainLog
    requires WellFormed(e, x)
  {
    ChainLog(EncodeLog(x.abi, x.fields), x.address, x.block)
  }

  function ChainLogs(e: EventAbi, emitted: seq<Emitted>): seq<ChainLog>
    requires Stream(e, emitted)
  {
    seq(|emitted|, i requires 0 <= i < |emitted| => LogOf(e, emitted[i]))
  }

  type BlockNumber = n: nat | n < 0x1_0000_0000_0000_0000

  /** What a caller asks for: events of a contract, from a block on and up to one, or not. */
  datatype Request =
    Request(contract: Address, start: Option<BlockNumber>, end: Option<BlockNumber>, rules: seq<Rule>)

  datatype FilterOpts = FilterOpts(start: BlockNumber, end: Option<BlockNumber>)

  datatype WatchOpts = WatchOpts(start: Option<BlockNumber>)

  /** `BoundContract.FilterLogs`: missing options count as block zero and no end. */
  function FilterRequest(contract: Address, opts: Option<FilterOpts>, rules: seq<Rule>): Request {
    var o := if opts.Some? then opts.value else FilterOpts(0, None);
    Request(contract, Some(o.start), o.end, rules)
  }

  /** `BoundContract.WatchLogs`: there is no end, and without options no start. */
  function WatchRequest(contract: Address, opts: Option<WatchOpts>, rules: seq<Rule>): Request {
    Request(contract, if opts.Some? then opts.value.start else None, None, rules)
  }

  function Bound(block: Option<BlockNumber>): Option<int> {
    if block.Some? then Some(block.value) else None
  }

  /** The query that either of them sends. */
  function QueryOf(e: EventAbi, r: Request): Query
    requires RulesInWord(r.rules)
  {
    Query(Bound(r.start), Bound(r.end), [r.contract], QueryTopics(e.id, r.rules))
  }

  /** No earlier than the start and no later than the end; the node ignores either from 2^63 on. */
  predicate BlockAsked(start: Option<BlockNumber>, end: Option<BlockNumber>, block: nat) {
    && (start.Some? && start.value < 0x8000_0000_0000_0000 ==> start.value <= block)
    && (end.Some? && end.value < 0x8000_0000_0000_0000 ==> block <= end.value)
  }

  lemma QueryBlocks(e: EventAbi, r: Request, block: nat)
    requires RulesInWord(r.rules)
    ensures InBlocks(QueryOf(e, r), block) <==> BlockAsked(r.start, r.end, block)
  {
    hide QueryTopics;
  }

  /** The blocks that the callers' options let through. */
  lemma OptionBlocks(contract: Address, rules: seq<Rule>, start: BlockNumber, end: BlockNumber, e: EventAbi, block: nat)
    requires RulesInWord(rules) && start < 0x8000_0000_0000_0000 && end < 0x8000_0000_0000_0000
    ensures InBlocks(QueryOf(e, FilterRequest(contract, None, rules)), block)
    ensures InBlocks(QueryOf(e, FilterRequest(contract, Some(FilterOpts(start, None)), rules)), block)
       <==> start <= block
    ensures InBlocks(QueryOf(e, FilterRequest(contract, Some(FilterOpts(start, Some(end))), rules)), block)
       <==> start <= block <= end
    ensures InBlocks(QueryOf(e, WatchRequest(contract, None, rules)), block)
    ensures InBlocks(QueryOf(e, WatchRequest(contract, Some(WatchOpts(None)), rules)), block)
    ensures InBlocks(QueryOf(e, WatchRequest(contract, Some(WatchOpts(Some(start))), rules)), block) <==> start <= block
  {
    hide QueryTopics;
  }

  /** The event is of the requested contract, blocks and kind, and its indexed fields satisfy the rules. */
  predicate Asked(e: EventAbi, x: Emitted, r: Request)
    requires e.Valid() && WellFormed(e, x)
  {
    && BlockAsked(r.start, r.end, x.block) && x.address == r.contract
    && x.abi.id == e.id && Satisfies(Pick(x.fields, e.topicArgs), r.rules)
  }

  /** The records a caller asked for, in order. */
  function Wanted(e: EventAbi, emitted: seq<Emitted>, r: Request): seq<seq<Value>>
    requires e.Valid() && Stream(e, emitted)
  {
    if |emitted| == 0 then []
    else
      var last := emitted[|emitted| - 1];
      Wanted(e, emitted[..|emitted| - 1], r) + if Asked(e, last, r) then [last.fields] else []
  }

  function Unpacker(e: EventAbi): ChainLog -> Unpacked<seq<Value>, AbiError>
    requires e.Valid()
  {
    (l: ChainLog) => UnpackLog(e, l.log)
  }

  /** The selected logs unpack, one for one, to the wanted records. */
  lemma {:induction false} SelectionUnpacks(e: EventAbi, emitted: seq<Emitted>, r: Request)
    requires e.Valid() && Stream(e, emitted) && RulesFor(r.rules, e) && RulesInWord(r.rules)
    ensures var logs := Select(ChainLogs(e, emitted), QueryOf(e, r));
            var records := Wanted(e, emitted, r);
            && |logs| == |records|
            && forall i :: 0 <= i < |logs| ==> UnpackLog(e, logs[i].log) == Unpacked(records[i], None)
  {
    hide UnpackLog, Selected, Asked, QueryOf, LogOf;
    if |emitted| > 0 {
      var front, last := emitted[..|emitted| - 1], emitted[|emitted| - 1];
      SelectionUnpacks(e, front, r);
      assert ChainLogs(e, emitted)[..|emitted| - 1] == ChainLogs(e, front);
      LastSelected(e, last, r);
    }
  }

  lemma LastSelected(e: EventAbi, last: Emitted, r: Request)
    requires e.Valid() && WellFormed(e, last) && RulesFor(r.rules, e) && RulesInWord(r.rules)
    ensures Selected(LogOf(e, last), QueryOf(e, r)) <==> Asked(e, last, r)
    ensures Asked(e, last, r) ==> UnpackLog(e, LogOf(e, last).log) == Unpacked(last.fields, None)
  {
    hide UnpackLog, InBlocks, BlockAsked, Satisfies;
    QueryBlocks(e, r, last.block);
    QueryShape(e.id, r.rules);
    if last.abi.id == e.id {
      SelectsRecords(e, last.fields, r.rules);
      LogRoundTrip(e, last.fields);
    } else {
      OtherEvent(e, EncodeLog(last.abi, last.fields), r.rules);
    }
  }

  /** Logs of other events match no query for e. */
  lemma OtherEvent(e: EventAbi, log: Log, rules: seq<Rule>)
    requires RulesInWord(rules) && |log.topics| > 0 && log.topics[0] != e.id
    ensures !TopicsMatch(log, QueryTopics(e.id, rules))
  {
    QueryShape(e.id, rules);
    assert log.topics[0] !in QueryTopics(e.id, rules)[0];
  }

  ghost function FieldsOf(events: seq<Event<ChainLog, seq<Value>>>): seq<seq<Value>> {
    seq(|events|, i requires 0 <= i < |events| => events[i].fields)
  }

  /** Events that decode a prefix of the selected logs carry a prefix of the wanted records. */
  lemma DecodedFields(e: EventAbi, logs: seq<ChainLog>, records: seq<seq<Value>>,
                      events: seq<Event<ChainLog, seq<Value>>>)
    requires e.Valid() && |logs| == |records|
    requires forall i :: 0 <= i < |logs| ==> UnpackLog(e, logs[i].log) == Unpacked(records[i], None)
    requires DecodesPrefix(Unpacker(e), logs, events)
    ensures FieldsOf(events) <= records && (|events| == |logs| ==> FieldsOf(events) == records)
    ensures AllUnpack(Unpacker(e), logs)
  {
    hide UnpackLog;
    forall i | 0 <= i < |events| ensures events[i].fields == records[i] {
      assert logs[..|events|][i] == logs[i];
    }
  }

  /**
    End to end, for every event signature, every stream of events, every request and every
    interleaving: what the iterator has delivered is a prefix of the wanted records, nothing
    fails to unpack, and an iteration that ended without error and without `Close` has
    delivered exactly the wanted records, in order.
  */
  lemma FilteredIteration(e: EventAbi, emitted: seq<Emitted>, r: Request, cap: nat,
                          t: seq<EventIterators.Step<AbiError>>,
                          it: EventIterators.Iter<ChainLog, seq<Value>, AbiError>)
    requires e.Valid() && Stream(e, emitted) && RulesFor(r.rules, e) && RulesInWord(r.rules)
    requires var logs := Select(ChainLogs(e, emitted), QueryOf(e, r));
             EventIterators.Run(cap, Unpacker(e), EventIterators.Start(logs), t) == Some(it)
    ensures FieldsOf(it.delivered) <= Wanted(e, emitted, r) && it.rejected == None
    ensures EventIterators.Finished(it) && it.fail.None? && !it.feed.cancelled ==>
              FieldsOf(it.delivered) == Wanted(e, emitted, r)
  {
    hide UnpackLog, FieldsOf, Wanted, Select;
    var logs := Select(ChainLogs(e, emitted), QueryOf(e, r));
    SelectionUnpacks(e, emitted, r);
    DecodedFields(e, logs, Wanted(e, emitted, r), []);
    EventIterators.Delivers(cap, Unpacker(e), logs, t, it);
    DecodedFields(e, logs, Wanted(e, emitted, r), it.delivered);
  }

  /**
    The same with the producer of `Filter*` itself in place of the assumptions about it: unless
    `Close` is called, a finished filter has no error and has delivered exactly the wanted records.
  */
  lemma FilterDeliversWanted(e: EventAbi, emitted: seq<Emitted>, r: Request, cap: nat,
                             t: seq<FilterProducer.FilterStep>,
                             s: FilterProducer.Filter<ChainLog, seq<Value>, AbiError>)
    requires e.Valid() && Stream(e, emitted) && RulesFor(r.rules, e) && RulesInWord(r.rules)
    requires var logs := Select(ChainLogs(e, emitted), QueryOf(e, r));
             FilterProducer.FilterRun(cap, Unpacker(e), logs, t) == Some(s)
    ensures FieldsOf(s.it.delivered) <= Wanted(e, emitted, r) && s.it.fail == None
    ensures EventIterators.Finished(s.it) && FilterProducer.Producing(FilterProducer.Unsubscribe) !in t ==>
              FieldsOf(s.it.delivered) == Wanted(e, emitted, r)
  {
    hide UnpackLog, FieldsOf, Wanted, Select;
    var logs := Select(ChainLogs(e, emitted), QueryOf(e, r));
    SelectionUnpacks(e, emitted, r);
    DecodedFields(e, logs, Wanted(e, emitted, r), []);
    var steps := FilterProducer.FilterRefines(cap, Unpacker(e), logs, t);
    EventIterators.Delivers(cap, Unpacker(e), logs, steps, s.it);
    FilterProducer.FilterOutcome(cap, Unpacker(e), logs, t, s);
    DecodedFields(e, logs, Wanted(e, emitted, r), s.it.delivered);
  }

  /**
    `Watch*` sends such a query too. In every run a watcher's sink has a prefix of the wanted
    records, and all of them exactly when nothing is in flight, buffered or unsent.
  */
  lemma WatchedStream(e: EventAbi, emitted: seq<Emitted>, r: Request, cap: nat, t: seq<EventWatchers.Step<AbiError>>,
                      w: EventWatchers.Watcher<ChainLog, seq<Value>, AbiError>)
    requires e.Valid() && Stream(e, emitted) && RulesFor(r.rules, e) && RulesInWord(r.rules)
    requires var logs := Select(ChainLogs(e, emitted), QueryOf(e, r));
             EventWatchers.Run(cap, Unpacker(e), EventWatchers.Start(logs), t) == Some(w)
    ensures FieldsOf(w.sent) <= Wanted(e, emitted, r)
    ensures FieldsOf(w.sent) == Wanted(e, emitted, r) <==>
      |EventWatchers.InFlight(w)| + |w.feed.buffer| + |w.feed.unsent| == 0
  {
    hide UnpackLog, Wanted, Select;
    var logs := Select(ChainLogs(e, emitted), QueryOf(e, r));
    SelectionUnpacks(e, emitted, r);
    EventWatchers.Safety(cap, Unpacker(e), logs, t, w);
    DecodedFields(e, logs, Wanted(e, emitted, r), w.sent);
    assert |EventWatchers.InFlight(w) + w.feed.buffer + w.feed.unsent| == |logs| - |w.sent|;
  }

  function Addresses(items: seq<Address>): Rule {
    seq(|items|, i requires 0 <= i < |items| => AddressV(items[i]))
  }

  function Words32(items: seq<Word>): Rule {
    seq(|items|, i requires 0 <= i < |items| => Bytes32V(items[i]))
  }

  lemma AddressesFor(items: seq<Address>)
    ensures RuleFor(Addresses(items), AddressTy)
  {
  }

  lemma WordsFor(items: seq<Word>)
    ensures RuleFor(Words32(items), Bytes32Ty)
  {
  }

  lemma AddressListed(items: seq<Address>, a: Address)
    ensures AddressV(a) in Addresses(items) <==> a in items
  {
    if a in items {
      var i :| 0 <= i < |items| && items[i] == a;
      assert Addresses(items)[i] == AddressV(a);
    }
  }

  lemma WordListed(items: seq<Word>, w: Word)
    ensures Bytes32V(w) in Words32(items) <==> w in items
  {
    if w in items {
      var i :| 0 <= i < |items| && items[i] == w;
      assert Words32(items)[i] == Bytes32V(w);
    }
  }

  /** The query of `FilterTransfer` and `WatchTransfer`, and of the two for approvals. */
  method TokenQuery(id: Word, from: seq<Address>, to: seq<Address>, keccak: seq<byte> -> Word)
    returns (topics: seq<seq<Word>>)
    ensures topics == QueryTopics(id, [Addresses(from), Addresses(to)])
  {
    var fromRule := AddressRule(from);
    var toRule := AddressRule(to);
    topics := BindingTopics(id, [[HashRule(id)], fromRule, toRule], [Addresses(from), Addresses(to)], keccak);
  }

  /** The query of the fill and cancel filters. */
  method ExchangeQuery(id: Word, maker: seq<Address>, feeRecipient: seq<Address>, tokens: seq<Word>,
                       keccak: seq<byte> -> Word)
    returns (topics: seq<seq<Word>>)
    ensures topics == QueryTopics(id, [Addresses(maker), Addresses(feeRecipient), Words32(tokens)])
  {
    var makerRule := AddressRule(maker);
    var feeRecipientRule := AddressRule(feeRecipient);
    var tokensRule := WordRule(tokens);
    topics := BindingTopics(id, [[HashRule(id)], makerRule, feeRecipientRule, tokensRule],
                            [Addresses(maker), Addresses(feeRecipient), Words32(tokens)], keccak);
  }

  lemma TwoRules(x: Address, y: Address, first: seq<Address>, second: seq<Address>)
    ensures Satisfies([AddressV(x), AddressV(y)], [Addresses(first), Addresses(second)])
       <==> Allows(first, x) && Allows(second, y)
  {
    var fields, rules := [AddressV(x), AddressV(y)], [Addresses(first), Addresses(second)];
    AddressListed(first, x);
    AddressListed(second, y);
    assert Satisfies(fields, rules) <==>
      forall i :: 0 <= i < 2 ==> |rules[i]| == 0 || fields[i] in rules[i];
    assert rules[0] == Addresses(first) && rules[1] == Addresses(second);
  }

  /** A transfer or approval is selected by the query for its kind exactly when both its addresses are asked for. */
  lemma TokenSelected(h: TokenReader.Hashes, e: TokenReader.TokenEvent, from: seq<Address>, to: seq<Address>)
    requires TokenReader.InRange(e)
    ensures TopicsMatch(TokenReader.LogOf(h, e),
                        QueryTopics(TokenReader.AbiOf(h, e).id, [Addresses(from), Addresses(to)])) <==>
      match e
      case Transfer(t) => Allows(from, t.from) && Allows(to, t.to)
      case Approval(a) => Allows(from, a.tokenOwner) && Allows(to, a.spender)
  {
    hide TopicsMatch, QueryTopics, Satisfies, EncodeLog, Allows, RuleFor, Addresses;
    var x := if e.Transfer? then e.t.from else e.a.tokenOwner;
    var y := if e.Transfer? then e.t.to else e.a.spender;
    assert Pick(TokenReader.ValuesIn(e), [0, 1]) == [AddressV(x), AddressV(y)];
    AddressesFor(from);
    AddressesFor(to);
    TwoRules(x, y, from, to);
    SelectsRecords(TokenReader.AbiOf(h, e), TokenReader.ValuesIn(e), [Addresses(from), Addresses(to)]);
  }

  lemma ThreeRules(x: Address, y: Address, z: Word, maker: seq<Address>, feeRecipient: seq<Address>, tokens: seq<Word>)
    ensures Satisfies([AddressV(x), AddressV(y), Bytes32V(z)],
                      [Addresses(maker), Addresses(feeRecipient), Words32(tokens)])
       <==> Allows(maker, x) && Allows(feeRecipient, y) && Allows(tokens, z)
  {
    var fields := [AddressV(x), AddressV(y), Bytes32V(z)];
    var rules := [Addresses(maker), Addresses(feeRecipient), Words32(tokens)];
    AddressListed(maker, x);
    AddressListed(feeRecipient, y);
    WordListed(tokens, z);
    assert Satisfies(fields, rules) <==>
      forall i :: 0 <= i < 3 ==> |rules[i]| == 0 || fields[i] in rules[i];
    assert rules[0] == Addresses(maker) && rules[1] == Addresses(feeRecipient) && rules[2] == Words32(tokens);
  }

  /** A fill is selected by the query for fills exactly when its three indexed fields are asked for. */
  lemma FillSelected(h: ExchangeReader.Hashes, f: ExchangeReader.LogFill,
                     maker: seq<Address>, feeRecipient: seq<Address>, tokens: seq<Word>)
    requires ExchangeReader.InRange(ExchangeReader.Fill(f))
    ensures TopicsMatch(ExchangeReader.LogOf(h, ExchangeReader.Fill(f)),
                     QueryTopics(h.fill, [Addresses(maker), Addresses(feeRecipient), Words32(tokens)]))
       <==> Allows(maker, f.maker) && Allows(feeRecipient, f.feeRecipient) && Allows(tokens, f.tokens)
  {
    hide TopicsMatch, QueryTopics, Satisfies, EncodeLog, Allows, RuleFor, Addresses, Words32;
    var abi, vs := ExchangeReader.KindAbi(h, ExchangeReader.FillKind), ExchangeReader.FillValues(f);
    assert Pick(vs, abi.topicArgs) == [AddressV(f.maker), AddressV(f.feeRecipient), Bytes32V(f.tokens)];
    AddressesFor(maker);
    AddressesFor(feeRecipient);
    WordsFor(tokens);
    ThreeRules(f.maker, f.feeRecipient, f.tokens, maker, feeRecipient, tokens);
    SelectsRecords(abi, vs, [Addresses(maker), Addresses(feeRecipient), Words32(tokens)]);
  }

  /** The same for cancellations. */
  lemma CancelSelected(h: ExchangeReader.Hashes, c: ExchangeReader.LogCancel,
                       maker: seq<Address>, feeRecipient: seq<Address>, tokens: seq<Word>)
    requires ExchangeReader.InRange(ExchangeReader.Cancelled(c))
    ensures TopicsMatch(ExchangeReader.LogOf(h, ExchangeReader.Cancelled(c)),
                     QueryTopics(h.cancel, [Addresses(maker), Addresses(feeRecipient), Words32(tokens)]))
       <==> Allows(maker, c.maker) && Allows(feeRecipient, c.feeRecipient) && Allows(tokens, c.tokens)
  {
    hide TopicsMatch, QueryTopics, Satisfies, EncodeLog, Allows, RuleFor, Addresses, Words32;
    var abi, vs := ExchangeReader.KindAbi(h, ExchangeReader.CancelKind), ExchangeReader.CancelValues(c);
    assert Pick(vs, abi.topicArgs) == [AddressV(c.maker), AddressV(c.feeRecipient), Bytes32V(c.tokens)];
    AddressesFor(maker);
    AddressesFor(feeRecipient);
    WordsFor(tokens);
    ThreeRules(c.maker, c.feeRecipient, c.tokens, maker, feeRecipient, tokens);
    SelectsRecords(abi, vs, [Addresses(maker), Addresses(feeRecipient), Words32(tokens)]);
  }
}
