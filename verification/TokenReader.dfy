/** The ERC-20 reader: `Transfer` and `Approval` logs. */
module TokenReader {
  import opened Positional
  import opened Abi
  import opened Hex
  import opened LogReading
  import opened Subscriptions

  /** The events' hashes; the reader computes them with Keccak, of which only this is used: they differ. */
  datatype Hashes = Hashes(transfer: Word, approval: Word) {
    predicate Distinct() {
      transfer != approval
    }
  }

  datatype LogTransfer = LogTransfer(from: Address, to: Address, tokens: nat)

  datatype LogApproval = LogApproval(tokenOwner: Address, spender: Address, tokens: nat)

  datatype TokenEvent = Transfer(t: LogTransfer) | Approval(a: LogApproval)

  predicate InRange(e: TokenEvent) {
    (if e.Transfer? then e.t.tokens else e.a.tokens) < Pow(256, 32)
  }

  /** Both events have two indexed addresses and an amount. */
  function TokenAbi(id: Word): (e: EventAbi)
    ensures e.Valid()
  {
    EventAbi(id, [AddressTy, AddressTy, Uint256Ty], [0, 1], [2])
  }

  function AbiOf(h: Hashes, e: TokenEvent): (abi: EventAbi)
    ensures abi.Valid()
  {
    TokenAbi(if e.Transfer? then h.transfer else h.approval)
  }

  function ValuesIn(e: TokenEvent): seq<Value> {
    match e
    case Transfer(t) => [AddressV(t.from), AddressV(t.to), UintV(t.tokens)]
    case Approval(a) => [AddressV(a.tokenOwner), AddressV(a.spender), UintV(a.tokens)]
  }

  /** The log the contract emits. */
  function LogOf(h: Hashes, e: TokenEvent): Log
    requires InRange(e)
  {
    EncodeLog(AbiOf(h, e), ValuesIn(e))
  }

  /** What the body of the loop does with one log. */
  function Step(h: Hashes, log: Log): Outcome<TokenEvent> {
    if |log.topics| == 0 then Halted(IndexPanic) else
    var topic0 := Encode0x(log.topics[0]);
    if topic0 == Encode0x(h.transfer) then
      match UnpackData(TokenAbi(h.transfer), log.data)
      case Failed(_) => Halted(FatalError)
      case Values(vs) =>
        if |log.topics| < 3 then Halted(IndexPanic)
        else Shown(Transfer(LogTransfer(TopicAddress(log, 1), TopicAddress(log, 2), vs[0].n)))
    else if topic0 == Encode0x(h.approval) then
      match UnpackData(TokenAbi(h.approval), log.data)
      case Failed(_) => Halted(FatalError)
      case Values(vs) =>
        if |log.topics| < 3 then Halted(IndexPanic)
        else Shown(Approval(LogApproval(TopicAddress(log, 1), TopicAddress(log, 2), vs[0].n)))
    else Skipped
  }

  function Reader(h: Hashes): Log -> Outcome<TokenEvent> {
    log => Step(h, log)
  }

  /** A log of one of the two kinds that the program knows. */
  predicate IsKnown(h: Hashes, log: Log) {
    |log.topics| > 0 && (log.topics[0] == h.transfer || log.topics[0] == h.approval)
  }

  /**
    The body of the loop: a zero struct, filled from the data, then its address fields
    overwritten. Which logs it skips, stops at or shows; and what is shown is what the
    generated binding makes of the log's first three topics.
  */
  method ReadLog(h: Hashes, log: Log) returns (r: Outcome<TokenEvent>)
    ensures r == Step(h, log)
    ensures r == Skipped <==> |log.topics| > 0 && !IsKnown(h, log)
    ensures r == Halted(FatalError) <==> IsKnown(h, log) && |log.data| < 32
    ensures r == Halted(IndexPanic) <==> |log.topics| == 0 || (IsKnown(h, log) && |log.data| >= 32 && |log.topics| < 3)
    ensures r.Shown? && h.Distinct() ==>
      |log.topics| >= 3 && UnpackLog(AbiOf(h, r.event), FirstTopics(log, 3)) == Unpacked(ValuesIn(r.event), None)
  {
    hide AbiOf, ValuesIn, FirstTopics, UnpackLog, HexToAddress;
    StepOutcome(h, log);
    if Step(h, log).Shown? && h.Distinct() {
      ShownIff(h, log, Step(h, log).event);
    }
    if |log.topics| == 0 {
      return Halted(IndexPanic);
    }
    var topic0 := Encode0x(log.topics[0]);
    if topic0 == Encode0x(h.transfer) {
      var transferEvent := LogTransfer(Zeros(20), Zeros(20), 0);
      var unpacked := UnpackData(TokenAbi(h.transfer), log.data);
      if unpacked.Failed? {
        return Halted(FatalError);
      }
      transferEvent := transferEvent.(tokens := unpacked.vs[0].n);
      if |log.topics| < 3 {
        return Halted(IndexPanic);
      }
      transferEvent := transferEvent.(from := TopicAddress(log, 1));
      transferEvent := transferEvent.(to := TopicAddress(log, 2));
      return Shown(Transfer(transferEvent));
    } else if topic0 == Encode0x(h.approval) {
      var approvalEvent := LogApproval(Zeros(20), Zeros(20), 0);
      var unpacked := UnpackData(TokenAbi(h.approval), log.data);
      if unpacked.Failed? {
        return Halted(FatalError);
      }
      approvalEvent := approvalEvent.(tokens := unpacked.vs[0].n);
      if |log.topics| < 3 {
        return Halted(IndexPanic);
      }
      approvalEvent := approvalEvent.(tokenOwner := TopicAddress(log, 1));
      approvalEvent := approvalEvent.(spender := TopicAddress(log, 2));
      return Shown(Approval(approvalEvent));
    }
    return Skipped;
  }

  method ReadLogs(h: Hashes, logs: seq<Log>) returns (shown: seq<TokenEvent>, halt: Option<Why>)
    ensures Reading(shown, halt) == ReadAll(Reader(h), logs)
  {
    hide Step, ReadAll;
    shown := [];
    assert logs[0..] == logs;
    for i := 0 to |logs|
      invariant ReadAll(Reader(h), logs)
             == Reading(shown + ReadAll(Reader(h), logs[i..]).shown, ReadAll(Reader(h), logs[i..]).halt)
    {
      ReadStep(Reader(h), logs, i);
      var r := ReadLog(h, logs[i]);
      match r {
        case Halted(why) =>
          return shown, Some(why);
        case Skipped =>
        case Shown(e) =>
          shown := shown + [e];
      }
    }
    assert logs[|logs|..] == [];
    ReadNone(Reader(h));
    return shown, None;
  }

  lemma StepOutcome(h: Hashes, log: Log)
    ensures var r := Step(h, log);
            && (r == Skipped <==> |log.topics| > 0 && !IsKnown(h, log))
            && (r == Halted(FatalError) <==> IsKnown(h, log) && |log.data| < 32)
            && (r == Halted(IndexPanic) <==>
                  |log.topics| == 0 || (IsKnown(h, log) && |log.data| >= 32 && |log.topics| < 3))
            && (r.Shown? <==> IsKnown(h, log) && |log.data| >= 32 && |log.topics| >= 3)
  {
    hide HexToAddress, Encode0x;
    if |log.topics| > 0 {
      HexInjective(log.topics[0], h.transfer);
      HexInjective(log.topics[0], h.approval);
    }
  }

  /** The event with the given fields. */
  function EventOf(transfer: bool, vs: seq<Value>): TokenEvent
    requires AllMatch(vs, [AddressTy, AddressTy, Uint256Ty])
  {
    if transfer then Transfer(LogTransfer(vs[0].address, vs[1].address, vs[2].n))
    else Approval(LogApproval(vs[0].address, vs[1].address, vs[2].n))
  }

  lemma FieldsOfEvent(transfer: bool, vs: seq<Value>)
    requires AllMatch(vs, [AddressTy, AddressTy, Uint256Ty])
    ensures ValuesIn(EventOf(transfer, vs)) == vs && EventOf(transfer, vs).Transfer? == transfer
  {
  }

  lemma EventOfFields(e: TokenEvent)
    ensures AllMatch(ValuesIn(e), [AddressTy, AddressTy, Uint256Ty]) && EventOf(e.Transfer?, ValuesIn(e)) == e
  {
  }

  /** Both cases of the switch read a record and make an event of it. */
  lemma StepReads(h: Hashes, log: Log)
    requires IsKnown(h, log)
    ensures match ReadRecord(TokenAbi(log.topics[0]), log)
            case Halted(why) => Step(h, log) == Halted(why)
            case Skipped => false
            case Shown(vs) =>
              && AllMatch(vs, [AddressTy, AddressTy, Uint256Ty])
              && Step(h, log) == Shown(EventOf(log.topics[0] == h.transfer, vs))
  {
    hide Encode0x, Merge, TopicAddress;
    var abi := TokenAbi(log.topics[0]);
    HexInjective(log.topics[0], h.transfer);
    HexInjective(log.topics[0], h.approval);
    if ReadRecord(abi, log).Shown? {
      var vs := ReadRecord(abi, log).event;
      ReadRecordParts(abi, log);
      TopicAddressIs(log, 1);
      TopicAddressIs(log, 2);
      assert vs[0] == Pick(vs, abi.topicArgs)[0] && vs[1] == Pick(vs, abi.topicArgs)[1];
      assert vs[2] == Pick(vs, abi.dataArgs)[0];
    }
  }

  /** What is shown, by the first topic. */
  lemma StepShows(h: Hashes, log: Log, e: TokenEvent)
    requires h.Distinct()
    ensures Step(h, log) == Shown(e) <==>
      |log.topics| > 0 && log.topics[0] == AbiOf(h, e).id && ReadRecord(AbiOf(h, e), log) == Shown(ValuesIn(e))
  {
    hide Step, ReadRecord, ValuesIn, EventOf;
    StepOutcome(h, log);
    EventOfFields(e);
    if IsKnown(h, log) {
      StepReads(h, log);
      if ReadRecord(TokenAbi(log.topics[0]), log).Shown? {
        FieldsOfEvent(log.topics[0] == h.transfer, ReadRecord(TokenAbi(log.topics[0]), log).event);
      }
    }
  }

  /**
    For every log: the reader shows an event exactly when there is data and the binding
    unpacks the log's first three topics to it.
  */
  lemma ShownIff(h: Hashes, log: Log, e: TokenEvent)
    requires h.Distinct()
    ensures Step(h, log) == Shown(e) <==>
      && |log.data| > 0 && |log.topics| >= 3
      && UnpackLog(AbiOf(h, e), FirstTopics(log, 3)) == Unpacked(ValuesIn(e), None)
  {
    hide UnpackLog, ValuesIn, Step, ReadRecord;
    StepShows(h, log, e);
    ReadRecordOutcome(AbiOf(h, e), log);
    if |log.topics| >= 3 && |log.data| > 0 {
      UnpackLogAccepts(AbiOf(h, e), FirstTopics(log, 3));
      if log.topics[0] == AbiOf(h, e).id {
        ReadRecordIff(AbiOf(h, e), log, ValuesIn(e));
      }
    }
  }

  /** Reader and binding make the same of a log, whatever the event. */
  ghost predicate Agree(h: Hashes, log: Log) {
    forall e: TokenEvent :: Step(h, log) == Shown(e) <==> UnpackLog(AbiOf(h, e), log) == Unpacked(ValuesIn(e), None)
  }

  /**
    For every log: they agree unless it is of a known kind and either has no data, which the
    binding takes for an amount of zero, or has more topics than the reader looks at.
  */
  lemma AgreesWithBinding(h: Hashes, log: Log)
    requires h.Distinct()
    ensures Agree(h, log) <==> !(IsKnown(h, log) && Disputed(TokenAbi(log.topics[0]), log))
  {
    hide UnpackLog, ValuesIn, AbiOf, Step, Disputed, EventOf, ReadRecord, TokenAbi;
    if IsKnown(h, log) && Disputed(TokenAbi(log.topics[0]), log) {
      KnownDiffers(h, log);
    } else {
      forall e: TokenEvent
        ensures Step(h, log) == Shown(e) <==> UnpackLog(AbiOf(h, e), log) == Unpacked(ValuesIn(e), None)
      {
        AgreeOn(h, log, e);
      }
    }
  }

  lemma AgreeOn(h: Hashes, log: Log, e: TokenEvent)
    requires h.Distinct() && !(IsKnown(h, log) && Disputed(TokenAbi(log.topics[0]), log))
    ensures Step(h, log) == Shown(e) <==> UnpackLog(AbiOf(h, e), log) == Unpacked(ValuesIn(e), None)
  {
    hide UnpackLog, ValuesIn, Step, ReadRecord, Disputed;
    StepShows(h, log, e);
    UnpackLogAccepts(AbiOf(h, e), log);
    if |log.topics| > 0 && log.topics[0] == AbiOf(h, e).id {
      RecordsAgree(AbiOf(h, e), log, ValuesIn(e));
    }
  }

  lemma KnownDiffers(h: Hashes, log: Log)
    requires h.Distinct() && IsKnown(h, log) && Disputed(TokenAbi(log.topics[0]), log)
    ensures !Agree(h, log)
  {
    hide UnpackLog, ValuesIn, Step, ReadRecord, Disputed, EventOf;
    var vs := RecordsDiffer(TokenAbi(log.topics[0]), log);
    var e := EventOf(log.topics[0] == h.transfer, vs);
    FieldsOfEvent(log.topics[0] == h.transfer, vs);
    StepShows(h, log, e);
    assert !(Step(h, log) == Shown(e) <==> UnpackLog(AbiOf(h, e), log) == Unpacked(ValuesIn(e), None));
  }

  lemma Logged(h: Hashes, e: TokenEvent)
    requires InRange(e)
    ensures |LogOf(h, e).topics| == 3 && |LogOf(h, e).data| > 0
    ensures UnpackLog(AbiOf(h, e), LogOf(h, e)) == Unpacked(ValuesIn(e), None)
  {
    hide UnpackLog;
    LogRoundTrip(AbiOf(h, e), ValuesIn(e));
  }

  /** The logs as the token contract declares the events: two indexed addresses, and the amount as data. */
  lemma TokenLayout(h: Hashes, e: TokenEvent)
    requires InRange(e)
    ensures LogOf(h, e).topics == match e
      case Transfer(t) => [h.transfer, Zeros(12) + t.from, Zeros(12) + t.to]
      case Approval(a) => [h.approval, Zeros(12) + a.tokenOwner, Zeros(12) + a.spender]
    ensures LogOf(h, e).data == Fixed(256, if e.Transfer? then e.t.tokens else e.a.tokens, 32)
  {
    hide Pow, EncodeLog, EncodeWord, DataWords, Fixed;
    var vs, log := ValuesIn(e), LogOf(h, e);
    LogLayout(AbiOf(h, e), vs);
    WordHolds(vs[0], AddressTy);
    WordHolds(vs[1], AddressTy);
    assert log.topics == [log.topics[0], log.topics[1], log.topics[2]];
    AmountWord(log.data, vs[2].n);
  }

  lemma AmountWord(data: seq<byte>, n: nat)
    requires |data| == 32 && n < Pow(256, 32) && DataWords(data)[0] == EncodeWord(UintV(n), Uint256Ty)
    ensures data == Fixed(256, n, 32)
  {
    hide Pow;
    assert data == DataWords(data)[0];
  }

  /** Every event survives the trip through its log, and its log is never read as the other kind. */
  lemma EventRoundTrip(h: Hashes, e: TokenEvent)
    requires h.Distinct() && InRange(e)
    ensures Step(h, LogOf(h, e)) == Shown(e)
  {
    hide UnpackLog, Step, LogOf, AbiOf, ValuesIn;
    Logged(h, e);
    ShownIff(h, LogOf(h, e), e);
    assert FirstTopics(LogOf(h, e), 3) == LogOf(h, e);
  }

  /** Logs with a first topic of neither kind. */
  predicate IsOther(h: Hashes, log: Log) {
    |log.topics| > 0 && !IsKnown(h, log)
  }

  predicate Readable(h: Hashes, entry: Entry<TokenEvent>) {
    match entry
    case Known(e) => InRange(e)
    case Other(log) => IsOther(h, log)
  }

  function LogOfEntry(h: Hashes, entry: Entry<TokenEvent>): Log
    requires Readable(h, entry)
  {
    match entry
    case Known(e) => LogOf(h, e)
    case Other(log) => log
  }

  function LogsOf(h: Hashes, entries: seq<Entry<TokenEvent>>): seq<Log>
    requires forall i :: 0 <= i < |entries| ==> Readable(h, entries[i])
  {
    seq(|entries|, i requires 0 <= i < |entries| => LogOfEntry(h, entries[i]))
  }

  /** A block of logs with the events' logs anywhere among others reads back as the events, in order. */
  lemma ListRoundTrip(h: Hashes, entries: seq<Entry<TokenEvent>>)
    requires h.Distinct() && forall i :: 0 <= i < |entries| ==> Readable(h, entries[i])
    ensures ReadAll(Reader(h), LogsOf(h, entries)) == Reading(EventsOf(entries), None)
  {
    var logs := LogsOf(h, entries);
    forall i | 0 <= i < |logs| ensures Written(Reader(h), entries[i], logs[i]) {
      EntryRoundTrip(h, entries[i]);
    }
    ReadsInOrder(Reader(h), entries, logs, []);
    assert logs + [] == logs;
    assert EventsOf(entries) + [] == EventsOf(entries);
  }

  lemma EntryRoundTrip(h: Hashes, entry: Entry<TokenEvent>)
    requires h.Distinct() && Readable(h, entry)
    ensures Written(Reader(h), entry, LogOfEntry(h, entry))
  {
    match entry
    case Known(e) => EventRoundTrip(h, e);
    case Other(log) => StepOutcome(h, log);
  }
}
