/** The 0x protocol reader: `LogFill`, `LogCancel` and `LogError` logs. */
module ExchangeReader {
  import opened Positional
  import opened Abi
  import opened Hex
  import opened LogReading
  import opened Subscriptions

  datatype Hashes = Hashes(fill: Word, cancel: Word, error: Word) {
    predicate Distinct() {
      fill != cancel && fill != error && cancel != error
    }
  }

  /** The three constants of the reader. */
  const HASHES := Hashes(
    HashOf(0x0d0b9391970d9a25552f37d436d2aae2925e2bfe1b2a923754bada030c498cb3),
    HashOf(0x67d66f160bc93d925d05dae1794c90d2d6d6688b29b84ff069398a9b04587131),
    HashOf(0x36d86c59e00bd73dc19ba3adfe068e4b64ac7e92be35546adeddf1b956a87e90))

  lemma HashesDistinct()
    ensures HASHES.Distinct()
  {
    hide Eval, HashOf;
    assert Eval(256, HASHES.fill) != Eval(256, HASHES.cancel);
    assert Eval(256, HASHES.fill) != Eval(256, HASHES.error);
    assert Eval(256, HASHES.cancel) != Eval(256, HASHES.error);
  }

  datatype LogFill = LogFill(
    maker: Address, taker: Address, feeRecipient: Address, makerToken: Address, takerToken: Address,
    filledMakerTokenAmount: nat, filledTakerTokenAmount: nat, paidMakerFee: nat, paidTakerFee: nat,
    tokens: Word, orderHash: Word)

  datatype LogCancel = LogCancel(
    maker: Address, feeRecipient: Address, makerToken: Address, takerToken: Address,
    cancelledMakerTokenAmount: nat, cancelledTakerTokenAmount: nat,
    tokens: Word, orderHash: Word)

  datatype LogError = LogError(errorID: byte, orderHash: Word)

  datatype ExchangeEvent = Fill(f: LogFill) | Cancelled(c: LogCancel) | Error(e: LogError)

  predicate InRange(e: ExchangeEvent) {
    var limit := Pow(256, 32);
    match e
    case Fill(f) =>
      && f.filledMakerTokenAmount < limit && f.filledTakerTokenAmount < limit
      && f.paidMakerFee < limit && f.paidTakerFee < limit
    case Cancelled(c) => c.cancelledMakerTokenAmount < limit && c.cancelledTakerTokenAmount < limit
    case Error(_) => true
  }

  /** The two events that the reader can show. */
  datatype Kind = FillKind | CancelKind

  function Types(k: Kind): seq<Type> {
    match k
    case FillKind =>
      [AddressTy, AddressTy, AddressTy, AddressTy, AddressTy,
       Uint256Ty, Uint256Ty, Uint256Ty, Uint256Ty, Bytes32Ty, Bytes32Ty]
    case CancelKind =>
      [AddressTy, AddressTy, AddressTy, AddressTy, Uint256Ty, Uint256Ty, Bytes32Ty, Bytes32Ty]
  }

  function FillAbi(h: Hashes): (e: EventAbi)
    ensures e.Valid()
  {
    EventAbi(h.fill, Types(FillKind), [0, 2, 9], [1, 3, 4, 5, 6, 7, 8, 10])
  }

  function CancelAbi(h: Hashes): (e: EventAbi)
    ensures e.Valid()
  {
    EventAbi(h.cancel, Types(CancelKind), [0, 1, 6], [2, 3, 4, 5, 7])
  }

  /** Both have three indexed arguments. */
  function KindAbi(h: Hashes, k: Kind): (e: EventAbi)
    ensures e.Valid() && e.types == Types(k) && |e.topicArgs| == 3
    ensures e.id == (if k.FillKind? then h.fill else h.cancel) && |e.dataArgs| == if k.FillKind? then 8 else 5
  {
    if k.FillKind? then FillAbi(h) else CancelAbi(h)
  }

  function ErrorAbi(h: Hashes): (e: EventAbi)
    ensures e.Valid()
  {
    EventAbi(h.error, [Uint8Ty, Bytes32Ty], [0, 1], [])
  }

  function FillValues(f: LogFill): seq<Value> {
    [AddressV(f.maker), AddressV(f.taker), AddressV(f.feeRecipient), AddressV(f.makerToken), AddressV(f.takerToken),
     UintV(f.filledMakerTokenAmount), UintV(f.filledTakerTokenAmount), UintV(f.paidMakerFee), UintV(f.paidTakerFee),
     Bytes32V(f.tokens), Bytes32V(f.orderHash)]
  }

  function CancelValues(c: LogCancel): seq<Value> {
    [AddressV(c.maker), AddressV(c.feeRecipient), AddressV(c.makerToken), AddressV(c.takerToken),
     UintV(c.cancelledMakerTokenAmount), UintV(c.cancelledTakerTokenAmount), Bytes32V(c.tokens), Bytes32V(c.orderHash)]
  }

  function KindOf(e: ExchangeEvent): Kind
    requires !e.Error?
  {
    if e.Fill? then FillKind else CancelKind
  }

  function AbiOf(h: Hashes, e: ExchangeEvent): (abi: EventAbi)
    ensures abi.Valid()
  {
    if e.Error? then ErrorAbi(h) else KindAbi(h, KindOf(e))
  }

  /** The event with the given fields. */
  function EventOf(k: Kind, vs: seq<Value>): ExchangeEvent
    requires AllMatch(vs, Types(k))
  {
    match k
    case FillKind =>
      Fill(LogFill(vs[0].address, vs[1].address, vs[2].address, vs[3].address, vs[4].address,
                   vs[5].n, vs[6].n, vs[7].n, vs[8].n, vs[9].word, vs[10].word))
    case CancelKind =>
      Cancelled(LogCancel(vs[0].address, vs[1].address, vs[2].address, vs[3].address,
                          vs[4].n, vs[5].n, vs[6].word, vs[7].word))
  }

  lemma FieldsOfEvent(k: Kind, vs: seq<Value>)
    requires AllMatch(vs, Types(k))
    ensures var e := EventOf(k, vs); !e.Error? && KindOf(e) == k && ValuesIn(e) == vs
  {
  }

  lemma EventOfFields(e: ExchangeEvent)
    requires !e.Error?
    ensures AllMatch(ValuesIn(e), Types(KindOf(e))) && EventOf(KindOf(e), ValuesIn(e)) == e
  {
  }

  function ValuesIn(e: ExchangeEvent): seq<Value> {
    match e
    case Fill(f) => FillValues(f)
    case Cancelled(c) => CancelValues(c)
    case Error(x) => [UintV(x.errorID), Bytes32V(x.orderHash)]
  }

  /** The log the contract emits. */
  function LogOf(h: Hashes, e: ExchangeEvent): Log
    requires InRange(e)
  {
    Typed(h, e);
    EncodeLog(AbiOf(h, e), ValuesIn(e))
  }

  lemma Typed(h: Hashes, e: ExchangeEvent)
    requires InRange(e)
    ensures WellTyped(AbiOf(h, e).types, ValuesIn(e))
  {
    hide Pow;
  }

  predicate AllHexDigits(s: string) {
    forall i :: 0 <= i < |s| ==> IsHexDigit(s[i])
  }

  /** `strconv.ParseInt(s, 16, 64)`: an optional sign and hexadecimal digits, with no prefix. */
  function ParseInt16(s: string): Option<int> {
    var digits := if |s| > 0 && (s[0] == '+' || s[0] == '-') then s[1..] else s;
    if |digits| == 0 || !AllHexDigits(digits) then None
    else
      var n: int := Eval(16, seq(|digits|, i requires 0 <= i < |digits| => DigitValue(digits[i])));
      var v := if s[0] == '-' then -n else n;
      if -0x8000_0000_0000_0000 <= v < 0x8000_0000_0000_0000 then Some(v) else None
  }

  function ReadFill(h: Hashes, log: Log): Outcome<ExchangeEvent> {
    match UnpackData(KindAbi(h, FillKind), log.data)
    case Failed(_) => Halted(FatalError)
    case Values(vs) =>
      if |log.topics| < 4 then Halted(IndexPanic)
      else Shown(Fill(LogFill(
        TopicAddress(log, 1), vs[0].address, TopicAddress(log, 2), vs[1].address, vs[2].address,
        vs[3].n, vs[4].n, vs[5].n, vs[6].n, log.topics[3], vs[7].word)))
  }

  function ReadCancel(h: Hashes, log: Log): Outcome<ExchangeEvent> {
    match UnpackData(KindAbi(h, CancelKind), log.data)
    case Failed(_) => Halted(FatalError)
    case Values(vs) =>
      if |log.topics| < 4 then Halted(IndexPanic)
      else Shown(Cancelled(LogCancel(
        TopicAddress(log, 1), TopicAddress(log, 2), vs[0].address, vs[1].address,
        vs[2].n, vs[3].n, log.topics[3], vs[4].word)))
  }

  function ReadError(log: Log): Outcome<ExchangeEvent> {
    if |log.topics| < 2 then Halted(IndexPanic)
    else match ParseInt16(Encode0x(log.topics[1]))
      case None => Halted(FatalError)
      case Some(id) => if |log.topics| < 3 then Halted(IndexPanic) else Shown(Error(LogError(id % 256, log.topics[2])))
  }

  /** What the body of the loop does with one log. */
  function Step(h: Hashes, log: Log): Outcome<ExchangeEvent> {
    if |log.topics| == 0 then Halted(IndexPanic) else
    var topic0 := Encode0x(log.topics[0]);
    if topic0 == Encode0x(h.fill) then ReadFill(h, log)
    else if topic0 == Encode0x(h.cancel) then ReadCancel(h, log)
    else if topic0 == Encode0x(h.error) then ReadError(log)
    else Skipped
  }

  function Reader(h: Hashes): Log -> Outcome<ExchangeEvent> {
    log => Step(h, log)
  }

  /** What the reader does with a log of one of the two kinds. */
  function ReadKind(h: Hashes, k: Kind, log: Log): Outcome<ExchangeEvent> {
    if k.FillKind? then ReadFill(h, log) else ReadCancel(h, log)
  }

  /**
    `case logFillEvent.Hex()`: the struct is filled from the data, then its indexed fields are
    assigned. What is shown is what the generated binding makes of topics 1 to 3 and the data.
  */
  method ShowFill(h: Hashes, log: Log) returns (r: Outcome<ExchangeEvent>)
    ensures r == ReadFill(h, log)
    ensures r == Halted(FatalError) <==> |log.data| < 256
    ensures r == Halted(IndexPanic) <==> |log.data| >= 256 && |log.topics| < 4
    ensures r.Shown? ==>
      && |log.topics| >= 4 && r.event.Fill?
      && UnpackLog(KindAbi(h, FillKind), AsLog(KindAbi(h, FillKind), log)) == Unpacked(ValuesIn(r.event), None)
  {
    hide UnpackLog, UnpackData, TopicAddress, AsLog, KindAbi, ValuesIn;
    KindOutcome(h, FillKind, log);
    var none: Address := Zeros(20);
    var blank: Word := Zeros(32);
    var unpacked := UnpackData(KindAbi(h, FillKind), log.data);
    if unpacked.Failed? {
      return Halted(FatalError);
    }
    var vs := unpacked.vs;
    DataTypes(h, FillKind, log.data, vs);
    var fillEvent := LogFill(none, vs[0].address, none, vs[1].address, vs[2].address,
                             vs[3].n, vs[4].n, vs[5].n, vs[6].n, blank, vs[7].word);
    if |log.topics| < 4 {
      return Halted(IndexPanic);
    }
    fillEvent := fillEvent.(maker := TopicAddress(log, 1));
    fillEvent := fillEvent.(feeRecipient := TopicAddress(log, 2));
    fillEvent := fillEvent.(tokens := log.topics[3]);
    return Shown(Fill(fillEvent));
  }

  /** `case logCancelEvent.Hex()`, likewise. */
  method ShowCancel(h: Hashes, log: Log) returns (r: Outcome<ExchangeEvent>)
    ensures r == ReadCancel(h, log)
    ensures r == Halted(FatalError) <==> |log.data| < 160
    ensures r == Halted(IndexPanic) <==> |log.data| >= 160 && |log.topics| < 4
    ensures r.Shown? ==>
      && |log.topics| >= 4 && r.event.Cancelled?
      && UnpackLog(KindAbi(h, CancelKind), AsLog(KindAbi(h, CancelKind), log)) == Unpacked(ValuesIn(r.event), None)
  {
    hide UnpackLog, UnpackData, TopicAddress, AsLog, KindAbi, ValuesIn;
    KindOutcome(h, CancelKind, log);
    var none: Address := Zeros(20);
    var blank: Word := Zeros(32);
    var unpacked := UnpackData(KindAbi(h, CancelKind), log.data);
    if unpacked.Failed? {
      return Halted(FatalError);
    }
    var vs := unpacked.vs;
    DataTypes(h, CancelKind, log.data, vs);
    var cancelEvent := LogCancel(none, none, vs[0].address, vs[1].address, vs[2].n, vs[3].n, blank, vs[4].word);
    if |log.topics| < 4 {
      return Halted(IndexPanic);
    }
    cancelEvent := cancelEvent.(maker := TopicAddress(log, 1));
    cancelEvent := cancelEvent.(feeRecipient := TopicAddress(log, 2));
    cancelEvent := cancelEvent.(tokens := log.topics[3]);
    return Shown(Cancelled(cancelEvent));
  }

  method ReadLog(h: Hashes, log: Log) returns (r: Outcome<ExchangeEvent>)
    ensures r == Step(h, log)
  {
    hide ReadFill, ReadCancel, ReadError, Encode0x, UnpackLog;
    if |log.topics| == 0 {
      return Halted(IndexPanic);
    }
    var topic0 := Encode0x(log.topics[0]);
    if topic0 == Encode0x(h.fill) {
      r := ShowFill(h, log);
    } else if topic0 == Encode0x(h.cancel) {
      r := ShowCancel(h, log);
    } else if topic0 == Encode0x(h.error) {
      r := ReadError(log);
    } else {
      r := Skipped;
    }
  }

  method ReadLogs(h: Hashes, logs: seq<Log>) returns (shown: seq<ExchangeEvent>, halt: Option<Why>)
    ensures Reading(shown, halt) == ReadAll(Reader(h), logs)
  {
    hide Step, ReadAll;
    shown := [];
    assert logs[0..] == logs;
    for i := 0 to |logs|
      invariant ReadAll(Reader(h), logs)
             == Reading(shown + ReadAll(Reader(h), logs[i..]).shown, ReadAll(Reader(h), logs[i..]).halt)
    {
      ReadStep(Reader(h), logs, i);
      var r := ReadLog(h, logs[i]);
      match r {
        case Halted(why) =>
          return shown, Some(why);
        case Skipped =>
        case Shown(e) =>
          shown := shown + [e];
      }
    }
    assert logs[|logs|..] == [];
    ReadNone(Reader(h));
    return shown, None;
  }

  /** The types of the fields that are not indexed. */
  lemma DataTypes(h: Hashes, k: Kind, data: seq<byte>, vs: seq<Value>)
    requires UnpackData(KindAbi(h, k), data) == Values(vs)
    ensures AllMatch(vs, if k.FillKind? then
        [AddressTy, AddressTy, AddressTy, Uint256Ty, Uint256Ty, Uint256Ty, Uint256Ty, Bytes32Ty]
      else [AddressTy, AddressTy, Uint256Ty, Uint256Ty, Bytes32Ty])
  {
    hide UnpackData;
    UnpackDataMatches(KindAbi(h, k), data);
    assert Pick(KindAbi(h, k).types, KindAbi(h, k).dataArgs) == if k.FillKind? then
        [AddressTy, AddressTy, AddressTy, Uint256Ty, Uint256Ty, Uint256Ty, Uint256Ty, Bytes32Ty]
      else [AddressTy, AddressTy, Uint256Ty, Uint256Ty, Bytes32Ty];
  }

  /** The indexed fields are an address, an address and a word. */
  lemma TopicFields(h: Hashes, k: Kind, log: Log)
    requires |log.topics| >= 4
    ensures ParseTopics(Pick(KindAbi(h, k).types, KindAbi(h, k).topicArgs), log.topics[1..4])
         == [AddressV(TopicAddress(log, 1)), AddressV(TopicAddress(log, 2)), Bytes32V(log.topics[3])]
  {
    hide TopicAddress;
    TopicAddressIs(log, 1);
    TopicAddressIs(log, 2);
    assert log.topics[1..4] == [log.topics[1], log.topics[2], log.topics[3]];
    assert Pick(KindAbi(h, k).types, KindAbi(h, k).topicArgs) == [AddressTy, AddressTy, Bytes32Ty];
  }

  /** Both cases of the switch read a record and make an event of it. */
  lemma KindReads(h: Hashes, k: Kind, log: Log)
    ensures match ReadRecord(KindAbi(h, k), log)
            case Halted(why) => ReadKind(h, k, log) == Halted(why)
            case Skipped => false
            case Shown(vs) => AllMatch(vs, Types(k)) && ReadKind(h, k, log) == Shown(EventOf(k, vs))
  {
    hide UnpackData, Merge, TopicAddress, EventOf, KindAbi;
    if ReadRecord(KindAbi(h, k), log).Shown? {
      var vs := ReadRecord(KindAbi(h, k), log).event;
      ReadRecordParts(KindAbi(h, k), log);
      TopicFields(h, k, log);
      Assigned(h, k, log, vs, UnpackData(KindAbi(h, k), log.data).vs);
    }
  }

  /** The struct that the assignments leave has the record's fields. */
  lemma Assigned(h: Hashes, k: Kind, log: Log, vs: seq<Value>, data: seq<Value>)
    requires |log.topics| >= 4 && AllMatch(vs, Types(k))
    requires UnpackData(KindAbi(h, k), log.data) == Values(data)
    requires Pick(vs, KindAbi(h, k).topicArgs)
          == [AddressV(TopicAddress(log, 1)), AddressV(TopicAddress(log, 2)), Bytes32V(log.topics[3])]
    requires Pick(vs, KindAbi(h, k).dataArgs) == data
    ensures ReadKind(h, k, log) == Shown(EventOf(k, vs))
  {
    hide UnpackData, TopicAddress;
    var topics := Pick(vs, KindAbi(h, k).topicArgs);
    if k.FillKind? {
      assert vs[0] == topics[0] && vs[2] == topics[1] && vs[9] == topics[2];
      assert vs[1] == data[0] && vs[3] == data[1] && vs[4] == data[2] && vs[5] == data[3];
      assert vs[6] == data[4] && vs[7] == data[5] && vs[8] == data[6] && vs[10] == data[7];
    } else {
      assert vs[0] == topics[0] && vs[1] == topics[1] && vs[6] == topics[2];
      assert vs[2] == data[0] && vs[3] == data[1] && vs[4] == data[2] && vs[5] == data[3] && vs[7] == data[4];
    }
  }

  lemma KindOutcome(h: Hashes, k: Kind, log: Log)
    ensures var r, size := ReadKind(h, k, log), 32 * |KindAbi(h, k).dataArgs|;
            && (r == Halted(FatalError) <==> |log.data| < size)
            && (r == Halted(IndexPanic) <==> |log.data| >= size && |log.topics| < 4)
            && (r.Shown? <==> |log.data| >= size && |log.topics| >= 4)
            && (r.Shown? ==>
                  && !r.event.Error? && KindOf(r.event) == k
                  && UnpackLog(KindAbi(h, k), AsLog(KindAbi(h, k), log)) == Unpacked(ValuesIn(r.event), None))
  {
    hide UnpackLog, ReadRecord, ReadKind, EventOf, ValuesIn, KindAbi, AsLog;
    var abi := KindAbi(h, k);
    KindReads(h, k, log);
    ReadRecordOutcome(abi, log);
    if ReadRecord(abi, log).Shown? {
      ReadRecordUnpacks(abi, log);
      FieldsOfEvent(k, ReadRecord(abi, log).event);
    }
  }

  /** An event is shown exactly when its fields are the record that is read. */
  lemma KindShownIff(h: Hashes, k: Kind, log: Log, e: ExchangeEvent)
    ensures ReadKind(h, k, log) == Shown(e) <==>
      !e.Error? && KindOf(e) == k && ReadRecord(KindAbi(h, k), log) == Shown(ValuesIn(e))
  {
    hide ReadRecord, ReadKind, EventOf, ValuesIn, KindAbi;
    KindReads(h, k, log);
    if ReadRecord(KindAbi(h, k), log).Shown? {
      FieldsOfEvent(k, ReadRecord(KindAbi(h, k), log).event);
    }
    if !e.Error? {
      EventOfFields(e);
    }
  }

  /** Which reader a log goes to. */
  lemma StepIs(h: Hashes, log: Log)
    requires h.Distinct() && |log.topics| > 0
    ensures Step(h, log) == if log.topics[0] == h.fill then ReadFill(h, log)
                            else if log.topics[0] == h.cancel then ReadCancel(h, log)
                            else if log.topics[0] == h.error then ReadError(log)
                            else Skipped
  {
    hide ReadFill, ReadCancel, ReadError, Encode0x;
    HexInjective(log.topics[0], h.fill);
    HexInjective(log.topics[0], h.cancel);
    HexInjective(log.topics[0], h.error);
  }

  /** For every log: skipped, fatal, out of range or shown, by first topic, data length and topic count. */
  lemma StepOutcome(h: Hashes, log: Log)
    requires h.Distinct()
    ensures Step(h, log) == Skipped <==>
      |log.topics| > 0 && log.topics[0] != h.fill && log.topics[0] != h.cancel && log.topics[0] != h.error
    ensures Step(h, log) == Halted(IndexPanic) <==>
      || |log.topics| == 0
      || (log.topics[0] == h.fill && |log.data| >= 256 && |log.topics| < 4)
      || (log.topics[0] == h.cancel && |log.data| >= 160 && |log.topics| < 4)
      || (log.topics[0] == h.error && |log.topics| < 2)
    ensures Step(h, log) == Halted(FatalError) <==>
      || (|log.topics| > 0 && log.topics[0] == h.fill && |log.data| < 256)
      || (|log.topics| > 0 && log.topics[0] == h.cancel && |log.data| < 160)
      || (|log.topics| > 1 && log.topics[0] == h.error)
  {
    hide ReadFill, ReadCancel, ReadError, UnpackLog, ValuesIn;
    if |log.topics| > 0 {
      StepIs(h, log);
      KindOutcome(h, FillKind, log);
      KindOutcome(h, CancelKind, log);
      ErrorHalts(h, log);
    }
  }

  /** The kind of a log, by its first topic. */
  function KindOfLog(h: Hashes, log: Log): Option<Kind> {
    if |log.topics| == 0 then None
    else if log.topics[0] == h.fill then Some(FillKind)
    else if log.topics[0] == h.cancel then Some(CancelKind)
    else None
  }

  /** What is shown, by the kind of the log; nothing but fills and cancellations ever is. */
  lemma StepShows(h: Hashes, log: Log, e: ExchangeEvent)
    requires h.Distinct()
    ensures Step(h, log) == Shown(e) <==>
      && !e.Error? && KindOfLog(h, log) == Some(KindOf(e))
      && ReadRecord(AbiOf(h, e), log) == Shown(ValuesIn(e))
  {
    hide ReadFill, ReadCancel, ReadError, ReadRecord, ValuesIn, KindAbi;
    if |log.topics| > 0 {
      StepIs(h, log);
      ErrorHalts(h, log);
      KindShownIff(h, FillKind, log, e);
      KindShownIff(h, CancelKind, log, e);
    }
  }

  /** A log that the binding accepts for an event has that event's hash. */
  lemma BindingAccepts(h: Hashes, log: Log, e: ExchangeEvent)
    requires h.Distinct()
    ensures UnpackLog(AbiOf(h, e), log).err.None? ==>
      && |log.topics| > 0 && log.topics[0] == AbiOf(h, e).id
      && if e.Error? then |log.topics| == 3 && |log.data| == 0 else KindOfLog(h, log) == Some(KindOf(e))
  {
    hide UnpackLog;
    UnpackLogAccepts(AbiOf(h, e), log);
  }

  /**
    For every log: the reader shows an event exactly when it is a fill or a cancellation, there
    is data, and the binding unpacks the log's first four topics to it.
  */
  lemma ShownIff(h: Hashes, log: Log, e: ExchangeEvent)
    requires h.Distinct()
    ensures Step(h, log) == Shown(e) <==>
      && !e.Error? && |log.data| > 0 && |log.topics| >= 4
      && UnpackLog(AbiOf(h, e), FirstTopics(log, 4)) == Unpacked(ValuesIn(e), None)
  {
    hide Step, ReadRecord, UnpackLog, ValuesIn, KindAbi;
    StepShows(h, log, e);
    if !e.Error? {
      ReadRecordOutcome(AbiOf(h, e), log);
      if |log.topics| >= 4 && |log.data| > 0 {
        BindingAccepts(h, FirstTopics(log, 4), e);
        if log.topics[0] == AbiOf(h, e).id {
          ReadRecordIff(AbiOf(h, e), log, ValuesIn(e));
        }
      }
    }
  }

  /** Reader and bindings make the same of a log, whatever the event. */
  ghost predicate Agree(h: Hashes, log: Log) {
    forall e: ExchangeEvent :: Step(h, log) == Shown(e) <==> UnpackLog(AbiOf(h, e), log) == Unpacked(ValuesIn(e), None)
  }

  /** An error log that the binding accepts, and the reader never shows. */
  predicate AcceptedError(h: Hashes, log: Log) {
    |log.topics| == 3 && log.topics[0] == h.error && |log.data| == 0
  }

  /**
    For every log, exactly when reader and bindings agree on it: when it is neither a fill or
    cancellation on which reading and unpacking differ, nor an error that the binding accepts.
  */
  lemma AgreesWithBinding(h: Hashes, log: Log)
    requires h.Distinct()
    ensures Agree(h, log) <==> !AcceptedError(h, log) && match KindOfLog(h, log)
                                                        case None => true
                                                        case Some(k) => !Disputed(KindAbi(h, k), log)
  {
    hide UnpackLog, ValuesIn, AbiOf, Step, KindAbi, Disputed;
    var kind := KindOfLog(h, log);
    if AcceptedError(h, log) {
      ErrorDiffers(h, log);
    } else if kind.Some? && Disputed(KindAbi(h, kind.value), log) {
      KindDiffers(h, kind.value, log);
    } else {
      forall e: ExchangeEvent
        ensures Step(h, log) == Shown(e) <==> UnpackLog(AbiOf(h, e), log) == Unpacked(ValuesIn(e), None)
      {
        AgreeOn(h, log, e);
      }
    }
  }

  lemma AgreeOn(h: Hashes, log: Log, e: ExchangeEvent)
    requires h.Distinct() && !AcceptedError(h, log)
    requires KindOfLog(h, log).Some? ==> !Disputed(KindAbi(h, KindOfLog(h, log).value), log)
    ensures Step(h, log) == Shown(e) <==> UnpackLog(AbiOf(h, e), log) == Unpacked(ValuesIn(e), None)
  {
    hide UnpackLog, Step, ValuesIn, ReadRecord, KindAbi, Disputed;
    StepShows(h, log, e);
    BindingAccepts(h, log, e);
    if !e.Error? && KindOfLog(h, log) == Some(KindOf(e)) {
      RecordsAgree(AbiOf(h, e), log, ValuesIn(e));
    }
  }

  lemma KindDiffers(h: Hashes, k: Kind, log: Log)
    requires h.Distinct() && KindOfLog(h, log) == Some(k) && Disputed(KindAbi(h, k), log)
    ensures !Agree(h, log)
  {
    hide UnpackLog, Step, ValuesIn, ReadRecord, KindAbi, EventOf;
    var vs := RecordsDiffer(KindAbi(h, k), log);
    var e := EventOf(k, vs);
    FieldsOfEvent(k, vs);
    StepShows(h, log, e);
    assert !(Step(h, log) == Shown(e) <==> UnpackLog(AbiOf(h, e), log) == Unpacked(ValuesIn(e), None));
  }

  lemma ErrorDiffers(h: Hashes, log: Log)
    requires h.Distinct() && AcceptedError(h, log)
    ensures !Agree(h, log)
  {
    hide UnpackLog, Step;
    var e := Error(LogError(log.topics[1][31], log.topics[2]));
    assert log.topics[1..] == [log.topics[1], log.topics[2]];
    assert Pick(ErrorAbi(h).types, ErrorAbi(h).topicArgs) == [Uint8Ty, Bytes32Ty];
    assert Pick(ErrorAbi(h).types, ErrorAbi(h).dataArgs) == [];
    UnpackLogIs(ErrorAbi(h), log, ValuesIn(e));
    StepShows(h, log, e);
    assert !(Step(h, log) == Shown(e) <==> UnpackLog(AbiOf(h, e), log) == Unpacked(ValuesIn(e), None));
  }

  lemma Logged(h: Hashes, e: ExchangeEvent)
    requires InRange(e) && !e.Error?
    ensures |LogOf(h, e).topics| == 4 && |LogOf(h, e).data| > 0
    ensures UnpackLog(AbiOf(h, e), LogOf(h, e)) == Unpacked(ValuesIn(e), None)
  {
    hide UnpackLog;
    LogRoundTrip(AbiOf(h, e), ValuesIn(e));
  }

  function PaddedAddress(a: Address): Word {
    Zeros(12) + a
  }

  function Number(n: nat): Word
    requires n < Pow(256, 32)
  {
    Fixed(256, n, 32)
  }

  lemma AddressWord(a: Address)
    ensures EncodeWord(AddressV(a), AddressTy) == PaddedAddress(a)
  {
    WordHolds(AddressV(a), AddressTy);
  }

  lemma NumberWord(n: nat)
    requires n < Pow(256, 32)
    ensures HasType(UintV(n), Uint256Ty) && EncodeWord(UintV(n), Uint256Ty) == Number(n)
  {
    hide Pow;
  }

  /** The log of a fill, as the exchange contract declares the event. */
  lemma FillLayout(h: Hashes, f: LogFill)
    requires InRange(Fill(f))
    ensures LogOf(h, Fill(f)).topics == [h.fill, PaddedAddress(f.maker), PaddedAddress(f.feeRecipient), f.tokens]
    ensures DataWords(LogOf(h, Fill(f)).data) ==
      [PaddedAddress(f.taker), PaddedAddress(f.makerToken), PaddedAddress(f.takerToken),
       Number(f.filledMakerTokenAmount), Number(f.filledTakerTokenAmount),
       Number(f.paidMakerFee), Number(f.paidTakerFee), f.orderHash]
  {
    hide Pow, EncodeLog, EncodeWord, DataWords, PaddedAddress, Number;
    var vs, log := FillValues(f), LogOf(h, Fill(f));
    Typed(h, Fill(f));
    LogLayout(FillAbi(h), vs);
    AddressWord(f.maker);
    AddressWord(f.feeRecipient);
    WordHolds(Bytes32V(f.tokens), Bytes32Ty);
    assert log.topics == [log.topics[0], log.topics[1], log.topics[2], log.topics[3]];
    FillWords(h, f, vs, DataWords(log.data));
  }

  lemma FillWords(h: Hashes, f: LogFill, vs: seq<Value>, ws: seq<Word>)
    requires InRange(Fill(f)) && vs == FillValues(f) && WellTyped(Types(FillKind), vs) && |ws| == 8
    requires forall i :: 0 <= i < 8 ==>
      ws[i] == EncodeWord(vs[FillAbi(h).dataArgs[i]], Types(FillKind)[FillAbi(h).dataArgs[i]])
    ensures ws ==
      [PaddedAddress(f.taker), PaddedAddress(f.makerToken), PaddedAddress(f.takerToken),
       Number(f.filledMakerTokenAmount), Number(f.filledTakerTokenAmount),
       Number(f.paidMakerFee), Number(f.paidTakerFee), f.orderHash]
  {
    hide Pow, PaddedAddress, Number;
    AddressWord(f.taker);
    AddressWord(f.makerToken);
    AddressWord(f.takerToken);
    NumberWord(f.filledMakerTokenAmount);
    NumberWord(f.filledTakerTokenAmount);
    NumberWord(f.paidMakerFee);
    NumberWord(f.paidTakerFee);
    assert ws == [ws[0], ws[1], ws[2], ws[3], ws[4], ws[5], ws[6], ws[7]];
  }

  /** The log of a cancellation. */
  lemma CancelLayout(h: Hashes, c: LogCancel)
    requires InRange(Cancelled(c))
    ensures LogOf(h, Cancelled(c)).topics == [h.cancel, PaddedAddress(c.maker), PaddedAddress(c.feeRecipient), c.tokens]
    ensures DataWords(LogOf(h, Cancelled(c)).data) ==
      [PaddedAddress(c.makerToken), PaddedAddress(c.takerToken),
       Number(c.cancelledMakerTokenAmount), Number(c.cancelledTakerTokenAmount), c.orderHash]
  {
    hide Pow, EncodeLog, EncodeWord, DataWords, PaddedAddress, Number;
    var vs, log := CancelValues(c), LogOf(h, Cancelled(c));
    Typed(h, Cancelled(c));
    LogLayout(CancelAbi(h), vs);
    AddressWord(c.maker);
    AddressWord(c.feeRecipient);
    WordHolds(Bytes32V(c.tokens), Bytes32Ty);
    assert log.topics == [log.topics[0], log.topics[1], log.topics[2], log.topics[3]];
    CancelWords(h, c, vs, DataWords(log.data));
  }

  lemma CancelWords(h: Hashes, c: LogCancel, vs: seq<Value>, ws: seq<Word>)
    requires InRange(Cancelled(c)) && vs == CancelValues(c) && WellTyped(Types(CancelKind), vs) && |ws| == 5
    requires forall i :: 0 <= i < 5 ==>
      ws[i] == EncodeWord(vs[CancelAbi(h).dataArgs[i]], Types(CancelKind)[CancelAbi(h).dataArgs[i]])
    ensures ws ==
      [PaddedAddress(c.makerToken), PaddedAddress(c.takerToken),
       Number(c.cancelledMakerTokenAmount), Number(c.cancelledTakerTokenAmount), c.orderHash]
  {
    hide Pow, PaddedAddress, Number;
    AddressWord(c.makerToken);
    AddressWord(c.takerToken);
    NumberWord(c.cancelledMakerTokenAmount);
    NumberWord(c.cancelledTakerTokenAmount);
    assert ws == [ws[0], ws[1], ws[2], ws[3], ws[4]];
  }

  /** Fills and cancellations survive the trip through their logs, and neither log is read as the other. */
  lemma EventRoundTrip(h: Hashes, e: ExchangeEvent)
    requires h.Distinct() && InRange(e) && !e.Error?
    ensures Step(h, LogOf(h, e)) == Shown(e)
  {
    hide UnpackLog, Step, LogOf, AbiOf, ValuesIn;
    Logged(h, e);
    ShownIff(h, LogOf(h, e), e);
    assert FirstTopics(LogOf(h, e), 4) == LogOf(h, e);
  }

  /** A `LogError` log always ends the program: its topic text keeps the 0x prefix, which `ParseInt` refuses. */
  lemma ErrorHalts(h: Hashes, log: Log)
    requires |log.topics| > 0
    ensures ReadError(log) == Halted(if |log.topics| < 2 then IndexPanic else FatalError)
    ensures h.Distinct() && log.topics[0] == h.error ==> Step(h, log) == ReadError(log)
  {
    if h.Distinct() {
      StepIs(h, log);
    }
    if |log.topics| >= 2 {
      PrefixedTextDoesNotParse(log.topics[1]);
    }
  }

  lemma PrefixedTextDoesNotParse(bs: seq<byte>)
    ensures ParseInt16(Encode0x(bs)) == None
  {
    var text := Encode0x(bs);
    assert text[0] == '0' && !IsHexDigit(text[1]);
    assert !AllHexDigits(text);
  }

  predicate IsOther(h: Hashes, log: Log) {
    |log.topics| > 0 && log.topics[0] != h.fill && log.topics[0] != h.cancel && log.topics[0] != h.error
  }

  predicate Readable(h: Hashes, entry: Entry<ExchangeEvent>) {
    match entry
    case Known(e) => InRange(e) && !e.Error?
    case Other(log) => IsOther(h, log)
  }

  function LogOfEntry(h: Hashes, entry: Entry<ExchangeEvent>): Log
    requires Readable(h, entry)
  {
    match entry
    case Known(e) => LogOf(h, e)
    case Other(log) => log
  }

  function LogsOf(h: Hashes, entries: seq<Entry<ExchangeEvent>>): seq<Log>
    requires forall i :: 0 <= i < |entries| ==> Readable(h, entries[i])
  {
    seq(|entries|, i requires 0 <= i < |entries| => LogOfEntry(h, entries[i]))
  }

  lemma EntryRoundTrip(h: Hashes, entry: Entry<ExchangeEvent>)
    requires h.Distinct() && Readable(h, entry)
    ensures Written(Reader(h), entry, LogOfEntry(h, entry))
  {
    match entry
    case Known(e) => EventRoundTrip(h, e);
    case Other(log) => StepIs(h, log);
  }

  lemma EntriesWritten(h: Hashes, entries: seq<Entry<ExchangeEvent>>)
    requires h.Distinct() && forall i :: 0 <= i < |entries| ==> Readable(h, entries[i])
    ensures forall i :: 0 <= i < |entries| ==> Written(Reader(h), entries[i], LogsOf(h, entries)[i])
  {
    forall i | 0 <= i < |entries| ensures Written(Reader(h), entries[i], LogsOf(h, entries)[i]) {
      EntryRoundTrip(h, entries[i]);
    }
  }

  /** Fills and cancellations, anywhere among logs of other events, read back in order. */
  lemma ListRoundTrip(h: Hashes, entries: seq<Entry<ExchangeEvent>>)
    requires h.Distinct() && forall i :: 0 <= i < |entries| ==> Readable(h, entries[i])
    ensures ReadAll(Reader(h), LogsOf(h, entries)) == Reading(EventsOf(entries), None)
  {
    EntriesWritten(h, entries);
    ReadsInOrder(Reader(h), entries, LogsOf(h, entries), []);
    assert LogsOf(h, entries) + [] == LogsOf(h, entries);
    assert EventsOf(entries) + [] == EventsOf(entries);
  }

  /** The first `LogError` log ends the reading: it and everything behind it are lost, whatever they are. */
  lemma ErrorHidesTheRest(h: Hashes, entries: seq<Entry<ExchangeEvent>>, error: Log, tail: seq<Log>)
    requires h.Distinct() && forall i :: 0 <= i < |entries| ==> Readable(h, entries[i])
    requires |error.topics| > 0 && error.topics[0] == h.error
    ensures ReadAll(Reader(h), LogsOf(h, entries) + ([error] + tail))
         == Reading(EventsOf(entries), Some(if |error.topics| < 2 then IndexPanic else FatalError))
  {
    EntriesWritten(h, entries);
    ErrorHalts(h, error);
    assert ReadAll(Reader(h), [error] + tail)
        == Reading([], Some(if |error.topics| < 2 then IndexPanic else FatalError));
    ReadsInOrder(Reader(h), entries, LogsOf(h, entries), [error] + tail);
    assert EventsOf(entries) + [] == EventsOf(entries);
  }
}
