/** Reading a list of logs: one outcome per log, until a log makes the program stop. */
module LogReading {
  import opened Abi
  import opened Hex
  import opened Subscriptions

  /** `log.Fatal`, or an index into `Topics` that is out of range. */
  datatype Why = FatalError | IndexPanic

  datatype Outcome<+E> = Shown(event: E) | Skipped | Halted(why: Why)

  datatype Reading<+E> = Reading(shown: seq<E>, halt: Option<Why>)

  function ReadAll<E>(step: Log -> Outcome<E>, logs: seq<Log>): Reading<E> {
    if |logs| == 0 then Reading([], None)
    else match step(logs[0])
      case Halted(why) => Reading([], Some(why))
      case Skipped => ReadAll(step, logs[1..])
      case Shown(e) =>
        var rest := ReadAll(step, logs[1..]);
        rest.(shown := [e] + rest.shown)
  }

  function TopicAddress(log: Log, i: nat): Address
    requires i < |log.topics|
  {
    HexToAddress(Encode0x(log.topics[i]))
  }

  /** The text of a topic read as an address is the last 20 bytes of the topic. */
  lemma TopicAddressIs(log: Log, i: nat)
    requires i < |log.topics|
    ensures TopicAddress(log, i) == log.topics[i][12..]
  {
    HashTextToAddress(log.topics[i]);
  }

  /** The log without the topics behind the first n. */
  function FirstTopics(log: Log, n: nat): Log
    requires n <= |log.topics|
  {
    log.(topics := log.topics[..n])
  }

  /**
    What the readers make of a log of a known signature: the fields in the data are unpacked,
    then the indexed fields are assigned from the topics behind the first.
  */
  function ReadRecord(e: EventAbi, log: Log): Outcome<seq<Value>>
    requires e.Valid()
  {
    match UnpackData(e, log.data)
    case Failed(_) => Halted(FatalError)
    case Values(data) =>
      if |log.topics| <= |e.topicArgs| then Halted(IndexPanic)
      else Shown(Merge(e, ParseTopics(Pick(e.types, e.topicArgs), log.topics[1..1 + |e.topicArgs|]), data))
  }

  /** When reading stops and where: for a signature that has fields in the data. */
  lemma ReadRecordOutcome(e: EventAbi, log: Log)
    requires e.Valid() && |e.dataArgs| > 0
    ensures ReadRecord(e, log) == Halted(FatalError) <==> |log.data| < 32 * |e.dataArgs|
    ensures ReadRecord(e, log) == Halted(IndexPanic) <==>
      |log.data| >= 32 * |e.dataArgs| && |log.topics| <= |e.topicArgs|
    ensures ReadRecord(e, log).Shown? <==> |log.data| >= 32 * |e.dataArgs| && |log.topics| > |e.topicArgs|
  {
  }

  /** Where the fields of a record come from. */
  lemma ReadRecordParts(e: EventAbi, log: Log)
    requires e.Valid() && |e.dataArgs| > 0 && ReadRecord(e, log).Shown?
    ensures |log.topics| > |e.topicArgs| && AllMatch(ReadRecord(e, log).event, e.types)
    ensures var vs := ReadRecord(e, log).event;
            && Pick(vs, e.topicArgs) == ParseTopics(Pick(e.types, e.topicArgs), log.topics[1..1 + |e.topicArgs|])
            && UnpackData(e, log.data) == Values(Pick(vs, e.dataArgs))
  {
    hide Merge, UnpackData;
    UnpackDataMatches(e, log.data);
    var topics := log.topics[1..1 + |e.topicArgs|];
    MergeMatches(e, ParseTopics(Pick(e.types, e.topicArgs), topics), UnpackData(e, log.data).vs);
  }

  /** The log as a log of signature e, without the topics that reading it ignores. */
  function AsLog(e: EventAbi, log: Log): Log
    requires |log.topics| > |e.topicArgs|
  {
    Log([e.id] + log.topics[1..1 + |e.topicArgs|], log.data)
  }

  /** What is read is what the generated binding unpacks from the topics that are read. */
  lemma ReadRecordUnpacks(e: EventAbi, log: Log)
    requires e.Valid() && |e.dataArgs| > 0 && ReadRecord(e, log).Shown?
    ensures |log.topics| > |e.topicArgs|
    ensures UnpackLog(e, AsLog(e, log)) == Unpacked(ReadRecord(e, log).event, None)
  {
    hide UnpackLog, ReadRecord, UnpackData;
    ReadRecordOutcome(e, log);
    ReadRecordParts(e, log);
    assert AsLog(e, log).topics[1..] == log.topics[1..1 + |e.topicArgs|];
    UnpackLogIs(e, AsLog(e, log), ReadRecord(e, log).event);
  }

  /** For a log with the signature's hash and some data, both directions. */
  lemma ReadRecordIff(e: EventAbi, log: Log, vs: seq<Value>)
    requires e.Valid() && |e.dataArgs| > 0
    requires |log.topics| > |e.topicArgs| && log.topics[0] == e.id && |log.data| > 0
    ensures ReadRecord(e, log) == Shown(vs) <==>
      UnpackLog(e, FirstTopics(log, 1 + |e.topicArgs|)) == Unpacked(vs, None)
  {
    hide UnpackLog, ReadRecord;
    assert FirstTopics(log, 1 + |e.topicArgs|) == AsLog(e, log);
    ReadRecordOutcome(e, log);
    UnpackLogAccepts(e, AsLog(e, log));
    if ReadRecord(e, log).Shown? {
      ReadRecordUnpacks(e, log);
    }
  }

  /** Logs on which reading and binding differ: without data, or with more topics than are read. */
  predicate Disputed(e: EventAbi, log: Log) {
    || (|log.topics| == 1 + |e.topicArgs| && |log.data| == 0)
    || (|log.topics| > 1 + |e.topicArgs| && |log.data| >= 32 * |e.dataArgs|)
  }

  lemma RecordsAgree(e: EventAbi, log: Log, vs: seq<Value>)
    requires e.Valid() && |e.dataArgs| > 0
    requires |log.topics| > 0 && log.topics[0] == e.id && !Disputed(e, log)
    ensures ReadRecord(e, log) == Shown(vs) <==> UnpackLog(e, log) == Unpacked(vs, None)
  {
    hide UnpackLog, ReadRecord;
    ReadRecordOutcome(e, log);
    UnpackLogAccepts(e, log);
    if |log.topics| == 1 + |e.topicArgs| {
      assert FirstTopics(log, 1 + |e.topicArgs|) == log;
      ReadRecordIff(e, log, vs);
    }
  }

  /** The record on which they differ: accepted without data by one, shown in spite of the topics by the other. */
  lemma RecordsDiffer(e: EventAbi, log: Log) returns (vs: seq<Value>)
    requires e.Valid() && |e.dataArgs| > 0 && |e.types| > 0
    requires |log.topics| > 0 && log.topics[0] == e.id && Disputed(e, log)
    ensures AllMatch(vs, e.types)
    ensures !(ReadRecord(e, log) == Shown(vs) <==> UnpackLog(e, log) == Unpacked(vs, None))
  {
    hide UnpackLog, ReadRecord;
    ReadRecordOutcome(e, log);
    UnpackLogAccepts(e, log);
    if |log.data| == 0 {
      UnpackLogMatches(e, log);
      vs := UnpackLog(e, log).fields;
    } else {
      ReadRecordParts(e, log);
      vs := ReadRecord(e, log).event;
    }
  }

  /** A log written for an event the program knows, or any other log. */
  datatype Entry<+E> = Known(event: E) | Other(log: Log)

  function EventsOf<E>(entries: seq<Entry<E>>): seq<E> {
    if |entries| == 0 then []
    else (if entries[0].Known? then [entries[0].event] else []) + EventsOf(entries[1..])
  }

  ghost predicate Written<E>(step: Log -> Outcome<E>, entry: Entry<E>, log: Log) {
    match entry
    case Known(e) => step(log) == Shown(e)
    case Other(l) => l == log && step(log).Skipped?
  }

  /**
    The loop's output corresponds one for one and in order to the known events among
    the logs; a log that halts the program hides everything behind it.
  */
  lemma {:induction false} ReadsInOrder<E>(step: Log -> Outcome<E>,
                                           entries: seq<Entry<E>>, logs: seq<Log>, tail: seq<Log>)
    requires |logs| == |entries|
    requires forall i :: 0 <= i < |logs| ==> Written(step, entries[i], logs[i])
    ensures ReadAll(step, logs + tail)
         == Reading(EventsOf(entries) + ReadAll(step, tail).shown, ReadAll(step, tail).halt)
  {
    if |logs| == 0 {
      assert logs + tail == tail;
    } else {
      assert Written(step, entries[0], logs[0]);
      assert (logs + tail)[1..] == logs[1..] + tail;
      forall i | 0 <= i < |logs| - 1 ensures Written(step, entries[1..][i], logs[1..][i]) {
        assert Written(step, entries[i + 1], logs[i + 1]);
      }
      ReadsInOrder(step, entries[1..], logs[1..], tail);
    }
  }

  lemma ReadNone<E>(step: Log -> Outcome<E>)
    ensures ReadAll(step, []) == Reading([], None)
  {
  }

  /** The loop over the logs: collects what is shown until a log halts the program. */
  lemma ReadStep<E>(step: Log -> Outcome<E>, logs: seq<Log>, i: nat)
    requires i < |logs|
    ensures ReadAll(step, logs[i..]) ==
      match step(logs[i])
      case Halted(why) => Reading([], Some(why))
      case Skipped => ReadAll(step, logs[i + 1..])
      case Shown(e) => Reading([e] + ReadAll(step, logs[i + 1..]).shown, ReadAll(step, logs[i + 1..]).halt)
  {
    assert logs[i..][1..] == logs[i + 1..];
  }
}
