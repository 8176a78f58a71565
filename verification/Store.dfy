/**
  The Store contract as an event-sourced map: `setItem` changes the mapping and emits an
  `ItemSet` log; whoever replays the logs, through the iterator, the watcher or the plain
  reading loop, rebuilds the mapping.
*/
module Store {
  import opened Positional
  import opened Abi
  import opened Hex
  import opened LogReading
  import opened Subscriptions
  import opened EventIterators
  import W = EventWatchers

  datatype ItemSet = ItemSet(key: Word, value: Word)

  /** Neither argument of `ItemSet` is indexed. */
  function ItemSetAbi(id: Word): (e: EventAbi)
    ensures e.Valid()
  {
    EventAbi(id, [Bytes32Ty, Bytes32Ty], [], [0, 1])
  }

  function LogOf(id: Word, item: ItemSet): Log {
    EncodeLog(ItemSetAbi(id), [Bytes32V(item.key), Bytes32V(item.value)])
  }

  function LogsOf(id: Word, history: seq<ItemSet>): seq<Log> {
    seq(|history|, i requires 0 <= i < |history| => LogOf(id, history[i]))
  }

  /** The mapping after a history of `setItem` calls. */
  function ItemsAfter(history: seq<ItemSet>): map<Word, Word> {
    if |history| == 0 then map[]
    else
      var last := history[|history| - 1];
      ItemsAfter(history[..|history| - 1])[last.key := last.value]
  }

  /** For every key: the value of the last call that set it, if there is one. */
  lemma {:induction false} ItemsAfterIs(history: seq<ItemSet>, key: Word)
    ensures key in ItemsAfter(history) <==> exists i :: 0 <= i < |history| && history[i].key == key
    ensures forall i :: 0 <= i < |history| && history[i].key == key
                        && (forall j :: i < j < |history| ==> history[j].key != key) ==>
              ItemsAfter(history)[key] == history[i].value
  {
    if |history| > 0 {
      var front := history[..|history| - 1];
      ItemsAfterIs(front, key);
      assert forall i :: 0 <= i < |front| ==> front[i] == history[i];
    }
  }

  /** The getter of the contract, for every key. */
  lemma LookupIs(history: seq<ItemSet>, key: Word)
    ensures (forall i :: 0 <= i < |history| ==> history[i].key != key) ==>
              forall k :: 0 <= k < 32 ==> Lookup(ItemsAfter(history), key)[k] == 0
    ensures forall i :: 0 <= i < |history| && history[i].key == key
                        && (forall j :: i < j < |history| ==> history[j].key != key) ==>
              Lookup(ItemsAfter(history), key) == history[i].value
  {
    ItemsAfterIs(history, key);
  }

  /** The log of a call: the event's hash as the only topic, and key and value as the data. */
  lemma ItemLayout(id: Word, item: ItemSet)
    ensures LogOf(id, item) == Log([id], item.key + item.value)
  {
    var abi, vs := ItemSetAbi(id), [Bytes32V(item.key), Bytes32V(item.value)];
    var ws := Words(abi.types, vs);
    assert Pick(ws, abi.dataArgs) == [item.key, item.value];
    JoinTwo(item.key, item.value);
  }

  lemma JoinTwo(x: Word, y: Word)
    ensures Join([x, y]) == x + y
  {
    assert [x, y][..1] == [x] && [x][..0] == [];
    assert Join([x]) == Join([]) + x == x;
  }

  /** The public getter: a mapping's unset keys read as zero. */
  function Lookup(items: map<Word, Word>, key: Word): Word {
    if key in items then items[key] else Zeros(32)
  }

  class StoreContract {
    const id: Word
    var items: map<Word, Word>
    var emitted: seq<Log>
    ghost var history: seq<ItemSet>

    ghost predicate Valid()
      reads this
    {
      items == ItemsAfter(history) && emitted == LogsOf(id, history)
    }

    constructor (id: Word)
      ensures Valid() && history == [] && this.id == id
    {
      this.id := id;
      items, emitted, history := map[], [], [];
    }

    method SetItem(key: Word, value: Word)
      requires Valid()
      modifies this
      ensures Valid() && history == old(history) + [ItemSet(key, value)]
      ensures Lookup(items, key) == value
      ensures forall k :: k != key ==> Lookup(items, k) == Lookup(old(items), k)
      ensures emitted == old(emitted) + [LogOf(id, ItemSet(key, value))]
    {
      items := items[key := value];
      emitted := emitted + [LogOf(id, ItemSet(key, value))];
      history := history + [ItemSet(key, value)];
      assert history[..|history| - 1] == old(history);
    }
  }

  /** `UnpackLog` into a `StoreItemSet`. */
  function UnpackItemSet(id: Word, log: Log): Unpacked<ItemSet, AbiError> {
    UnpackLogMatches(ItemSetAbi(id), log);
    var out := UnpackLog(ItemSetAbi(id), log);
    Unpacked(ItemSet(out.fields[0].word, out.fields[1].word), out.err)
  }

  function Unpacker(id: Word): Log -> Unpacked<ItemSet, AbiError> {
    log => UnpackItemSet(id, log)
  }

  /** Applies delivered events, in order, to an empty mapping. */
  function Replay(events: seq<Event<Log, ItemSet>>): map<Word, Word> {
    if |events| == 0 then map[]
    else
      var last := events[|events| - 1].fields;
      Replay(events[..|events| - 1])[last.key := last.value]
  }

  lemma ItemRoundTrip(id: Word, item: ItemSet)
    ensures UnpackItemSet(id, LogOf(id, item)) == Unpacked(item, None)
  {
    LogRoundTrip(ItemSetAbi(id), [Bytes32V(item.key), Bytes32V(item.value)]);
  }

  lemma AllItemsUnpack(id: Word, history: seq<ItemSet>)
    ensures AllUnpack(Unpacker(id), LogsOf(id, history))
  {
    forall i | 0 <= i < |history| ensures Unpacker(id)(LogsOf(id, history)[i]).err.None? {
      ItemRoundTrip(id, history[i]);
    }
  }

  lemma {:induction false} ReplayPrefix(id: Word, history: seq<ItemSet>, events: seq<Event<Log, ItemSet>>)
    requires |events| <= |history| && DecodesPrefix(Unpacker(id), LogsOf(id, history), events)
    ensures Replay(events) == ItemsAfter(history[..|events|])
  {
    hide LogOf, UnpackItemSet;
    var n := |events|;
    if n > 0 {
      var logs := LogsOf(id, history);
      assert logs[..n][n - 1] == logs[n - 1] == LogOf(id, history[n - 1]);
      assert logs[..n - 1] == logs[..n][..n - 1];
      ItemRoundTrip(id, history[n - 1]);
      ReplayPrefix(id, history, events[..n - 1]);
      assert history[..n][..n - 1] == history[..n - 1];
    }
  }

  /**
    End to end, for every history of `setItem` calls and every interleaving of producer and
    consumer: replaying what the iterator has delivered gives the mapping as it stood after
    some prefix of the history, no log ever fails to unpack, and an iteration that ended
    without error and without `Close` gives the current mapping.
  */
  lemma IteratorReplay(id: Word, history: seq<ItemSet>, cap: nat, t: seq<Step<AbiError>>,
                       it: Iter<Log, ItemSet, AbiError>)
    requires Run(cap, Unpacker(id), Start(LogsOf(id, history)), t) == Some(it)
    ensures |it.delivered| <= |history| && Replay(it.delivered) == ItemsAfter(history[..|it.delivered|])
    ensures it.rejected == None
    ensures it.fail.Some? ==> it.done && it.feed.errs == Fired(it.fail)
    ensures Finished(it) && it.fail.None? && !it.feed.cancelled ==> Replay(it.delivered) == ItemsAfter(history)
  {
    var logs := LogsOf(id, history);
    AllItemsUnpack(id, history);
    EventIterators.Delivers(cap, Unpacker(id), logs, t, it);
    ReplayPrefix(id, history, it.delivered);
    assert history[..|history|] == history;
  }

  /** The same for a watcher's sink, which can only be behind by what has not reached it yet. */
  lemma WatcherReplay(id: Word, history: seq<ItemSet>,
                      cap: nat, t: seq<W.Step<AbiError>>, w: W.Watcher<Log, ItemSet, AbiError>)
    requires W.Run(cap, Unpacker(id), W.Start(LogsOf(id, history)), t) == Some(w)
    ensures |w.sent| <= |history| && Replay(w.sent) == ItemsAfter(history[..|w.sent|])
    ensures |W.InFlight(w)| + |w.feed.buffer| + |w.feed.unsent| == 0 ==> Replay(w.sent) == ItemsAfter(history)
  {
    var logs := LogsOf(id, history);
    W.Safety(cap, Unpacker(id), logs, t, w);
    ReplayPrefix(id, history, w.sent);
    if |W.InFlight(w)| + |w.feed.buffer| + |w.feed.unsent| == 0 {
      assert |logs[|w.sent|..]| == 0;
      assert history[..|history|] == history;
    }
  }

  /** A client that mirrors the contract: filter, loop over `Next`, apply each event. */
  method Mirror(contract: StoreContract, cap: nat) returns (items: map<Word, Word>, err: Option<AbiError>, closed: bool)
    requires contract.Valid() && cap > 0
    ensures err.None? && !closed ==> items == contract.items
    ensures exists n :: 0 <= n <= |contract.history| && items == ItemsAfter(contract.history[..n])
  {
    var it := new EventIterator(contract.emitted, Unpacker(contract.id), cap);
    var events := it.Drain();
    IteratorReplay(contract.id, contract.history, cap, it.trace, it.View());
    items := Replay(events);
    err, closed := it.fail, it.feed.cancelled;
  }

  /** One turn of the loop in the event-reading program; the fixed array holds four topics. */
  function ReadItem(id: Word, log: Log): Outcome<ItemSet> {
    match UnpackData(ItemSetAbi(id), log.data)
    case Failed(_) => Halted(FatalError)
    case Values(vs) =>
      if |log.topics| > 4 then Halted(IndexPanic) else Shown(ItemSet(vs[0].word, vs[1].word))
  }

  /** For every log, by data length and topic count; key and value are the first two words. */
  lemma ReadItemOutcome(id: Word, log: Log)
    ensures ReadItem(id, log) ==
      if |log.data| < 64 then Halted(FatalError)
      else if |log.topics| > 4 then Halted(IndexPanic)
      else Shown(ItemSet(log.data[..32], log.data[32..64]))
  {
    var abi := ItemSetAbi(id);
    assert Pick(abi.types, abi.dataArgs) == [Bytes32Ty, Bytes32Ty];
  }

  function ItemReader(id: Word): Log -> Outcome<ItemSet> {
    log => ReadItem(id, log)
  }

  /** Reading all logs of a history shows the history. */
  lemma ReadingShowsHistory(id: Word, history: seq<ItemSet>)
    ensures ReadAll(ItemReader(id), LogsOf(id, history)) == Reading(history, None)
  {
    var entries := seq(|history|, i requires 0 <= i < |history| => Known(history[i]));
    forall i | 0 <= i < |history| ensures Written(ItemReader(id), entries[i], LogsOf(id, history)[i]) {
      ItemRoundTrip(id, history[i]);
    }
    ReadsInOrder(ItemReader(id), entries, LogsOf(id, history), []);
    EventsOfKnown(history);
    assert LogsOf(id, history) + [] == LogsOf(id, history);
    assert history + [] == history;
  }

  lemma {:induction false} EventsOfKnown(history: seq<ItemSet>)
    ensures EventsOf(seq(|history|, i requires 0 <= i < |history| => Known(history[i]))) == history
  {
    if |history| > 0 {
      var rest := history[1..];
      var entries := seq(|history|, i requires 0 <= i < |history| => Known(history[i]));
      EventsOfKnown(rest);
      assert entries[1..] == seq(|rest|, i requires 0 <= i < |rest| => Known(rest[i]));
    }
  }
}
