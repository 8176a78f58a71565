/**
  What the generated bindings receive from the subscription layer: a log channel
  that a producer goroutine fills from a fixed sequence of logs, and an error
  channel that fires once. Assumptions about the producer, and no others:

  - the log channel is a FIFO buffer of some capacity;
  - nothing is sent after the error channel has fired;
  - a nil error fires only when every log has been sent, or after the stream was
    cancelled (`Unsubscribe`, or the client behind the subscription was closed).

  For `Filter*` the module FilterProducer derives them from the producer itself.
*/
module Subscriptions {

  datatype Option<+T> = None | Some(value: T)

  datatype ErrChannel<+X> = Open | Fired(err: Option<X>)

  datatype Feed<+L, +X> = Feed(unsent: seq<L>, buffer: seq<L>, errs: ErrChannel<X>, cancelled: bool)

  datatype FeedStep<+X> = Send | Fire(err: Option<X>) | Cancel

  function Opened<L, X>(source: seq<L>): Feed<L, X> {
    Feed(source, [], Open, false)
  }

  predicate CanMove<L, X>(cap: nat, f: Feed<L, X>, a: FeedStep<X>) {
    match a
    case Send => f.errs.Open? && |f.unsent| > 0 && |f.buffer| < cap
    case Fire(err) => f.errs.Open? && (err.None? ==> |f.unsent| == 0 || f.cancelled)
    case Cancel => true
  }

  function Move<L, X>(cap: nat, f: Feed<L, X>, a: FeedStep<X>): Feed<L, X>
    requires CanMove(cap, f, a)
  {
    match a
    case Send => f.(unsent := f.unsent[1..], buffer := f.buffer + [f.unsent[0]])
    case Fire(err) => f.(errs := Fired(err))
    case Cancel => f.(cancelled := true)
  }

  /** Receiving from the log channel. */
  function Received<L, X>(f: Feed<L, X>): Feed<L, X>
    requires |f.buffer| > 0
  {
    f.(buffer := f.buffer[1..])
  }

  /**
    `UnpackLog` fills the event it is given and returns an error, or nil; after an
    error the event keeps whatever had been filled in by then.
  */
  datatype Unpacked<+E, +X> = Unpacked(fields: E, err: Option<X>)

  /** An event struct: its decoded fields and `Raw`, which is set only after a successful unpack. */
  datatype Event<+L, +E> = Event(fields: E, raw: Option<L>)

  /** The events are the decodings of the logs, one for one and in order, each with its raw log. */
  ghost predicate Decodes<L, E, X>(u: L -> Unpacked<E, X>, logs: seq<L>, events: seq<Event<L, E>>) {
    && |events| == |logs|
    && forall i :: 0 <= i < |logs| ==>
         u(logs[i]).err.None? && events[i] == Event(u(logs[i]).fields, Some(logs[i]))
  }

  /** The events are the decodings of a prefix of the logs. */
  ghost predicate DecodesPrefix<L, E, X>(u: L -> Unpacked<E, X>, logs: seq<L>, events: seq<Event<L, E>>) {
    |events| <= |logs| && Decodes(u, logs[..|events|], events)
  }

  ghost predicate AllUnpack<L, E, X>(u: L -> Unpacked<E, X>, logs: seq<L>) {
    forall i :: 0 <= i < |logs| ==> u(logs[i]).err.None?
  }

  /** What every producer step keeps, for logs of which `taken` have left the channel. */
  ghost predicate FeedInv<L, X>(cap: nat, source: seq<L>, taken: nat, f: Feed<L, X>) {
    && taken <= |source|
    && f.buffer + f.unsent == source[taken..]
    && |f.buffer| <= cap
    && (f.errs == Fired(None) ==> |f.unsent| == 0 || f.cancelled)
  }

  lemma MoveKeepsFeedInv<L, X>(cap: nat, source: seq<L>, taken: nat, f: Feed<L, X>, a: FeedStep<X>)
    requires FeedInv(cap, source, taken, f) && CanMove(cap, f, a)
    ensures FeedInv(cap, source, taken, Move(cap, f, a))
  {
    if a.Send? {
      assert f.buffer + [f.unsent[0]] + f.unsent[1..] == f.buffer + f.unsent;
    }
  }

  /** The log at the head of the channel is the next one of the source. */
  lemma TakenIsNext<L, X>(cap: nat, source: seq<L>, taken: nat, f: Feed<L, X>)
    requires FeedInv(cap, source, taken, f) && |f.buffer| > 0
    ensures taken < |source| && f.buffer[0] == source[taken] && FeedInv(cap, source, taken + 1, Received(f))
  {
    ReceiveKeepsFeedInv(cap, source, taken, f);
  }

  /** One more log that unpacks makes one more event. */
  lemma DecodesOneMore<L, E, X>(u: L -> Unpacked<E, X>, logs: seq<L>, events: seq<Event<L, E>>)
    requires DecodesPrefix(u, logs, events) && |events| < |logs| && u(logs[|events|]).err.None?
    ensures var log := logs[|events|]; DecodesPrefix(u, logs, events + [Event(u(log).fields, Some(log))])
  {
    var n := |events|;
    assert logs[..n + 1] == logs[..n] + [logs[n]];
  }

  lemma ReceiveKeepsFeedInv<L, X>(cap: nat, source: seq<L>, taken: nat, f: Feed<L, X>)
    requires FeedInv(cap, source, taken, f) && |f.buffer| > 0
    ensures FeedInv(cap, source, taken + 1, Received(f)) && f.buffer[0] == source[taken]
  {
    assert (f.buffer + f.unsent)[0] == f.buffer[0];
    assert f.buffer[1..] + f.unsent == (f.buffer + f.unsent)[1..] == source[taken..][1..] == source[taken + 1..];
  }
}
