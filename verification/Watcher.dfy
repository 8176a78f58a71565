/**
  The goroutine that every `Watch*` binding starts: an outer select over the log
  channel, the error channel and quit; an inner select that forwards one decoded
  event to the sink; and a deferred `Unsubscribe`. As for the iterator, `Watcher`
  and `Step` describe every interleaving and `EventWatcher` is the code.
*/
module EventWatchers {
  import opened Subscriptions

  datatype Phase<+L, +E, +X> =
    | Selecting
    | Forwarding(event: Event<L, E>)
    | Returning(result: Option<X>)  // the deferred Unsubscribe is still to run
    | Exited(result: Option<X>)

  /** Why the loop was left. */
  datatype Cause<+L, +X> = UnpackFailed(log: L, err: X) | StreamEnded(outcome: Option<X>) | QuitSeen

  datatype Watcher<+L, +E, +X> = Watcher(
    feed: Feed<L, X>,
    quit: bool,                // the quit channel has been closed
    phase: Phase<L, E, X>,
    sent: seq<Event<L, E>>,    // history: events the sink received
    lost: Option<L>,           // history: the log taken from the channel but not forwarded
    cause: Option<Cause<L, X>>,
    unsubscribed: nat
  )

  datatype Step<+X> = Env(move: FeedStep<X>) | CloseQuit | TakeLog | Forward | TakeErr | TakeQuit | Unsubscribe

  function Start<L, E, X>(source: seq<L>): Watcher<L, E, X> {
    Watcher(Opened(source), false, Selecting, [], None, None, 0)
  }

  predicate InSelect<L, E, X>(w: Watcher<L, E, X>) {
    w.phase.Selecting? || w.phase.Forwarding?
  }

  predicate CanStep<L, E, X>(cap: nat, w: Watcher<L, E, X>, s: Step<X>) {
    match s
    case Env(a) => CanMove(cap, w.feed, a)
    case CloseQuit => true
    case TakeLog => w.phase.Selecting? && |w.feed.buffer| > 0
    case Forward => w.phase.Forwarding?
    case TakeErr => InSelect(w) && w.feed.errs.Fired?
    case TakeQuit => InSelect(w) && w.quit
    case Unsubscribe => w.phase.Returning?
  }

  /** The log of the event that is waiting for the sink. */
  function Held<L, E, X>(w: Watcher<L, E, X>): Option<L> {
    if w.phase.Forwarding? then w.phase.event.raw else None
  }

  function After<L, E, X>(cap: nat, u: L -> Unpacked<E, X>, w: Watcher<L, E, X>, s: Step<X>): Watcher<L, E, X>
    requires CanStep(cap, w, s)
  {
    match s
    case Env(a) => w.(feed := Move(cap, w.feed, a))
    case CloseQuit => w.(quit := true)
    case TakeLog =>
      var log := w.feed.buffer[0];
      var out := u(log);
      var rest := w.(feed := Received(w.feed));
      if out.err.Some? then
        rest.(phase := Returning(out.err), lost := Some(log), cause := Some(UnpackFailed(log, out.err.value)))
      else
        rest.(phase := Forwarding(Event(out.fields, Some(log))))
    case Forward => w.(phase := Selecting, sent := w.sent + [w.phase.event])
    case TakeErr =>
      w.(phase := Returning(w.feed.errs.err), lost := Held(w), cause := Some(StreamEnded(w.feed.errs.err)))
    case TakeQuit => w.(phase := Returning(None), lost := Held(w), cause := Some(QuitSeen))
    case Unsubscribe =>
      w.(phase := Exited(w.phase.result), feed := Move(cap, w.feed, Cancel), unsubscribed := w.unsubscribed + 1)
  }

  ghost function Run<L, E, X>(cap: nat, u: L -> Unpacked<E, X>,
                              w: Watcher<L, E, X>, t: seq<Step<X>>): Option<Watcher<L, E, X>> {
    if |t| == 0 then Some(w) else
    match Run(cap, u, w, t[..|t| - 1])
    case None => None
    case Some(mid) => if CanStep(cap, mid, t[|t| - 1]) then Some(After(cap, u, mid, t[|t| - 1])) else None
  }

  /** The log that was taken but has not reached the sink, if any. */
  function InFlight<L, E, X>(w: Watcher<L, E, X>): seq<L> {
    if Held(w).Some? then [Held(w).value] else if w.lost.Some? then [w.lost.value] else []
  }

  function ResultOf<L, X>(c: Cause<L, X>): Option<X> {
    match c
    case UnpackFailed(_, err) => Some(err)
    case StreamEnded(outcome) => outcome
    case QuitSeen => None
  }

  ghost predicate Inv<L, E, X>(cap: nat, u: L -> Unpacked<E, X>, source: seq<L>, w: Watcher<L, E, X>) {
    var n := |w.sent|;
    && FeedInv(cap, source, n + |InFlight(w)|, w.feed)
    && DecodesPrefix(u, source, w.sent)
    && (|InFlight(w)| > 0 ==> InFlight(w)[0] == source[n])
    && (w.phase.Forwarding? ==>
          n < |source| && u(source[n]).err.None? && w.phase.event == Event(u(source[n]).fields, Some(source[n])))
    && (InSelect(w) <==> w.cause.None?)
    && (InSelect(w) ==> w.lost.None?)
    && (!InSelect(w) ==> w.phase.result == ResultOf(w.cause.value) && CauseHolds(u, w))
    && w.unsubscribed == (if w.phase.Exited? then 1 else 0)
  }

  ghost predicate CauseHolds<L, E, X>(u: L -> Unpacked<E, X>, w: Watcher<L, E, X>) {
    match w.cause
    case None => true
    case Some(UnpackFailed(log, err)) => w.lost == Some(log) && u(log).err == Some(err)
    case Some(StreamEnded(outcome)) => w.feed.errs == Fired(outcome) && (w.lost.Some? ==> u(w.lost.value).err.None?)
    case Some(QuitSeen) => w.quit && (w.lost.Some? ==> u(w.lost.value).err.None?)
  }

  lemma TakeKeepsInv<L, E, X>(cap: nat, u: L -> Unpacked<E, X>, source: seq<L>, w: Watcher<L, E, X>)
    requires Inv(cap, u, source, w) && CanStep(cap, w, TakeLog)
    ensures Inv(cap, u, source, After(cap, u, w, TakeLog))
  {
    hide FeedInv, DecodesPrefix;
    TakenIsNext(cap, source, |w.sent|, w.feed);
  }

  lemma ForwardKeepsInv<L, E, X>(cap: nat, u: L -> Unpacked<E, X>, source: seq<L>, w: Watcher<L, E, X>)
    requires Inv(cap, u, source, w) && CanStep(cap, w, Forward)
    ensures Inv(cap, u, source, After(cap, u, w, Forward))
  {
    var n := |w.sent|;
    assert source[..n + 1] == source[..n] + [source[n]];
  }

  lemma LeavingKeepsInv<L, E, X>(cap: nat, u: L -> Unpacked<E, X>, source: seq<L>, w: Watcher<L, E, X>, s: Step<X>)
    requires Inv(cap, u, source, w) && CanStep(cap, w, s)
    requires s.TakeErr? || s.TakeQuit?
    ensures Inv(cap, u, source, After(cap, u, w, s))
  {
  }

  lemma SignalKeepsInv<L, E, X>(cap: nat, u: L -> Unpacked<E, X>, source: seq<L>, w: Watcher<L, E, X>, s: Step<X>)
    requires Inv(cap, u, source, w) && CanStep(cap, w, s)
    requires s.Env? || s.CloseQuit? || s.Unsubscribe?
    ensures Inv(cap, u, source, After(cap, u, w, s))
  {
    hide FeedInv, DecodesPrefix;
    match s
    case Env(a) => MoveKeepsFeedInv(cap, source, |w.sent| + |InFlight(w)|, w.feed, a);
    case Unsubscribe => MoveKeepsFeedInv(cap, source, |w.sent| + |InFlight(w)|, w.feed, Cancel);
    case CloseQuit =>
  }

  lemma StepKeepsInv<L, E, X>(cap: nat, u: L -> Unpacked<E, X>, source: seq<L>, w: Watcher<L, E, X>, s: Step<X>)
    requires Inv(cap, u, source, w) && CanStep(cap, w, s)
    ensures Inv(cap, u, source, After(cap, u, w, s))
  {
    hide Inv;
    if s.TakeLog? {
      TakeKeepsInv(cap, u, source, w);
    } else if s.Forward? {
      ForwardKeepsInv(cap, u, source, w);
    } else if s.TakeErr? || s.TakeQuit? {
      LeavingKeepsInv(cap, u, source, w, s);
    } else {
      SignalKeepsInv(cap, u, source, w, s);
    }
  }

  lemma {:induction false} RunKeepsInv<L, E, X>(cap: nat, u: L -> Unpacked<E, X>, source: seq<L>, t: seq<Step<X>>)
    requires Run(cap, u, Start(source), t).Some?
    ensures Inv(cap, u, source, Run(cap, u, Start(source), t).value)
  {
    if |t| > 0 {
      var t' := t[..|t| - 1];
      RunKeepsInv(cap, u, source, t');
      StepKeepsInv(cap, u, source, Run(cap, u, Start(source), t').value, t[|t| - 1]);
    }
  }

  /**
    Safety: the sink has received the decodings of a prefix of the source, in order;
    of the logs taken from the channel at most one has not reached it, and the rest of the
    source is still in the channel or unsent.
  */
  lemma Safety<L, E, X>(cap: nat, u: L -> Unpacked<E, X>, source: seq<L>, t: seq<Step<X>>, w: Watcher<L, E, X>)
    requires Run(cap, u, Start(source), t) == Some(w)
    ensures DecodesPrefix(u, source, w.sent)
    ensures |InFlight(w)| <= 1 && InFlight(w) + w.feed.buffer + w.feed.unsent == source[|w.sent|..]
  {
    RunKeepsInv(cap, u, source, t);
    Pieces(source, |w.sent|, InFlight(w), w.feed.buffer, w.feed.unsent);
  }

  lemma Pieces<L>(source: seq<L>, n: nat, b: seq<L>, c: seq<L>, d: seq<L>)
    requires n + |b| <= |source| && |b| <= 1 && (|b| > 0 ==> b[0] == source[n])
    requires c + d == source[n + |b|..]
    ensures b + c + d == source[n..]
  {
    assert b + (c + d) == source[n..];
  }

  /** A watcher that has exited with an error tells which one; a nil result leaves two causes open. */
  lemma ExitCause<L, E, X>(cap: nat, u: L -> Unpacked<E, X>, source: seq<L>, t: seq<Step<X>>, w: Watcher<L, E, X>)
    requires Run(cap, u, Start(source), t) == Some(w) && w.phase.Exited?
    ensures w.cause.Some?
    ensures w.cause.value.UnpackFailed? ==>
      |w.sent| < |source| && w.cause.value.log == source[|w.sent|] && w.phase.result == u(source[|w.sent|]).err
    ensures w.cause.value.StreamEnded? ==> w.feed.errs == Fired(w.phase.result)
    ensures w.phase.result.None? <==> w.cause.value.QuitSeen? || w.cause.value == StreamEnded(None)
    ensures w.cause.value.QuitSeen? ==> w.quit
    ensures w.lost.Some? && w.phase.result.None? ==> u(w.lost.value).err.None?
  {
    RunKeepsInv(cap, u, source, t);
  }

  /**
    A nil result does not mean quit, and a stream that ended without error may leave logs
    behind: when the client is shut down with one log in the channel, select may take the error.
  */
  lemma NilWithoutQuit<L, E, X>(cap: nat, u: L -> Unpacked<E, X>, log: L)
    requires cap > 0
    ensures exists t, w: Watcher<L, E, X> ::
      && Run(cap, u, Start([log]), t) == Some(w)
      && w.phase == Exited(None) && !w.quit && w.sent == [] && w.feed.buffer == [log]
  {
    hide Run;
    var w0: Watcher<L, E, X> := Start([log]);
    var w1 := After(cap, u, w0, Env(Send));
    var w2 := After(cap, u, w1, Env(Cancel));
    var w3 := After(cap, u, w2, Env(Fire(None)));
    var w4 := After(cap, u, w3, TakeErr);
    var t: seq<Step<X>> := [];
    RunNone(cap, u, w0);
    RunSnoc(cap, u, w0, t, Env(Send));
    RunSnoc(cap, u, w0, t + [Env(Send)], Env(Cancel));
    RunSnoc(cap, u, w0, t + [Env(Send)] + [Env(Cancel)], Env(Fire(None)));
    RunSnoc(cap, u, w0, t + [Env(Send)] + [Env(Cancel)] + [Env(Fire(None))], TakeErr);
    RunSnoc(cap, u, w0, t + [Env(Send)] + [Env(Cancel)] + [Env(Fire(None))] + [TakeErr], Unsubscribe);
    assert w0.feed.buffer + [log] == [log];
    assert Run(cap, u, w0, t + [Env(Send)] + [Env(Cancel)] + [Env(Fire(None))] + [TakeErr] + [Unsubscribe])
        == Some(After(cap, u, w4, Unsubscribe));
  }

  /** When the client is shut down the stream may end with logs that were never sent. */
  lemma ShutdownLosesLogs<L, E, X>(cap: nat, u: L -> Unpacked<E, X>, source: seq<L>)
    ensures exists t, w: Watcher<L, E, X> ::
      && Run(cap, u, Start(source), t) == Some(w)
      && w.phase == Exited(None) && !w.quit && w.sent == [] && w.feed.unsent == source
  {
    hide Run;
    var w0: Watcher<L, E, X> := Start(source);
    var w1 := After(cap, u, w0, Env(Cancel));
    var w2 := After(cap, u, w1, Env(Fire(None)));
    var w3 := After(cap, u, w2, TakeErr);
    var t: seq<Step<X>> := [];
    RunNone(cap, u, w0);
    RunSnoc(cap, u, w0, t, Env(Cancel));
    RunSnoc(cap, u, w0, t + [Env(Cancel)], Env(Fire(None)));
    RunSnoc(cap, u, w0, t + [Env(Cancel)] + [Env(Fire(None))], TakeErr);
    RunSnoc(cap, u, w0, t + [Env(Cancel)] + [Env(Fire(None))] + [TakeErr], Unsubscribe);
    assert Run(cap, u, w0, t + [Env(Cancel)] + [Env(Fire(None))] + [TakeErr] + [Unsubscribe])
        == Some(After(cap, u, w3, Unsubscribe));
  }

  /**
    An event that waits for the sink can be lost to either case of the inner select: to quit,
    with a nil result, and to an error x of the subscription, with x as the result.
  */
  lemma InFlightIsLost<L, E, X>(cap: nat, u: L -> Unpacked<E, X>, log: L, x: X)
    requires cap > 0 && u(log).err.None?
    ensures exists t, w: Watcher<L, E, X> ::
      && Run(cap, u, Start([log]), t) == Some(w)
      && w.phase == Exited(None) && w.cause == Some(QuitSeen) && w.lost == Some(log) && w.sent == []
    ensures exists t, w: Watcher<L, E, X> ::
      && Run(cap, u, Start([log]), t) == Some(w)
      && w.phase == Exited(Some(x)) && w.cause == Some(StreamEnded(Some(x))) && w.lost == Some(log) && w.sent == []
  {
    LostTo(cap, u, log, CloseQuit, TakeQuit);
    LostTo(cap, u, log, Env(Fire(Some(x))), TakeErr);
  }

  lemma LostTo<L, E, X>(cap: nat, u: L -> Unpacked<E, X>, log: L, signal: Step<X>, leave: Step<X>)
    requires cap > 0 && u(log).err.None?
    requires
      || (signal == CloseQuit && leave == TakeQuit)
      || (signal.Env? && signal.move.Fire? && signal.move.err.Some? && leave == TakeErr)
    ensures exists t, w: Watcher<L, E, X> ::
      && Run(cap, u, Start([log]), t) == Some(w) && w.lost == Some(log) && w.sent == []
      && w.phase == Exited(if leave == TakeQuit then None else signal.move.err)
      && w.cause == Some(if leave == TakeQuit then QuitSeen else StreamEnded(signal.move.err))
  {
    hide Run;
    var w0: Watcher<L, E, X> := Start([log]);
    var w1 := After(cap, u, w0, Env(Send));
    assert w1.feed.buffer == [log];
    var w2 := After(cap, u, w1, TakeLog);
    var w3 := After(cap, u, w2, signal);
    var w4 := After(cap, u, w3, leave);
    var t: seq<Step<X>> := [];
    RunNone(cap, u, w0);
    RunSnoc(cap, u, w0, t, Env(Send));
    RunSnoc(cap, u, w0, t + [Env(Send)], TakeLog);
    RunSnoc(cap, u, w0, t + [Env(Send)] + [TakeLog], signal);
    RunSnoc(cap, u, w0, t + [Env(Send)] + [TakeLog] + [signal], leave);
    RunSnoc(cap, u, w0, t + [Env(Send)] + [TakeLog] + [signal] + [leave], Unsubscribe);
    assert Run(cap, u, w0, t + [Env(Send)] + [TakeLog] + [signal] + [leave] + [Unsubscribe])
        == Some(After(cap, u, w4, Unsubscribe));
  }

  /** Quit may also win the outer select, and leave the log in the channel. */
  lemma QuitLeavesLog<L, E, X>(cap: nat, u: L -> Unpacked<E, X>, log: L)
    requires cap > 0
    ensures exists t, w: Watcher<L, E, X> ::
      && Run(cap, u, Start([log]), t) == Some(w)
      && w.phase == Exited(None) && w.cause == Some(QuitSeen) && w.lost == None && w.feed.buffer == [log]
  {
    hide Run;
    var w0: Watcher<L, E, X> := Start([log]);
    var w1 := After(cap, u, w0, Env(Send));
    assert w1.feed.buffer == [log];
    var w2 := After(cap, u, w1, CloseQuit);
    var w3 := After(cap, u, w2, TakeQuit);
    var t: seq<Step<X>> := [];
    RunNone(cap, u, w0);
    RunSnoc(cap, u, w0, t, Env(Send));
    RunSnoc(cap, u, w0, t + [Env(Send)], CloseQuit);
    RunSnoc(cap, u, w0, t + [Env(Send)] + [CloseQuit], TakeQuit);
    RunSnoc(cap, u, w0, t + [Env(Send)] + [CloseQuit] + [TakeQuit], Unsubscribe);
    assert Run(cap, u, w0, t + [Env(Send)] + [CloseQuit] + [TakeQuit] + [Unsubscribe])
        == Some(After(cap, u, w3, Unsubscribe));
  }

  /**
    The choice that loses logs. However the stream ended and whether or not it was cancelled:
    when the watcher leaves by an error or quit case, everything has been forwarded exactly if
    that was a case of the outer select, with an empty channel and nothing left to send.
    Whatever happens afterwards does not change that.
  */
  lemma LeavingChoice<L, E, X>(cap: nat, u: L -> Unpacked<E, X>, source: seq<L>, t1: seq<Step<X>>, s: Step<X>,
                               t2: seq<Step<X>>, w: Watcher<L, E, X>, end: Watcher<L, E, X>)
    requires Run(cap, u, Start(source), t1) == Some(w) && CanStep(cap, w, s) && (s == TakeErr || s == TakeQuit)
    requires Run(cap, u, Start(source), t1 + [s] + t2) == Some(end)
    ensures Decodes(u, source, end.sent) <==>
      w.phase.Selecting? && |w.feed.buffer| == 0 && |w.feed.unsent| == 0
  {
    hide Inv, After, CanStep;
    RunSnoc(cap, u, Start(source), t1, s);
    LeftIs(cap, u, w, s);
    LeavingIsFinal(cap, u, source, t1 + [s], t2);
    Safety(cap, u, source, t1, w);
    LogsCounted(cap, u, source, t1, w);
    if |w.sent| == |source| {
      assert source[..|w.sent|] == source;
    }
  }

  /** A stream that ended without error and was not cancelled has sent everything. */
  lemma UncancelledChoice<L, E, X>(cap: nat, u: L -> Unpacked<E, X>, source: seq<L>, t1: seq<Step<X>>, s: Step<X>,
                                   t2: seq<Step<X>>, w: Watcher<L, E, X>, end: Watcher<L, E, X>)
    requires Run(cap, u, Start(source), t1) == Some(w) && CanStep(cap, w, s) && (s == TakeErr || s == TakeQuit)
    requires Run(cap, u, Start(source), t1 + [s] + t2) == Some(end)
    requires w.feed.errs == Fired(None) && !w.feed.cancelled
    ensures Decodes(u, source, end.sent) <==> w.phase.Selecting? && |w.feed.buffer| == 0
  {
    hide Decodes;
    LeavingChoice(cap, u, source, t1, s, t2, w, end);
    RunKeepsInv(cap, u, source, t1);
  }

  lemma LeftIs<L, E, X>(cap: nat, u: L -> Unpacked<E, X>, w: Watcher<L, E, X>, s: Step<X>)
    requires CanStep(cap, w, s) && (s == TakeErr || s == TakeQuit)
    ensures InSelect(w) && !InSelect(After(cap, u, w, s)) && After(cap, u, w, s).sent == w.sent
  {
  }

  lemma LogsCounted<L, E, X>(cap: nat, u: L -> Unpacked<E, X>, source: seq<L>, t: seq<Step<X>>, w: Watcher<L, E, X>)
    requires Run(cap, u, Start(source), t) == Some(w) && InSelect(w)
    ensures |source| == |w.sent| + |w.feed.buffer| + |w.feed.unsent| + (if w.phase.Forwarding? then 1 else 0)
  {
    RunKeepsInv(cap, u, source, t);
    assert |w.feed.buffer + w.feed.unsent| == |w.feed.buffer| + |w.feed.unsent|;
  }

  lemma RunNone<L, E, X>(cap: nat, u: L -> Unpacked<E, X>, w: Watcher<L, E, X>)
    ensures Run(cap, u, w, []) == Some(w)
  {
  }

  lemma RunSnoc<L, E, X>(cap: nat, u: L -> Unpacked<E, X>, w: Watcher<L, E, X>, t: seq<Step<X>>, s: Step<X>)
    requires Run(cap, u, w, t).Some? && CanStep(cap, Run(cap, u, w, t).value, s)
    ensures Run(cap, u, w, t + [s]) == Some(After(cap, u, Run(cap, u, w, t).value, s))
  {
    assert (t + [s])[..|t + [s]| - 1] == t;
  }

  function Count<X(==)>(t: seq<Step<X>>, s: Step<X>): nat {
    if |t| == 0 then 0 else Count(t[..|t| - 1], s) + (if t[|t| - 1] == s then 1 else 0)
  }

  /** The subscription is released exactly once in a run that exits, and never before. */
  lemma {:induction false} UnsubscribesOnce<L, E, X>(cap: nat, u: L -> Unpacked<E, X>,
                                                     source: seq<L>, t: seq<Step<X>>, w: Watcher<L, E, X>)
    requires Run(cap, u, Start(source), t) == Some(w)
    ensures Count(t, Unsubscribe) == (if w.phase.Exited? then 1 else 0)
    ensures w.phase.Exited? ==> w.feed.cancelled
  {
    if |t| > 0 {
      UnsubscribesOnce(cap, u, source, t[..|t| - 1], Run(cap, u, Start(source), t[..|t| - 1]).value);
    }
  }

  /** Once the loop has been left nothing more is sent and the result stands. */
  lemma {:induction false} LeavingIsFinal<L, E, X>(cap: nat, u: L -> Unpacked<E, X>,
                                                   source: seq<L>, t1: seq<Step<X>>, t2: seq<Step<X>>)
    requires Run(cap, u, Start(source), t1).Some? && !InSelect(Run(cap, u, Start(source), t1).value)
    requires Run(cap, u, Start(source), t1 + t2).Some?
    ensures var before := Run(cap, u, Start(source), t1).value;
            var after := Run(cap, u, Start(source), t1 + t2).value;
            && !InSelect(after) && after.phase.result == before.phase.result
            && after.sent == before.sent && after.lost == before.lost && after.cause == before.cause
    ensures Count(t2, Forward) == 0
  {
    if |t2| == 0 {
      assert t1 + t2 == t1;
    } else {
      var t2' := t2[..|t2| - 1];
      assert (t1 + t2)[..|t1 + t2| - 1] == t1 + t2';
      LeavingIsFinal(cap, u, source, t1, t2');
    }
  }

  /** Three steps for an unsent log, two for a buffered one; one to fire the error channel; the way out. */
  function Work<L, E, X>(w: Watcher<L, E, X>): nat {
    3 * |w.feed.unsent| + 2 * |w.feed.buffer| + (if w.feed.errs.Open? then 1 else 0) +
    match w.phase
    case Selecting => 2
    case Forwarding(_) => 3
    case Returning(_) => 1
    case Exited(_) => 0
  }

  /** Steps of a run, cancelling and quit signals not counted. */
  function Productive<X>(t: seq<Step<X>>): nat {
    if |t| == 0 then 0 else
    Productive(t[..|t| - 1]) + (if t[|t| - 1] == Env(Cancel) || t[|t| - 1] == CloseQuit then 0 else 1)
  }

  lemma StepWorks<L, E, X>(cap: nat, u: L -> Unpacked<E, X>, w: Watcher<L, E, X>, s: Step<X>)
    requires CanStep(cap, w, s)
    ensures Work(After(cap, u, w, s)) + (if s == Env(Cancel) || s == CloseQuit then 0 else 1) <= Work(w)
  {
  }

  /** A watcher over n logs makes at most 3n + 3 steps besides signals. */
  lemma {:induction false} Termination<L, E, X>(cap: nat, u: L -> Unpacked<E, X>,
                                                source: seq<L>, t: seq<Step<X>>, w: Watcher<L, E, X>)
    requires Run(cap, u, Start(source), t) == Some(w)
    ensures Productive(t) + Work(w) <= 3 * |source| + 3
  {
    if |t| > 0 {
      var mid := Run(cap, u, Start(source), t[..|t| - 1]).value;
      Termination(cap, u, source, t[..|t| - 1], mid);
      StepWorks(cap, u, mid, t[|t| - 1]);
    }
  }

  /** Nothing has happened yet that keeps the watcher from forwarding all logs. */
  ghost predicate Healthy<L, E, X>(u: L -> Unpacked<E, X>, source: seq<L>, w: Watcher<L, E, X>) {
    AllUnpack(u, source) && InSelect(w) && !w.feed.cancelled
  }

  /** A step towards the exit that prefers forwarding to leaving. */
  function Onward<L, E, X>(w: Watcher<L, E, X>): Step<X>
    requires !w.phase.Exited?
  {
    match w.phase
    case Forwarding(_) => Forward
    case Returning(_) => Unsubscribe
    case Selecting =>
      if |w.feed.buffer| > 0 then TakeLog
      else if w.feed.errs.Fired? then TakeErr
      else if |w.feed.unsent| > 0 then Env(Send)
      else Env(Fire(None))
  }

  ghost predicate SentAll<L, E, X>(u: L -> Unpacked<E, X>, source: seq<L>, w: Watcher<L, E, X>) {
    Decodes(u, source, w.sent)
  }

  ghost predicate CanSendAll<L, E, X>(u: L -> Unpacked<E, X>, source: seq<L>, w: Watcher<L, E, X>) {
    SentAll(u, source, w) || (Healthy(u, source, w) && (w.feed.errs.Fired? ==> |w.feed.unsent| == 0))
  }

  lemma OnwardStep<L, E, X>(cap: nat, u: L -> Unpacked<E, X>, source: seq<L>, w: Watcher<L, E, X>)
    requires cap > 0 && Inv(cap, u, source, w) && !w.phase.Exited?
    ensures CanStep(cap, w, Onward(w))
    ensures var w' := After(cap, u, w, Onward(w));
            Work(w') < Work(w) && (CanSendAll(u, source, w) ==> CanSendAll(u, source, w'))
  {
    if w.phase.Selecting? && |w.feed.buffer| > 0 {
      ReceiveKeepsFeedInv(cap, source, |w.sent|, w.feed);
      if SentAll(u, source, w) {
        assert false;
      }
    }
    if |w.sent| == |source| {
      assert source[..|source|] == source;
    }
  }

  lemma ExitedCanSend<L, E, X>(u: L -> Unpacked<E, X>, source: seq<L>, w: Watcher<L, E, X>)
    requires w.phase.Exited?
    ensures CanSendAll(u, source, w) ==> SentAll(u, source, w)
  {
    hide SentAll;
  }

  /** No deadlock, and a watcher that nothing has disturbed can still forward every log. */
  lemma {:induction false} CanFinish<L, E, X>(cap: nat, u: L -> Unpacked<E, X>,
                                              source: seq<L>, t: seq<Step<X>>, w: Watcher<L, E, X>)
    returns (t': seq<Step<X>>)
    requires cap > 0 && Run(cap, u, Start(source), t) == Some(w)
    ensures Run(cap, u, Start(source), t + t').Some?
    ensures var end := Run(cap, u, Start(source), t + t').value;
            end.phase.Exited? && (CanSendAll(u, source, w) ==> SentAll(u, source, end))
    decreases Work(w)
  {
    hide Inv, CanSendAll, SentAll, CanStep, After, Onward;
    RunKeepsInv(cap, u, source, t);
    if w.phase.Exited? {
      ExitedCanSend(u, source, w);
      t' := [];
      assert t + t' == t;
    } else {
      var s := Onward(w);
      OnwardStep(cap, u, source, w);
      RunSnoc(cap, u, Start(source), t, s);
      var rest := CanFinish(cap, u, source, t + [s], After(cap, u, w, s));
      t' := [s] + rest;
      assert t + t' == t + [s] + rest;
    }
  }

  /** The watching goroutine. `feed` and `quit` are what the other side of the channels has done so far. */
  class EventWatcher<L, E, X> {
    const cap: nat
    const unpack: L -> Unpacked<E, X>
    var feed: Feed<L, X>
    var quit: bool
    var sink: seq<Event<L, E>>
    ghost const source: seq<L>
    ghost var phase: Phase<L, E, X>
    ghost var lost: Option<L>
    ghost var cause: Option<Cause<L, X>>
    ghost var unsubscribed: nat
    ghost var trace: seq<Step<X>>

    ghost function View(): Watcher<L, E, X>
      reads this
    {
      Watcher(feed, quit, phase, sink, lost, cause, unsubscribed)
    }

    /** The object's history is a run of the machine. */
    ghost predicate Valid()
      reads this
    {
      cap > 0 && Run(cap, unpack, Start(source), trace) == Some(View())
    }

    constructor (logs: seq<L>, unpack: L -> Unpacked<E, X>, cap: nat)
      requires cap > 0
      ensures Valid() && View() == Start(logs) && trace == []
      ensures source == logs && this.unpack == unpack && this.cap == cap
    {
      this.cap, this.unpack, source := cap, unpack, logs;
      feed, quit, sink := Opened(logs), false, [];
      phase, lost, cause, unsubscribed, trace := Selecting, None, None, 0, [];
    }

    ghost method Record(s: Step<X>, before: Watcher<L, E, X>)
      requires cap > 0 && Run(cap, unpack, Start(source), trace) == Some(before)
      requires CanStep(cap, before, s) && View() == After(cap, unpack, before, s)
      modifies this`trace
      ensures Valid() && trace == old(trace) + [s]
    {
      RunSnoc(cap, unpack, Start(source), trace, s);
      trace := trace + [s];
    }

    method Produce(a: FeedStep<X>)
      requires Valid() && CanMove(cap, feed, a)
      modifies this`feed, this`trace
      ensures Valid() && trace == old(trace) + [Env(a)] && feed == Move(cap, old(feed), a)
    {
      ghost var before := View();
      feed := Move(cap, feed, a);
      Record(Env(a), before);
    }

    /** The caller unsubscribes from the subscription that `Watch*` returned. */
    method Quit()
      requires Valid()
      modifies this`quit, this`trace
      ensures Valid() && old(trace) <= trace && quit
    {
      ghost var before := View();
      quit := true;
      Record(CloseQuit, before);
    }

    /** Any number of producer steps, cancellations and quit signals. */
    method Environment()
      requires Valid()
      modifies this`feed, this`quit, this`trace
      ensures Valid() && old(trace) <= trace
    {
      var n: nat := *;
      while n > 0
        invariant Valid() && old(trace) <= trace
      {
        var a: FeedStep<X> := *;
        var quitting: bool := *;
        if quitting {
          Quit();
        } else if CanMove(cap, feed, a) {
          Produce(a);
        }
        n := n - 1;
      }
    }

    /** The outer select, blocked until one of its three cases is ready. */
    method Await()
      requires Valid()
      modifies this`feed, this`quit, this`trace
      ensures Valid() && old(trace) <= trace
      ensures |feed.buffer| > 0 || feed.errs.Fired? || quit
    {
      Environment();
      if |feed.buffer| == 0 && feed.errs.Open? && !quit {
        var err: Option<X> := *;
        if {
          case |feed.unsent| > 0 => Produce(Send);
          case |feed.unsent| == 0 || feed.cancelled => Produce(Fire(None));
          case err.Some? => Produce(Fire(err));
          case true => Quit();
        }
      }
    }

    /** Returning from a select because of its error channel or quit case. */
    ghost method Leave(s: Step<X>, why: Cause<L, X>)
      requires Valid() && InSelect(View())
      requires
        || (s == TakeErr && feed.errs.Fired? && why == StreamEnded(feed.errs.err))
        || (s == TakeQuit && quit && why == QuitSeen)
      modifies this`phase, this`lost, this`cause, this`trace
      ensures Valid() && trace == old(trace) + [s] && phase == Returning(ResultOf(why)) && cause == Some(why)
    {
      var before := View();
      lost := Held(before);
      phase, cause := Returning(ResultOf(why)), Some(why);
      Record(s, before);
    }

    /**
      The function given to `NewSubscription`; its result is what the caller's error
      channel receives. `Safety` and `ExitCause` say what the final state means.
    */
    method Watch() returns (result: Option<X>)
      requires Valid() && phase.Selecting?
      modifies this
      ensures Valid() && old(trace) <= trace
      ensures phase == Exited(result) && unsubscribed == 1 && feed.cancelled
      ensures DecodesPrefix(unpack, source, sink) && old(sink) <= sink
    {
      result := Loop();
      // The deferred Unsubscribe.
      ghost var before := View();
      feed := Move(cap, feed, Cancel);
      phase, unsubscribed := Exited(result), unsubscribed + 1;
      Record(Unsubscribe, before);
      RunKeepsInv(cap, unpack, source, trace);
    }

    /** `case log := <-logs`: unpacks the log into a fresh event. */
    method Take() returns (event: Event<L, E>, err: Option<X>)
      requires Valid() && phase.Selecting? && |feed.buffer| > 0
      modifies this`feed, this`phase, this`lost, this`cause, this`trace
      ensures Valid() && trace == old(trace) + [TakeLog]
      ensures err == unpack(old(feed.buffer[0])).err
      ensures phase == if err.Some? then Returning(err) else Forwarding(event)
    {
      ghost var before := View();
      var log := feed.buffer[0];
      feed := Received(feed);
      var out := unpack(log);
      event := Event(out.fields, None);
      if out.err.Some? {
        phase, lost, cause := Returning(out.err), Some(log), Some(UnpackFailed(log, out.err.value));
        Record(TakeLog, before);
        return event, out.err;
      }
      event := event.(raw := Some(log));
      phase := Forwarding(event);
      Record(TakeLog, before);
      return event, None;
    }

    /** `case sink <- event`. */
    method SendToSink(event: Event<L, E>)
      requires Valid() && phase == Forwarding(event)
      modifies this`sink, this`phase, this`trace
      ensures Valid() && trace == old(trace) + [Forward]
      ensures phase.Selecting? && sink == old(sink) + [event]
    {
      ghost var before := View();
      sink := sink + [event];
      phase := Selecting;
      Record(Forward, before);
    }

    lemma SinkBounded()
      requires Valid()
      ensures |sink| <= |source|
    {
      RunKeepsInv(cap, unpack, source, trace);
    }

    /** The inner select: forward the event, or give up on it. */
    method Offer(event: Event<L, E>) returns (stop: bool, result: Option<X>)
      requires Valid() && phase == Forwarding(event)
      modifies this`feed, this`quit, this`sink, this`phase, this`lost, this`cause, this`trace
      ensures Valid() && old(trace) <= trace
      ensures stop ==> phase == Returning(result) && sink == old(sink)
      ensures !stop ==> phase.Selecting? && sink == old(sink) + [event]
    {
      Environment();
      if {
        case true =>
          SendToSink(event);
          return false, None;
        case feed.errs.Fired? =>
          Leave(TakeErr, StreamEnded(feed.errs.err));
          return true, feed.errs.err;
        case quit =>
          Leave(TakeQuit, QuitSeen);
          return true, None;
      }
    }

    method Loop() returns (result: Option<X>)
      requires Valid() && phase.Selecting?
      modifies this`feed, this`quit, this`sink, this`phase, this`lost, this`cause, this`trace
      ensures Valid() && old(trace) <= trace && phase == Returning(result) && old(sink) <= sink
    {
      SinkBounded();
      while true
        invariant Valid() && old(trace) <= trace && phase.Selecting? && old(sink) <= sink
        invariant |sink| <= |source|
        decreases |source| - |sink|
      {
        Await();
        if {
          case |feed.buffer| > 0 =>
            var event, err := Take();
            if err.Some? {
              return err;
            }
            var stop, reason := Offer(event);
            if stop {
              return reason;
            }
            SinkBounded();
          case feed.errs.Fired? =>
            Leave(TakeErr, StreamEnded(feed.errs.err));
            return feed.errs.err;
          case quit =>
            Leave(TakeQuit, QuitSeen);
            return None;
        }
      }
    }
  }
}
