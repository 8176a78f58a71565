/**
  The iterator that every `Filter*` binding returns: `Next`, `Error`, `Close`.
  The six generated copies differ only in their log and event types, so the model
  is generic in them. `Iter` and `Step` describe every interleaving of the
  consumer with the producer goroutine; the class `EventIterator` is the consumer's code,
  and its executions are runs of that machine.
*/
module EventIterators {
  import opened Subscriptions

  datatype Iter<+L, +E, +X> = Iter(
    feed: Feed<L, X>,
    done: bool,
    fail: Option<X>,
    event: Option<Event<L, E>>,
    delivered: seq<Event<L, E>>,  // history: events of the calls of Next that returned true
    rejected: Option<L>           // history: the log whose unpacking failed
  )

  datatype Step<+X> = Env(move: FeedStep<X>) | TakeLog | TakeErr

  function Start<L, E, X>(source: seq<L>): Iter<L, E, X> {
    Iter(Opened(source), false, None, None, [], None)
  }

  predicate CanStep<L, E, X>(cap: nat, it: Iter<L, E, X>, s: Step<X>) {
    match s
    case Env(a) => CanMove(cap, it.feed, a)
    case TakeLog => it.fail.None? && |it.feed.buffer| > 0
    case TakeErr => it.fail.None? && !it.done && it.feed.errs.Fired?
  }

  function After<L, E, X>(cap: nat, u: L -> Unpacked<E, X>, it: Iter<L, E, X>, s: Step<X>): Iter<L, E, X>
    requires CanStep(cap, it, s)
  {
    match s
    case Env(a) => it.(feed := Move(cap, it.feed, a))
    case TakeErr => it.(done := true, fail := it.feed.errs.err)
    case TakeLog =>
      var log := it.feed.buffer[0];
      var out := u(log);
      var rest := it.(feed := Received(it.feed));
      if out.err.Some? then
        rest.(event := Some(Event(out.fields, None)), fail := out.err, rejected := Some(log))
      else
        var event := Event(out.fields, Some(log));
        rest.(event := Some(event), delivered := it.delivered + [event])
  }

  /** The state an interleaving leads to, or None when it takes a step that was not possible. */
  ghost function Run<L, E, X>(cap: nat, u: L -> Unpacked<E, X>,
                              it: Iter<L, E, X>, t: seq<Step<X>>): Option<Iter<L, E, X>> {
    if |t| == 0 then Some(it) else
    match Run(cap, u, it, t[..|t| - 1])
    case None => None
    case Some(mid) => if CanStep(cap, mid, t[|t| - 1]) then Some(After(cap, u, mid, t[|t| - 1])) else None
  }

  /** The states in which `Next` returns false without waiting. */
  predicate Finished<L, E, X>(it: Iter<L, E, X>) {
    it.fail.Some? || (it.done && |it.feed.buffer| == 0)
  }

  function Rejected<L, E, X>(it: Iter<L, E, X>): seq<L> {
    if it.rejected.Some? then [it.rejected.value] else []
  }

  ghost predicate Inv<L, E, X>(cap: nat, u: L -> Unpacked<E, X>, source: seq<L>, it: Iter<L, E, X>) {
    var n := |it.delivered|;
    && FeedInv(cap, source, n + |Rejected(it)|, it.feed)
    && DecodesPrefix(u, source, it.delivered)
    && (it.rejected.Some? ==> it.rejected.value == source[n] && u(source[n]).err == it.fail && it.fail.Some?)
    && (it.done ==> it.feed.errs.Fired?)
    && (it.done && (it.fail.None? || it.rejected.Some?) ==> it.feed.errs == Fired(None))
    && (it.fail.Some? && it.rejected.None? ==> it.done && it.feed.errs == Fired(it.fail))
    && (n > 0 && it.rejected.None? ==> it.event == Some(it.delivered[n - 1]))
    && (it.rejected.Some? ==> it.event == Some(Event(u(source[n]).fields, None)))
  }

  lemma MoveKeepsInv<L, E, X>(cap: nat, u: L -> Unpacked<E, X>, source: seq<L>, it: Iter<L, E, X>, a: FeedStep<X>)
    requires Inv(cap, u, source, it) && CanMove(cap, it.feed, a)
    ensures Inv(cap, u, source, it.(feed := Move(cap, it.feed, a)))
  {
    hide FeedInv, DecodesPrefix;
    MoveKeepsFeedInv(cap, source, |it.delivered| + |Rejected(it)|, it.feed, a);
  }

  lemma EndKeepsInv<L, E, X>(cap: nat, u: L -> Unpacked<E, X>, source: seq<L>, it: Iter<L, E, X>)
    requires Inv(cap, u, source, it) && CanStep(cap, it, TakeErr)
    ensures Inv(cap, u, source, After(cap, u, it, TakeErr))
  {
    hide FeedInv, DecodesPrefix;
  }

  lemma TakeKeepsInv<L, E, X>(cap: nat, u: L -> Unpacked<E, X>, source: seq<L>, it: Iter<L, E, X>)
    requires Inv(cap, u, source, it) && CanStep(cap, it, TakeLog)
    ensures Inv(cap, u, source, After(cap, u, it, TakeLog))
  {
    hide FeedInv, DecodesPrefix;
    var n := |it.delivered|;
    TakenIsNext(cap, source, n, it.feed);
    if u(source[n]).err.None? {
      DecodesOneMore(u, source, it.delivered);
    }
  }

  lemma StepKeepsInv<L, E, X>(cap: nat, u: L -> Unpacked<E, X>, source: seq<L>, it: Iter<L, E, X>, s: Step<X>)
    requires Inv(cap, u, source, it) && CanStep(cap, it, s)
    ensures Inv(cap, u, source, After(cap, u, it, s))
  {
    hide Inv;
    match s
    case Env(a) => MoveKeepsInv(cap, u, source, it, a);
    case TakeErr => EndKeepsInv(cap, u, source, it);
    case TakeLog => TakeKeepsInv(cap, u, source, it);
  }

  lemma {:induction false} RunKeepsInv<L, E, X>(cap: nat, u: L -> Unpacked<E, X>, source: seq<L>, t: seq<Step<X>>)
    requires Run(cap, u, Start(source), t).Some?
    ensures Inv(cap, u, source, Run(cap, u, Start(source), t).value)
  {
    if |t| > 0 {
      var t' := t[..|t| - 1];
      RunKeepsInv(cap, u, source, t');
      StepKeepsInv(cap, u, source, Run(cap, u, Start(source), t').value, t[|t| - 1]);
    }
  }

  ghost predicate AllRaw<L, E>(events: seq<Event<L, E>>) {
    forall i :: 0 <= i < |events| ==> events[i].raw.Some?
  }

  /** Raw logs of delivered events. */
  ghost function RawLogs<L, E>(events: seq<Event<L, E>>): seq<L>
    requires AllRaw(events)
  {
    seq(|events|, i requires 0 <= i < |events| => events[i].raw.value)
  }

  lemma Pieces<L>(source: seq<L>, a: seq<L>, b: seq<L>, c: seq<L>, d: seq<L>)
    requires |a| + |b| <= |source| && a == source[..|a|]
    requires b == source[|a|..|a| + |b|] && c + d == source[|a| + |b|..]
    ensures a + b + c + d == source
  {
    assert a + b + (c + d) == source;
  }

  /**
    Conservation: at every moment of every interleaving the delivered logs, the log
    that failed to unpack, the buffered logs and the unsent logs are together the
    source, in order. Nothing is lost, duplicated or reordered.
  */
  lemma Conservation<L, E, X>(cap: nat, u: L -> Unpacked<E, X>, source: seq<L>, t: seq<Step<X>>, it: Iter<L, E, X>)
    requires Run(cap, u, Start(source), t) == Some(it)
    ensures DecodesPrefix(u, source, it.delivered) && AllRaw(it.delivered)
    ensures RawLogs(it.delivered) + Rejected(it) + it.feed.buffer + it.feed.unsent == source
    ensures |it.feed.buffer| <= cap
  {
    RunKeepsInv(cap, u, source, t);
    var n := |it.delivered|;
    assert RawLogs(it.delivered) == source[..n];
    Pieces(source, RawLogs(it.delivered), Rejected(it), it.feed.buffer, it.feed.unsent);
  }

  /**
    Failure is exact: `Error` reports x exactly when the first undelivered log fails to
    unpack with x and was taken, or the subscription reported x and the iterator saw it.
  */
  lemma FailureCause<L, E, X>(cap: nat, u: L -> Unpacked<E, X>,
                              source: seq<L>, t: seq<Step<X>>, it: Iter<L, E, X>, x: X)
    requires Run(cap, u, Start(source), t) == Some(it)
    ensures it.fail == Some(x) <==>
      || (it.rejected.Some? && |it.delivered| < |source| && it.rejected.value == source[|it.delivered|]
          && u(it.rejected.value).err == Some(x))
      || (it.rejected.None? && it.done && it.feed.errs == Fired(Some(x)))
    ensures it.rejected.Some? ==> it.event == Some(Event(u(it.rejected.value).fields, None))
  {
    RunKeepsInv(cap, u, source, t);
  }

  lemma RunNone<L, E, X>(cap: nat, u: L -> Unpacked<E, X>, it: Iter<L, E, X>)
    ensures Run(cap, u, it, []) == Some(it)
  {
  }

  lemma RunSnoc<L, E, X>(cap: nat, u: L -> Unpacked<E, X>, it: Iter<L, E, X>, t: seq<Step<X>>, s: Step<X>)
    requires Run(cap, u, it, t).Some? && CanStep(cap, Run(cap, u, it, t).value, s)
    ensures Run(cap, u, it, t + [s]) == Some(After(cap, u, Run(cap, u, it, t).value, s))
  {
    assert (t + [s])[..|t + [s]| - 1] == t;
  }

  /** A subscription may fail before anything has arrived, and `Error` then reports it. */
  lemma ErrorsArrive<L, E, X>(cap: nat, u: L -> Unpacked<E, X>, source: seq<L>, x: X)
    ensures exists t, it: Iter<L, E, X> ::
      Run(cap, u, Start(source), t) == Some(it) && it.fail == Some(x) && it.delivered == [] && it.feed.unsent == source
  {
    hide Run;
    var i0: Iter<L, E, X> := Start(source);
    var i1 := After(cap, u, i0, Env(Fire(Some(x))));
    var t: seq<Step<X>> := [];
    RunNone(cap, u, i0);
    RunSnoc(cap, u, i0, t, Env(Fire(Some(x))));
    RunSnoc(cap, u, i0, t + [Env(Fire(Some(x)))], TakeErr);
    assert Run(cap, u, i0, t + [Env(Fire(Some(x)))] + [TakeErr]) == Some(After(cap, u, i1, TakeErr));
  }

  /** The end of the stream may be seen while a log is still in the channel; it is delivered all the same. */
  lemma EndBeforeLog<L, E, X>(cap: nat, u: L -> Unpacked<E, X>, log: L)
    requires cap > 0 && u(log).err.None?
    ensures exists t, it: Iter<L, E, X> ::
      && Run(cap, u, Start([log]), t) == Some(it) && it.done && it.delivered == [] && it.feed.buffer == [log]
      && CanStep(cap, it, TakeLog) && After(cap, u, it, TakeLog).delivered == [Event(u(log).fields, Some(log))]
  {
    hide Run;
    var i0: Iter<L, E, X> := Start([log]);
    var i1 := After(cap, u, i0, Env(Send));
    var i2 := After(cap, u, i1, Env(Fire(None)));
    var t: seq<Step<X>> := [];
    RunNone(cap, u, i0);
    RunSnoc(cap, u, i0, t, Env(Send));
    RunSnoc(cap, u, i0, t + [Env(Send)], Env(Fire(None)));
    RunSnoc(cap, u, i0, t + [Env(Send)] + [Env(Fire(None))], TakeErr);
    assert i0.feed.buffer + [log] == [log];
    assert Run(cap, u, i0, t + [Env(Send)] + [Env(Fire(None))] + [TakeErr]) == Some(After(cap, u, i2, TakeErr));
  }

  lemma FinishedStays<L, E, X>(cap: nat, u: L -> Unpacked<E, X>, source: seq<L>, it: Iter<L, E, X>, s: Step<X>)
    requires Inv(cap, u, source, it) && Finished(it) && CanStep(cap, it, s)
    ensures Finished(After(cap, u, it, s)) && After(cap, u, it, s) == it.(feed := After(cap, u, it, s).feed)
    ensures it.feed.buffer <= After(cap, u, it, s).feed.buffer
  {
  }

  /**
    A false `Next` is final: whatever happens after the iterator has finished, it stays
    finished, delivers and takes nothing more, and `Error` keeps reporting what it reported first.
  */
  lemma {:induction false} FinishedIsFinal<L, E, X>(cap: nat, u: L -> Unpacked<E, X>,
                                                    source: seq<L>, t1: seq<Step<X>>, t2: seq<Step<X>>)
    requires Run(cap, u, Start(source), t1).Some? && Finished(Run(cap, u, Start(source), t1).value)
    requires Run(cap, u, Start(source), t1 + t2).Some?
    ensures var before := Run(cap, u, Start(source), t1).value;
            var after := Run(cap, u, Start(source), t1 + t2).value;
            Finished(after) && after == before.(feed := after.feed) && before.feed.buffer <= after.feed.buffer
  {
    if |t2| == 0 {
      assert t1 + t2 == t1;
    } else {
      var t2' := t2[..|t2| - 1];
      assert (t1 + t2)[..|t1 + t2| - 1] == t1 + t2';
      FinishedIsFinal(cap, u, source, t1, t2');
      RunKeepsInv(cap, u, source, t1 + t2');
      FinishedStays(cap, u, source, Run(cap, u, Start(source), t1 + t2').value, t2[|t2| - 1]);
    }
  }

  /** The four ways in which an iteration can end. */
  lemma Outcome<L, E, X>(cap: nat, u: L -> Unpacked<E, X>, source: seq<L>, t: seq<Step<X>>, it: Iter<L, E, X>)
    requires Run(cap, u, Start(source), t) == Some(it) && Finished(it)
    ensures |it.delivered| + |Rejected(it)| <= |source|
    ensures it.fail.None? && !it.feed.cancelled ==> Decodes(u, source, it.delivered)
    ensures it.fail.None? ==> it.feed.unsent == source[|it.delivered|..]
    ensures it.fail.Some? && it.rejected.Some? ==> it.feed.buffer + it.feed.unsent == source[|it.delivered| + 1..]
    ensures it.fail.Some? && it.rejected.None? ==> it.feed.buffer + it.feed.unsent == source[|it.delivered|..]
    ensures Decodes(u, source, it.delivered) <==> |it.feed.buffer| + |it.feed.unsent| == 0 && it.rejected.None?
  {
    RunKeepsInv(cap, u, source, t);
    var n := |it.delivered|;
    if n == |source| {
      assert source[..n] == source;
    }
    if it.fail.None? {
      assert it.feed.buffer + it.feed.unsent == it.feed.unsent;
    }
  }

  /** When all logs unpack: what has been delivered is a prefix, and a clean end has delivered everything. */
  lemma Delivers<L, E, X>(cap: nat, u: L -> Unpacked<E, X>, logs: seq<L>, t: seq<Step<X>>, it: Iter<L, E, X>)
    requires Run(cap, u, Start(logs), t) == Some(it) && AllUnpack(u, logs)
    ensures DecodesPrefix(u, logs, it.delivered)
    ensures it.rejected == None
    ensures it.fail.Some? ==> it.done && it.feed.errs == Fired(it.fail)
    ensures Finished(it) && it.fail.None? && !it.feed.cancelled ==> |it.delivered| == |logs|
  {
    RunKeepsInv(cap, u, logs, t);
    if Finished(it) {
      Outcome(cap, u, logs, t, it);
    }
  }

  /** Work left: two steps for an unsent log, one for a buffered one, one to fire and one to see the error channel. */
  function Work<L, E, X>(it: Iter<L, E, X>): nat {
    2 * |it.feed.unsent| + |it.feed.buffer| + (if it.feed.errs.Open? then 1 else 0) + (if it.done then 0 else 1)
  }

  /** Steps of a run, cancellations not counted. */
  function Productive<X>(t: seq<Step<X>>): nat {
    if |t| == 0 then 0 else Productive(t[..|t| - 1]) + (if t[|t| - 1] == Env(Cancel) then 0 else 1)
  }

  lemma StepWorks<L, E, X>(cap: nat, u: L -> Unpacked<E, X>, it: Iter<L, E, X>, s: Step<X>)
    requires CanStep(cap, it, s)
    ensures Work(After(cap, u, it, s)) + (if s == Env(Cancel) then 0 else 1) <= Work(it)
  {
  }

  /** No interleaving goes on forever: a run over n logs makes at most 2n + 2 steps besides cancellations. */
  lemma {:induction false} Termination<L, E, X>(cap: nat, u: L -> Unpacked<E, X>,
                                                source: seq<L>, t: seq<Step<X>>, it: Iter<L, E, X>)
    requires Run(cap, u, Start(source), t) == Some(it)
    ensures Productive(t) + Work(it) <= 2 * |source| + 2
  {
    if |t| > 0 {
      var mid := Run(cap, u, Start(source), t[..|t| - 1]).value;
      Termination(cap, u, source, t[..|t| - 1], mid);
      StepWorks(cap, u, mid, t[|t| - 1]);
    }
  }

  /** The step with which an unfinished iteration goes on. */
  function Onward<L, E, X>(it: Iter<L, E, X>): Step<X>
    requires !Finished(it)
  {
    if |it.feed.buffer| > 0 then TakeLog
    else if it.feed.errs.Fired? then TakeErr
    else if |it.feed.unsent| > 0 then Env(Send)
    else Env(Fire(None))
  }

  /** Nothing has happened yet that keeps the iteration from delivering all logs. */
  ghost predicate Healthy<L, E, X>(u: L -> Unpacked<E, X>, source: seq<L>, it: Iter<L, E, X>) {
    && AllUnpack(u, source) && it.fail.None? && !it.feed.cancelled
    && (it.feed.errs.Fired? ==> it.feed.errs.err.None?)
  }

  ghost predicate EndsWell<L, E, X>(u: L -> Unpacked<E, X>, source: seq<L>, it: Iter<L, E, X>, end: Iter<L, E, X>) {
    && Finished(end) && end.feed.cancelled == it.feed.cancelled
    && (Healthy(u, source, it) ==> Decodes(u, source, end.delivered))
  }

  lemma OnwardStep<L, E, X>(cap: nat, u: L -> Unpacked<E, X>, source: seq<L>, it: Iter<L, E, X>)
    requires cap > 0 && Inv(cap, u, source, it) && !Finished(it)
    ensures CanStep(cap, it, Onward(it))
    ensures var it' := After(cap, u, it, Onward(it));
            && Work(it') < Work(it) && it'.feed.cancelled == it.feed.cancelled
            && (Healthy(u, source, it) ==> Healthy(u, source, it'))
  {
    assert |it.feed.buffer| > 0 ==> (it.feed.buffer + it.feed.unsent)[0] == it.feed.buffer[0];
  }

  lemma OnwardFromRun<L, E, X>(cap: nat, u: L -> Unpacked<E, X>, source: seq<L>, t: seq<Step<X>>, it: Iter<L, E, X>)
    requires cap > 0 && Run(cap, u, Start(source), t) == Some(it) && !Finished(it)
    ensures CanStep(cap, it, Onward(it))
    ensures var it' := After(cap, u, it, Onward(it));
            && Work(it') < Work(it) && it'.feed.cancelled == it.feed.cancelled
            && (Healthy(u, source, it) ==> Healthy(u, source, it'))
  {
    RunKeepsInv(cap, u, source, t);
    OnwardStep(cap, u, source, it);
  }

  /**
    No deadlock: from every reachable state the iteration can be brought to its end
    without cancelling it, and from a healthy state to one that has delivered everything.
  */
  lemma {:induction false} CanFinish<L, E, X>(cap: nat, u: L -> Unpacked<E, X>,
                                              source: seq<L>, t: seq<Step<X>>, it: Iter<L, E, X>)
    returns (t': seq<Step<X>>)
    requires cap > 0 && Run(cap, u, Start(source), t) == Some(it)
    ensures Run(cap, u, Start(source), t + t').Some?
    ensures EndsWell(u, source, it, Run(cap, u, Start(source), t + t').value)
    decreases Work(it)
  {
    if Finished(it) {
      t' := [];
      assert t + t' == t;
      Outcome(cap, u, source, t, it);
    } else {
      var s := Onward(it);
      var next := After(cap, u, it, s);
      OnwardFromRun(cap, u, source, t, it);
      RunSnoc(cap, u, Start(source), t, s);
      var rest := CanFinish(cap, u, source, t + [s], next);
      t' := [s] + rest;
      assert t + [s] + rest == t + t';
    }
  }

  /** The consumer. `feed` is what the producer goroutine and the channels have done so far. */
  class EventIterator<L, E, X> {
    const cap: nat
    const unpack: L -> Unpacked<E, X>
    var feed: Feed<L, X>
    var event: Option<Event<L, E>>
    var done: bool
    var fail: Option<X>
    ghost const source: seq<L>
    ghost var delivered: seq<Event<L, E>>
    ghost var rejected: Option<L>
    ghost var trace: seq<Step<X>>

    ghost function View(): Iter<L, E, X>
      reads this
    {
      Iter(feed, done, fail, event, delivered, rejected)
    }

    /** The object's history is a run of the machine. */
    ghost predicate Valid()
      reads this
    {
      cap > 0 && Run(cap, unpack, Start(source), trace) == Some(View())
    }

    /** What `Filter*` returns once the query has produced `logs`. */
    constructor (logs: seq<L>, unpack: L -> Unpacked<E, X>, cap: nat)
      requires cap > 0
      ensures Valid() && View() == Start(logs) && trace == []
      ensures source == logs && this.unpack == unpack && this.cap == cap
    {
      this.cap, this.unpack, source := cap, unpack, logs;
      feed, event, done, fail := Opened(logs), None, false, None;
      delivered, rejected, trace := [], None, [];
    }

    ghost method Record(s: Step<X>, before: Iter<L, E, X>)
      requires cap > 0 && Run(cap, unpack, Start(source), trace) == Some(before)
      requires CanStep(cap, before, s) && View() == After(cap, unpack, before, s)
      modifies this`trace
      ensures Valid() && trace == old(trace) + [s]
    {
      trace := trace + [s];
      assert trace[..|trace| - 1] == old(trace);
    }

    /** Any number of producer steps and cancellations. */
    method Environment()
      requires Valid()
      modifies this`feed, this`trace
      ensures Valid() && old(trace) <= trace
      ensures old(feed.errs).Fired? ==> feed.errs == old(feed.errs) && feed.buffer == old(feed.buffer)
      ensures old(feed.cancelled) ==> feed.cancelled
    {
      var n: nat := *;
      while n > 0
        invariant Valid() && old(trace) <= trace
        invariant old(feed.errs).Fired? ==> feed.errs == old(feed.errs) && feed.buffer == old(feed.buffer)
        invariant old(feed.cancelled) ==> feed.cancelled
      {
        var a: FeedStep<X> := *;
        if CanMove(cap, feed, a) {
          Produce(a);
        }
        n := n - 1;
      }
    }

    method Produce(a: FeedStep<X>)
      requires Valid() && CanMove(cap, feed, a)
      modifies this`feed, this`trace
      ensures Valid() && trace == old(trace) + [Env(a)] && feed == Move(cap, old(feed), a)
    {
      ghost var before := View();
      feed := Move(cap, feed, a);
      Record(Env(a), before);
    }

    /** The blocking select: returns when one of its two cases is ready. */
    method Await()
      requires Valid()
      modifies this`feed, this`trace
      ensures Valid() && old(trace) <= trace
      ensures |feed.buffer| > 0 || feed.errs.Fired?
    {
      Environment();
      if |feed.buffer| == 0 && feed.errs.Open? {
        // Blocked; the producer makes the next move.
        var err: Option<X> := *;
        if {
          case |feed.unsent| > 0 => Produce(Send);
          case |feed.unsent| == 0 || feed.cancelled => Produce(Fire(None));
          case err.Some? => Produce(Fire(err));
        }
      }
    }

    /** `case log := <-it.logs` of both selects. */
    method Receive() returns (ok: bool)
      requires Valid() && fail.None? && |feed.buffer| > 0
      modifies this`feed, this`trace, this`event, this`fail, this`delivered, this`rejected
      ensures Valid() && trace == old(trace) + [TakeLog]
      ensures ok <==> unpack(old(feed.buffer[0])).err.None?
      ensures ok <==> fail.None?
      ensures fail == unpack(old(feed.buffer[0])).err
      ensures event == Some(Event(unpack(old(feed.buffer[0])).fields, if ok then Some(old(feed.buffer[0])) else None))
    {
      ghost var before := View();
      var log := feed.buffer[0];
      feed := Received(feed);
      var out := unpack(log);
      event := Some(Event(out.fields, None));
      if out.err.Some? {
        fail := out.err;
        rejected := Some(log);
        Record(TakeLog, before);
        return false;
      }
      event := Some(event.value.(raw := Some(log)));
      delivered := delivered + [event.value];
      Record(TakeLog, before);
      return true;
    }

    /** Advances the iterator; see `Outcome` for what a false result means. */
    method Next() returns (ok: bool)
      requires Valid()
      modifies this
      ensures Valid() && old(trace) <= trace
      ensures ok ==> fail.None? && event.Some? && delivered == old(delivered) + [event.value]
      ensures !ok ==> delivered == old(delivered) && Finished(View())
      ensures old(Finished(View())) ==> !ok && event == old(event) && done == old(done) && fail == old(fail)
      decreases if done then 0 else 1
    {
      RunKeepsInv(cap, unpack, source, trace);
      if fail.Some? {
        return false;
      }
      if done {
        Environment();
        if {
          case |feed.buffer| > 0 =>
            ok := Receive();
          case |feed.buffer| == 0 =>
            return false;
        }
      } else {
        Await();
        if {
          case |feed.buffer| > 0 =>
            ok := Receive();
          case feed.errs.Fired? =>
            ghost var before := View();
            done := true;
            fail := feed.errs.err;
            Record(TakeErr, before);
            ok := Next();
        }
      }
    }

    method Error() returns (err: Option<X>)
      requires Valid()
      ensures err == fail
    {
      return fail;
    }

    /** `Unsubscribe`: cancels, and waits until the producer has shut down. */
    method Close()
      requires Valid()
      modifies this`feed, this`trace
      ensures Valid() && old(trace) <= trace && feed.cancelled && feed.errs.Fired?
    {
      Produce(Cancel);
      Environment();
      if feed.errs.Open? {
        Produce(Fire(None));
      }
    }

    /**
      A caller's loop over `Next`. It ends, and without an error or a `Close` it has seen
      the decodings of all logs, in order.
    */
    method Drain() returns (events: seq<Event<L, E>>)
      requires Valid() && trace == []
      modifies this
      ensures Valid() && Finished(View())
      ensures events == delivered && DecodesPrefix(unpack, source, events)
      ensures fail.None? && !feed.cancelled ==> Decodes(unpack, source, events)
      ensures fail.Some? ==> feed.errs == Fired(fail) || (|events| < |source| && unpack(source[|events|]).err == fail)
    {
      events := [];
      var ok := Next();
      RunKeepsInv(cap, unpack, source, trace);
      while ok
        invariant Valid()
        invariant ok ==> event.Some? && delivered == events + [event.value]
        invariant !ok ==> Finished(View()) && delivered == events
        invariant |delivered| <= |source|
        decreases |source| - |delivered|, ok
      {
        events := events + [event.value];
        ok := Next();
        RunKeepsInv(cap, unpack, source, trace);
      }
      Outcome(cap, unpack, source, trace, View());
      RunKeepsInv(cap, unpack, source, trace);
    }
  }
}
