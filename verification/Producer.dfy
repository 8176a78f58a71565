/**
  The producer behind every `Filter*`: the goroutine that `NewSubscription` starts with the
  loop of `BoundContract.FilterLogs`, and `Unsubscribe`. It keeps the rules that
  `Subscriptions.FeedStep` states, so for filters they need not be assumed.
*/
module FilterProducer {
  import opened Subscriptions
  import opened I = EventIterators

  /** Where the goroutine is: in the loop, behind it with the function returned, or gone. */
  datatype Stage = Looping | Returned | Gone

  /** `rest` are the logs the loop has still to send; `quit` is the channel that `Unsubscribe` closes. */
  datatype Producer<+L> = Producer(
    rest: seq<L>, logs: seq<L>, stage: Stage, quit: bool, unsubscribed: bool, closed: bool)

  /** Steps of the goroutine, and the first half of `Unsubscribe`, which ends when `closed` is seen. */
  datatype Action = SendLog | SeeQuit | LoopEnds | Finish | Unsubscribe

  function Begin<L>(buff: seq<L>): Producer<L> {
    Producer(buff, [], Looping, false, false, false)
  }

  predicate CanAct<L>(cap: nat, p: Producer<L>, m: Action) {
    match m
    case SendLog => p.stage.Looping? && |p.rest| > 0 && |p.logs| < cap
    case SeeQuit => p.stage.Looping? && |p.rest| > 0 && p.quit
    case LoopEnds => p.stage.Looping? && |p.rest| == 0
    case Finish => p.stage.Returned?
    case Unsubscribe => true
  }

  /** `Finish` marks the subscription and closes its error channel; no error is ever sent. */
  function Act<L>(cap: nat, p: Producer<L>, m: Action): Producer<L>
    requires CanAct(cap, p, m)
  {
    match m
    case SendLog => p.(rest := p.rest[1..], logs := p.logs + [p.rest[0]])
    case SeeQuit => p.(stage := Returned)
    case LoopEnds => p.(stage := Returned)
    case Finish => p.(stage := Gone, unsubscribed := true, closed := true)
    case Unsubscribe => if p.unsubscribed then p else p.(unsubscribed := true, quit := true)
  }

  /** The function returns nil only when all is sent or it was told to quit, and only its return closes the channel. */
  predicate Good<L>(p: Producer<L>) {
    && (p.stage.Returned? || p.stage.Gone? ==> |p.rest| == 0 || p.quit)
    && (p.closed <==> p.stage.Gone?)
    && (p.quit ==> p.unsubscribed)
  }

  /** What the consumer knows of the producer. */
  function FeedOf<L, X>(p: Producer<L>): Feed<L, X> {
    Feed(p.rest, p.logs, if p.closed then Fired(None) else Open, p.quit)
  }

  /** The step of the feed that a step of the producer is, if it is visible at all. */
  function StepOf<L, X>(p: Producer<L>, m: Action): Option<FeedStep<X>> {
    match m
    case SendLog => Some(Send)
    case SeeQuit => None
    case LoopEnds => None
    case Finish => Some(Fire(None))
    case Unsubscribe => if p.unsubscribed then None else Some(Cancel)
  }

  lemma Refines<L, X>(cap: nat, p: Producer<L>, m: Action)
    requires Good(p) && CanAct(cap, p, m)
    ensures Good(Act(cap, p, m))
    ensures var s: Option<FeedStep<X>>, f: Feed<L, X> := StepOf(p, m), FeedOf(p);
            match s
            case None => FeedOf(Act(cap, p, m)) == f
            case Some(a) => CanMove(cap, f, a) && FeedOf(Act(cap, p, m)) == Subscriptions.Move(cap, f, a)
  {
  }

  /** The filter as a whole: producer, channels and iterator. The feed of `it` is what the producer shows. */
  datatype Filter<+L, +E, +X> = Filter(p: Producer<L>, it: Iter<L, E, X>)

  datatype FilterStep = Producing(m: Action) | TakingLog | TakingErr

  function Opening<L, E, X>(buff: seq<L>): Filter<L, E, X> {
    Filter(Begin(buff), Start(buff))
  }

  predicate CanFilterStep<L, E, X>(cap: nat, s: Filter<L, E, X>, a: FilterStep) {
    match a
    case Producing(m) => CanAct(cap, s.p, m)
    case TakingLog => s.it.fail.None? && |s.p.logs| > 0
    case TakingErr => s.it.fail.None? && !s.it.done && s.p.closed
  }

  /** The consumer's steps are those of the iterator, on the feed that the producer shows. */
  function FilterAfter<L, E, X>(cap: nat, u: L -> Unpacked<E, X>, s: Filter<L, E, X>, a: FilterStep): Filter<L, E, X>
    requires CanFilterStep(cap, s, a)
  {
    var it: Iter<L, E, X> := s.it.(feed := FeedOf(s.p));
    match a
    case Producing(m) => var p := Act(cap, s.p, m); Filter(p, s.it.(feed := FeedOf(p)))
    case TakingLog => Filter(s.p.(logs := s.p.logs[1..]), After(cap, u, it, TakeLog))
    case TakingErr => Filter(s.p, After(cap, u, it, TakeErr))
  }

  ghost function FilterRun<L, E, X>(cap: nat, u: L -> Unpacked<E, X>,
                                    buff: seq<L>, t: seq<FilterStep>): Option<Filter<L, E, X>> {
    if |t| == 0 then Some(Opening(buff)) else
    match FilterRun(cap, u, buff, t[..|t| - 1])
    case None => None
    case Some(mid) =>
      if CanFilterStep(cap, mid, t[|t| - 1]) then Some(FilterAfter(cap, u, mid, t[|t| - 1])) else None
  }

  /** The iterator's step that a step of the filter is, if it is visible. */
  function IteratorStep<L, E, X>(s: Filter<L, E, X>, a: FilterStep): Option<I.Step<X>> {
    match a
    case Producing(m) => (match StepOf<L, X>(s.p, m) case None => None case Some(f) => Some(Env(f)))
    case TakingLog => Some(TakeLog)
    case TakingErr => Some(TakeErr)
  }

  lemma FilterStepRefines<L, E, X>(cap: nat, u: L -> Unpacked<E, X>, s: Filter<L, E, X>, a: FilterStep)
    requires Good(s.p) && s.it.feed == FeedOf(s.p) && CanFilterStep(cap, s, a)
    ensures var s' := FilterAfter(cap, u, s, a);
            && Good(s'.p) && s'.it.feed == FeedOf(s'.p)
            && match IteratorStep(s, a)
               case None => s'.it == s.it
               case Some(b) => CanStep(cap, s.it, b) && s'.it == After(cap, u, s.it, b)
  {
    if a.Producing? {
      Refines<L, X>(cap, s.p, a.m);
    }
  }

  /** Every run of a filter is, to the iterator, one of its runs: the assumptions about the feed hold. */
  lemma {:induction false} FilterRefines<L, E, X>(cap: nat, u: L -> Unpacked<E, X>, buff: seq<L>, t: seq<FilterStep>)
    returns (r: seq<I.Step<X>>)
    requires FilterRun(cap, u, buff, t).Some?
    ensures var s := FilterRun(cap, u, buff, t).value;
            Good(s.p) && s.it.feed == FeedOf(s.p) && Run(cap, u, Start(buff), r) == Some(s.it)
  {
    if |t| == 0 {
      r := [];
    } else {
      var front := t[..|t| - 1];
      r := FilterRefines(cap, u, buff, front);
      var mid, a := FilterRun(cap, u, buff, front).value, t[|t| - 1];
      FilterStepRefines(cap, u, mid, a);
      var b := IteratorStep(mid, a);
      if b.Some? {
        RunSnoc(cap, u, Start(buff), r, b.value);
        r := r + [b.value];
      }
    }
  }

  /**
    What that gives for filters, with nothing assumed of the producer: only unpacking can fail,
    and a filter that has finished without failure and without `Close` has delivered everything.
  */
  lemma FilterOutcome<L, E, X>(cap: nat, u: L -> Unpacked<E, X>, buff: seq<L>, t: seq<FilterStep>, s: Filter<L, E, X>)
    requires FilterRun(cap, u, buff, t) == Some(s)
    ensures DecodesPrefix(u, buff, s.it.delivered)
    ensures s.it.fail.Some? <==> s.it.rejected.Some?
    ensures Finished(s.it) && s.it.fail.None? && !s.p.quit ==> Decodes(u, buff, s.it.delivered)
    ensures s.p.quit ==> Producing(Unsubscribe) in t
  {
    QuitByUnsubscribe(cap, u, buff, t);
    var r := FilterRefines(cap, u, buff, t);
    RunKeepsInv(cap, u, buff, r);
    if Finished(s.it) {
      Outcome(cap, u, buff, r, s.it);
    }
  }

  lemma {:induction false} QuitByUnsubscribe<L, E, X>(cap: nat, u: L -> Unpacked<E, X>,
                                                      buff: seq<L>, t: seq<FilterStep>)
    requires FilterRun(cap, u, buff, t).Some?
    ensures FilterRun(cap, u, buff, t).value.p.quit ==> Producing(Unsubscribe) in t
  {
    if |t| > 0 {
      QuitByUnsubscribe(cap, u, buff, t[..|t| - 1]);
    }
  }

  /** Two steps for a log still to be sent, one for a log in the channel, and the way to the end. */
  function FilterWork<L, E, X>(s: Filter<L, E, X>): nat {
    2 * |s.p.rest| + |s.p.logs| + (if s.it.done then 0 else 1) +
    match s.p.stage
    case Looping => 2
    case Returned => 1
    case Gone => 0
  }

  /** Steps of a run, calls of `Unsubscribe` not counted. */
  function FilterSteps(t: seq<FilterStep>): nat {
    if |t| == 0 then 0 else FilterSteps(t[..|t| - 1]) + if t[|t| - 1] == Producing(Unsubscribe) then 0 else 1
  }

  lemma FilterStepWorks<L, E, X>(cap: nat, u: L -> Unpacked<E, X>, s: Filter<L, E, X>, a: FilterStep)
    requires CanFilterStep(cap, s, a)
    ensures FilterWork(FilterAfter(cap, u, s, a)) + (if a == Producing(Unsubscribe) then 0 else 1) <= FilterWork(s)
  {
  }

  /** A filter over n logs makes at most 2n + 3 steps besides calls of `Unsubscribe`. */
  lemma {:induction false} FilterTermination<L, E, X>(cap: nat, u: L -> Unpacked<E, X>, buff: seq<L>,
                                                      t: seq<FilterStep>, s: Filter<L, E, X>)
    requires FilterRun(cap, u, buff, t) == Some(s)
    ensures FilterSteps(t) + FilterWork(s) <= 2 * |buff| + 3
  {
    if |t| > 0 {
      var mid := FilterRun(cap, u, buff, t[..|t| - 1]).value;
      FilterTermination(cap, u, buff, t[..|t| - 1], mid);
      FilterStepWorks(cap, u, mid, t[|t| - 1]);
    }
  }

  /** A step towards the end that a filter which has not finished can always make. */
  function FilterOnward<L, E, X>(s: Filter<L, E, X>): FilterStep {
    if |s.p.logs| > 0 then TakingLog
    else if s.p.closed then TakingErr
    else match s.p.stage
      case Looping => if |s.p.rest| > 0 then Producing(SendLog) else Producing(LoopEnds)
      case Returned => Producing(Finish)
      case Gone => TakingErr
  }

  lemma FilterOnwardPossible<L, E, X>(cap: nat, s: Filter<L, E, X>)
    requires cap > 0 && Good(s.p) && s.it.feed == FeedOf(s.p) && !Finished(s.it)
    ensures CanFilterStep(cap, s, FilterOnward(s)) && FilterOnward(s) != Producing(Unsubscribe)
  {
  }

  lemma FilterSnoc<L, E, X>(cap: nat, u: L -> Unpacked<E, X>, buff: seq<L>, t: seq<FilterStep>, a: FilterStep)
    requires FilterRun(cap, u, buff, t).Some? && CanFilterStep(cap, FilterRun(cap, u, buff, t).value, a)
    ensures FilterRun(cap, u, buff, t + [a]) == Some(FilterAfter(cap, u, FilterRun(cap, u, buff, t).value, a))
  {
    assert (t + [a])[..|t + [a]| - 1] == t;
  }

  /**
    No deadlock: every run of a filter extends, without `Unsubscribe`, to one that has finished;
    and if all logs unpack and `Unsubscribe` was never called, to one that has delivered everything.
  */
  lemma {:induction false} FilterCanFinish<L, E, X>(cap: nat, u: L -> Unpacked<E, X>, buff: seq<L>,
                                                    t: seq<FilterStep>, s: Filter<L, E, X>)
    returns (t': seq<FilterStep>)
    requires cap > 0 && FilterRun(cap, u, buff, t) == Some(s)
    ensures FilterRun(cap, u, buff, t + t').Some? && Producing(Unsubscribe) !in t'
    ensures var end := FilterRun(cap, u, buff, t + t').value;
            && Finished(end.it)
            && (AllUnpack(u, buff) && Producing(Unsubscribe) !in t ==> Decodes(u, buff, end.it.delivered))
    decreases FilterWork(s)
  {
    hide FilterAfter, CanFilterStep, FilterWork, FilterOnward, Decodes, Finished;
    var r := FilterRefines(cap, u, buff, t);
    if Finished(s.it) {
      t' := [];
      assert t + t' == t;
      FilterEnd(cap, u, buff, t, s);
    } else {
      var a := FilterOnward(s);
      FilterOnwardPossible(cap, s);
      FilterSnoc(cap, u, buff, t, a);
      FilterStepWorks(cap, u, s, a);
      var rest := FilterCanFinish(cap, u, buff, t + [a], FilterAfter(cap, u, s, a));
      t' := [a] + rest;
      assert t + t' == t + [a] + rest;
    }
  }

  lemma FilterEnd<L, E, X>(cap: nat, u: L -> Unpacked<E, X>, buff: seq<L>, t: seq<FilterStep>, s: Filter<L, E, X>)
    requires FilterRun(cap, u, buff, t) == Some(s) && Finished(s.it)
    ensures AllUnpack(u, buff) && Producing(Unsubscribe) !in t ==> Decodes(u, buff, s.it.delivered)
  {
    FilterOutcome(cap, u, buff, t, s);
    if AllUnpack(u, buff) {
      var r := FilterRefines(cap, u, buff, t);
      Delivers(cap, u, buff, r, s.it);
    }
  }
}
