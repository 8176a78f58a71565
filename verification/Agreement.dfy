/** `Filter*` and `Watch*` over the same logs: what either has delivered agrees with the other. */
module FilterWatchAgreement {
  import opened Subscriptions
  import I = EventIterators
  import W = EventWatchers

  ghost predicate Comparable<T>(x: seq<T>, y: seq<T>) {
    x <= y || y <= x
  }

  lemma PrefixesAgree<L, E, X>(u: L -> Unpacked<E, X>, source: seq<L>, x: seq<Event<L, E>>, y: seq<Event<L, E>>)
    requires DecodesPrefix(u, source, x) && DecodesPrefix(u, source, y) && |x| <= |y|
    ensures x <= y
  {
    forall i | 0 <= i < |x| ensures x[i] == y[i] {
      assert source[..|x|][i] == source[i] == source[..|y|][i];
    }
  }

  /**
    At any two moments of any two runs, whatever the schedules, channel capacities, errors
    and cancellations, one of the two event sequences is a prefix of the other.
  */
  lemma AlwaysComparable<L, E, X>(u: L -> Unpacked<E, X>, source: seq<L>,
                                  cap: nat, t: seq<I.Step<X>>, it: I.Iter<L, E, X>,
                                  cap': nat, t': seq<W.Step<X>>, w: W.Watcher<L, E, X>)
    requires I.Run(cap, u, I.Start(source), t) == Some(it)
    requires W.Run(cap', u, W.Start(source), t') == Some(w)
    ensures Comparable(it.delivered, w.sent)
  {
    I.Conservation(cap, u, source, t, it);
    W.Safety(cap', u, source, t', w);
    if |it.delivered| <= |w.sent| {
      PrefixesAgree(u, source, it.delivered, w.sent);
    } else {
      PrefixesAgree(u, source, w.sent, it.delivered);
    }
  }

  /**
    Against an iteration that ended without error and without `Close`, a watcher has sent a
    prefix of the same events, and the same events exactly when nothing is left
    in flight, in the channel or unsent; a nil result alone does not imply that
    (EventWatchers.NilWithoutQuit).
  */
  lemma WatchAgainstFilter<L, E, X>(u: L -> Unpacked<E, X>, source: seq<L>,
                                    cap: nat, t: seq<I.Step<X>>, it: I.Iter<L, E, X>,
                                    cap': nat, t': seq<W.Step<X>>, w: W.Watcher<L, E, X>)
    requires I.Run(cap, u, I.Start(source), t) == Some(it)
    requires W.Run(cap', u, W.Start(source), t') == Some(w)
    requires I.Finished(it) && it.fail.None? && !it.feed.cancelled
    ensures w.sent <= it.delivered
    ensures w.sent == it.delivered <==> |W.InFlight(w)| + |w.feed.buffer| + |w.feed.unsent| == 0
  {
    I.Outcome(cap, u, source, t, it);
    I.Conservation(cap, u, source, t, it);
    W.Safety(cap', u, source, t', w);
    PrefixesAgree(u, source, w.sent, it.delivered);
    assert |W.InFlight(w) + w.feed.buffer + w.feed.unsent| == |source| - |w.sent|;
  }

  /**
    Any run of one kind, stopped anywhere, is a prefix of a complete run of the other kind,
    provided all logs unpack; complete runs exist for every capacity above zero.
  */
  lemma StoppedRunsExtend<L, E, X>(u: L -> Unpacked<E, X>, source: seq<L>,
                                   cap: nat, t: seq<I.Step<X>>, it: I.Iter<L, E, X>,
                                   cap': nat, t': seq<W.Step<X>>, w: W.Watcher<L, E, X>)
    returns (tw: seq<W.Step<X>>, ti: seq<I.Step<X>>)
    requires cap > 0 && cap' > 0 && AllUnpack(u, source)
    requires I.Run(cap, u, I.Start(source), t) == Some(it)
    requires W.Run(cap', u, W.Start(source), t') == Some(w)
    ensures W.Run(cap', u, W.Start(source), tw).Some?
    ensures var end := W.Run(cap', u, W.Start(source), tw).value;
            end.phase.Exited? && Decodes(u, source, end.sent) && it.delivered <= end.sent
    ensures I.Run(cap, u, I.Start(source), ti).Some?
    ensures var end := I.Run(cap, u, I.Start(source), ti).value;
            I.Finished(end) && Decodes(u, source, end.delivered) && w.sent <= end.delivered
  {
    assert I.Run(cap, u, I.Start(source), []) == Some(I.Start(source));
    assert W.Run(cap', u, W.Start(source), []) == Some(W.Start(source));
    ti := I.CanFinish(cap, u, source, [], I.Start(source));
    tw := W.CanFinish(cap', u, source, [], W.Start(source));
    assert [] + ti == ti && [] + tw == tw;
    var iend := I.Run(cap, u, I.Start(source), ti).value;
    var wend := W.Run(cap', u, W.Start(source), tw).value;
    I.Conservation(cap, u, source, t, it);
    I.Conservation(cap, u, source, ti, iend);
    W.Safety(cap', u, source, t', w);
    W.Safety(cap', u, source, tw, wend);
    PrefixesAgree(u, source, it.delivered, wend.sent);
    PrefixesAgree(u, source, w.sent, iend.delivered);
  }
}
