/** What the worker's statistics count, read off the run (crates/embeddings/src/worker.rs). */
module WorkerCounters {
  import opened Basics
  import opened Wrappers
  import opened Inference
  import opened WorkerProtocol
  import Radix

  // ---- The batches an adapter answers ----

  /** The batches before the first that the adapter refuses. */
  function Answered(embed: Adapter, calls: nat, batches: seq<seq<EmbedInput>>): (answered: seq<seq<EmbedInput>>)
    ensures |answered| <= |batches|
    decreases |batches|
  {
    if batches == [] || embed(calls, batches[0]).Err? then []
    else [batches[0]] + Answered(embed, calls + 1, batches[1..])
  }

  /** They are a prefix: the adapter answered each in turn, and refused the next if there is one. */
  lemma {:induction false} AnsweredExact(embed: Adapter, calls: nat, batches: seq<seq<EmbedInput>>)
    ensures
      var n := |Answered(embed, calls, batches)|;
      && Answered(embed, calls, batches) == batches[..n] && AllSucceed(embed, calls, batches[..n])
      && (n < |batches| ==> embed(calls + n, batches[n]).Err?)
    decreases |batches|
  {
    if batches == [] || embed(calls, batches[0]).Err? {
    } else {
      var rest := batches[1..];
      var n := |Answered(embed, calls + 1, rest)|;
      AnsweredExact(embed, calls + 1, rest);
      assert batches == [batches[0]] + rest && batches[..n + 1] == [batches[0]] + rest[..n];
      AllSucceedCons(embed, calls, batches[0], rest[..n]);
    }
  }

  /** The adapter is called once for each batch answered, and once more if it refused one. */
  function CallsFor(embed: Adapter, calls: nat, batches: seq<seq<EmbedInput>>): nat {
    var n := |Answered(embed, calls, batches)|;
    if n < |batches| then n + 1 else n
  }

  /** Serving a request calls the adapter, counts batches and counts items as its answered batches say. */
  lemma {:induction false} ServiceCounts(embed: Adapter, calls: nat, inputs: seq<EmbedInput>, maxBatch: nat)
    requires maxBatch > 0
    ensures
      var run, batches := ServeFrom(embed, calls, inputs, maxBatch), Batches(inputs, maxBatch);
      && run.batches == |Answered(embed, calls, batches)|
      && run.items == |Flatten(Answered(embed, calls, batches))|
      && run.calls == calls + CallsFor(embed, calls, batches)
    decreases |inputs|
  {
    if inputs == [] {
    } else {
      var n := Min(maxBatch, |inputs|);
      var rest := Batches(inputs[n..], maxBatch);
      assert Batches(inputs, maxBatch)[1..] == rest;
      ServiceCounts(embed, calls + 1, inputs[n..], maxBatch);
      var tail := Answered(embed, calls + 1, rest);
      assert ([inputs[..n]] + tail)[1..] == tail;
    }
  }

  // ---- The same over a run ----

  /** The batches answered in one step, if it serves a request. */
  function AnsweredBy(embed: Adapter, c: Config, s: State, e: Event): seq<seq<EmbedInput>> {
    if e == Serve && s.phase.Serving? && c.maxBatch > 0 then
      Answered(embed, s.calls, Batches(s.phase.request.inputs, c.maxBatch))
    else []
  }

  /** The batches answered in all the services of a run, in order. */
  function AnsweredIn(embed: Adapter, c: Config, es: seq<Event>): seq<seq<EmbedInput>> {
    if es == [] then []
    else
      var before, e := es[..|es| - 1], es[|es| - 1];
      AnsweredIn(embed, c, before) + AnsweredBy(embed, c, Run(embed, c, before), e)
  }

  /** How often the adapter is called in a run. */
  function CallsIn(embed: Adapter, c: Config, es: seq<Event>): nat {
    if es == [] then 0
    else
      var before, e := es[..|es| - 1], es[|es| - 1];
      var s := Run(embed, c, before);
      CallsIn(embed, c, before) +
      if e == Serve && s.phase.Serving? && c.maxBatch > 0 then
        CallsFor(embed, s.calls, Batches(s.phase.request.inputs, c.maxBatch))
      else 0
  }

  /** The comparison at p recorded a Cancelled. */
  ghost predicate CancelsAt(embed: Adapter, c: Config, es: seq<Event>, p: nat) {
    && p < |es| && es[p] == Compare
    && exists id: RequestId ::
         Run(embed, c, es[..p + 1]).replies == Run(embed, c, es[..p]).replies + [(id, Err(Cancelled))]
  }

  /** The service at p ended with a reply to a caller that had dropped its receiver. */
  ghost predicate ServesNobodyAt(embed: Adapter, c: Config, es: seq<Event>, p: nat) {
    && p < |es| && es[p] == Serve && c.maxBatch > 0
    && var s := Run(embed, c, es[..p]);
    && s.phase.Serving? && DropReceiver(s.phase.request.id) in es[..p]
  }

  ghost function Cancellations(embed: Adapter, c: Config, es: seq<Event>): set<nat> {
    set p: nat | p < |es| && CancelsAt(embed, c, es, p)
  }

  ghost function WastedServices(embed: Adapter, c: Config, es: seq<Event>): set<nat> {
    set p: nat | p < |es| && ServesNobodyAt(embed, c, es, p)
  }

  lemma Prefixes(es: seq<Event>, e: Event, p: nat)
    requires p <= |es|
    ensures (es + [e])[..p] == es[..p] && (p < |es| ==> (es + [e])[p] == es[p] && (es + [e])[..p + 1] == es[..p + 1])
    ensures (es + [e])[..|es| + 1] == es + [e]
  {
  }

  lemma SamePositions(embed: Adapter, c: Config, es: seq<Event>, e: Event, p: nat)
    requires p < |es|
    ensures CancelsAt(embed, c, es + [e], p) <==> CancelsAt(embed, c, es, p)
    ensures ServesNobodyAt(embed, c, es + [e], p) <==> ServesNobodyAt(embed, c, es, p)
  {
    Prefixes(es, e, p);
  }

  lemma OneMorePosition(before: set<nat>, after: set<nat>, n: nat)
    requires forall p :: p in before ==> p < n
    requires forall p :: p in after ==> p <= n
    requires forall p: nat :: p < n ==> (p in after <==> p in before)
    ensures |after| == |before| + if n in after then 1 else 0
  {
    assert after == before + if n in after then {n} else {};
  }

  lemma PositionsGrow(embed: Adapter, c: Config, es: seq<Event>, e: Event)
    ensures |Cancellations(embed, c, es + [e])|
         == |Cancellations(embed, c, es)| + if CancelsAt(embed, c, es + [e], |es|) then 1 else 0
    ensures |WastedServices(embed, c, es + [e])|
         == |WastedServices(embed, c, es)| + if ServesNobodyAt(embed, c, es + [e], |es|) then 1 else 0
  {
    forall p: nat | p < |es|
      ensures CancelsAt(embed, c, es + [e], p) <==> CancelsAt(embed, c, es, p)
      ensures ServesNobodyAt(embed, c, es + [e], p) <==> ServesNobodyAt(embed, c, es, p)
    {
      SamePositions(embed, c, es, e, p);
    }
    OneMorePosition(Cancellations(embed, c, es), Cancellations(embed, c, es + [e]), |es|);
    OneMorePosition(WastedServices(embed, c, es), WastedServices(embed, c, es + [e]), |es|);
  }

  /** What the steps of other threads leave alone. */
  lemma CallersDoNotCount(c: Config, s: State, e: Event)
    requires !IsWorkerStep(e)
    ensures
      var t := CallerStep(c, s, e);
      && t.processedBatches == s.processedBatches && t.processedItems == s.processedItems && t.calls == s.calls
      && t.cancelledRequests == s.cancelledRequests && t.replies == s.replies
      && t.abandoned == s.abandoned + if e.DropReceiver? then {e.id} else {}
  {
    if e.Submit? {
      SubmitKeepsWorker(c, s, e.sid, e.sinputs);
    }
  }

  /** Callers that have dropped their receiver. */
  lemma {:induction false} AbandonedAreDropped(embed: Adapter, c: Config, es: seq<Event>, id: RequestId)
    ensures id in Run(embed, c, es).abandoned <==> DropReceiver(id) in es
  {
    if es == [] {
    } else {
      var before, e := es[..|es| - 1], es[|es| - 1];
      assert es == before + [e];
      AbandonedAreDropped(embed, c, before, id);
      if !IsWorkerStep(e) {
        CallersDoNotCount(c, Run(embed, c, before), e);
      }
    }
  }

  /** One step: the counters move with the batches it answers and with what it tells nobody. */
  lemma StepCounts(embed: Adapter, c: Config, s: State, e: Event)
    ensures
      var t, answered := Step(embed, c, s, e), AnsweredBy(embed, c, s, e);
      && t.processedBatches == s.processedBatches + |answered|
      && t.processedItems == s.processedItems + |Flatten(answered)|
      && (!e.Compare? && !e.Serve? ==> t.cancelledRequests == s.cancelledRequests)
      && (!e.Serve? ==> t.calls == s.calls)
  {
    if e == Serve && s.phase.Serving? && c.maxBatch > 0 {
      ServiceCounts(embed, s.calls, s.phase.request.inputs, c.maxBatch);
    } else if !IsWorkerStep(e) {
      CallersDoNotCount(c, s, e);
    }
  }

  lemma CompareCounts(embed: Adapter, c: Config, s: State)
    ensures
      var t := Step(embed, c, s, Compare);
      t.cancelledRequests == s.cancelledRequests +
        if exists id: RequestId :: t.replies == s.replies + [(id, Err(Cancelled))] then 1 else 0
  {
    var t := Step(embed, c, s, Compare);
    if s.phase.Popped? && Stale(s, s.phase.request) {
      assert t.replies == s.replies + [(s.phase.request.id, Err(Cancelled))];
    } else {
      forall id: RequestId ensures t.replies != s.replies + [(id, Err(Cancelled))] {
        assert |s.replies + [(id, Err(Cancelled))]| == |s.replies| + 1;
      }
    }
  }

  lemma ServeCounts(embed: Adapter, c: Config, s: State)
    ensures
      var t, served := Step(embed, c, s, Serve), s.phase.Serving? && c.maxBatch > 0;
      && t.cancelledRequests == s.cancelledRequests + (if served && s.phase.request.id in s.abandoned then 1 else 0)
      && t.calls == s.calls + if served then CallsFor(embed, s.calls, Batches(s.phase.request.inputs, c.maxBatch)) else 0
  {
    if s.phase.Serving? && c.maxBatch > 0 {
      ServiceCounts(embed, s.calls, s.phase.request.inputs, c.maxBatch);
    }
  }

  lemma {:induction false} FlattenConcat(xs: seq<seq<EmbedInput>>, ys: seq<seq<EmbedInput>>)
    ensures Flatten(xs + ys) == Flatten(xs) + Flatten(ys)
  {
    if xs == [] {
      assert xs + ys == ys;
    } else {
      assert (xs + ys)[1..] == xs[1..] + ys;
      FlattenConcat(xs[1..], ys);
      Assoc(xs[0], Flatten(xs[1..]), Flatten(ys));
    }
  }

  /** Over every run: processed batches are the batches answered in its services, processed items the inputs in them,
      and the adapter has been called once for each of them and once for each service that it cut short. */
  lemma {:induction false} BatchCountersExact(embed: Adapter, c: Config, es: seq<Event>)
    ensures
      var s := Run(embed, c, es);
      && s.processedBatches == |AnsweredIn(embed, c, es)| && s.processedItems == |Flatten(AnsweredIn(embed, c, es))|
      && s.calls == CallsIn(embed, c, es)
  {
    if es == [] {
    } else {
      var before, e := es[..|es| - 1], es[|es| - 1];
      var s := Run(embed, c, before);
      BatchCountersExact(embed, c, before);
      StepCounts(embed, c, s, e);
      FlattenConcat(AnsweredIn(embed, c, before), AnsweredBy(embed, c, s, e));
      if e == Serve {
        ServeCounts(embed, c, s);
      }
    }
  }

  lemma LastStepCancels(embed: Adapter, c: Config, before: seq<Event>, e: Event)
    ensures
      var s, t := Run(embed, c, before), Run(embed, c, before + [e]);
      t.cancelledRequests == s.cancelledRequests
        + (if CancelsAt(embed, c, before + [e], |before|) then 1 else 0)
        + (if ServesNobodyAt(embed, c, before + [e], |before|) then 1 else 0)
  {
    var s := Run(embed, c, before);
    RunAppend(embed, c, before, e);
    Prefixes(before, e, |before|);
    match e {
      case Compare => CompareCounts(embed, c, s);
      case Serve =>
        ServeCounts(embed, c, s);
        if s.phase.Serving? {
          AbandonedAreDropped(embed, c, before, s.phase.request.id);
        }
      case _ => StepCounts(embed, c, s, e);
    }
  }

  /** Over every run: cancelled requests are the comparisons that answered Cancelled and the services of callers that
      had gone; a request the drain finds is in neither. */
  lemma {:induction false} CancelledCounterExact(embed: Adapter, c: Config, es: seq<Event>)
    ensures Run(embed, c, es).cancelledRequests == |Cancellations(embed, c, es)| + |WastedServices(embed, c, es)|
  {
    if es == [] {
    } else {
      var before, e := es[..|es| - 1], es[|es| - 1];
      assert es == before + [e];
      CancelledCounterExact(embed, c, before);
      LastStepCancels(embed, c, before, e);
      PositionsGrow(embed, c, before, e);
    }
  }

  /** With a pointwise adapter a service answers every input, in ceil(n / maxBatch) batches, and counts all of them. */
  lemma PointwiseService(embed: Adapter, f: EmbedInput -> EmbeddedSequence, c: Config, s: State)
    requires c.maxBatch > 0 && Pointwise(embed, f) && s.phase.Serving?
    ensures
      var t, r := Step(embed, c, s, Serve), s.phase.request;
      var batches := Radix.CeilDiv(|r.inputs|, c.maxBatch);
      && t.processedBatches == s.processedBatches + batches && t.processedItems == s.processedItems + |r.inputs|
      && t.calls == s.calls + batches && t.inFlight == s.inFlight - 1 && t.phase == Top
      && t.replies == s.replies + [(r.id, Ok(MapInputs(f, r.inputs)))]
      && t.cancelledRequests == s.cancelledRequests + if r.id in s.abandoned then 1 else 0
  {
    BatchedRefinesUnbatched(embed, f, s.calls, s.phase.request.inputs, c.maxBatch);
  }
}
