/** One request's inference: the request is cut into bounded batches and the batch results are
    concatenated (crates/embeddings/src/worker.rs, the serving part of the worker loop). */
module Inference {
  import opened Basics
  import opened Wrappers
  import Radix

  datatype Role = Query | Passage

  datatype EmbedInput = EmbedInput(text: string, role: Role)

  datatype EmbeddedSequence = EmbeddedSequence(vector: seq<real>, inputIds: seq<nat>, attentionMask: seq<bool>)

  datatype ArtifactError = ArtifactError(message: string)

  datatype ServiceError = Busy | Closed | Cancelled | Failed(error: ArtifactError)

  type Outcome = Result<seq<EmbeddedSequence>, ServiceError>

  /** A stateful adapter: what its n-th call returns may depend on n and on everything it saw before. */
  type Adapter = (nat, seq<EmbedInput>) -> Result<seq<EmbeddedSequence>, ArtifactError>

  /** What the batches of one request produced and what they added to the counters. */
  datatype BatchRun = BatchRun(results: seq<EmbeddedSequence>, failure: Option<ArtifactError>, calls: nat, batches: nat, items: nat)

  function ServeFrom(embed: Adapter, calls: nat, inputs: seq<EmbedInput>, maxBatch: nat): BatchRun
    requires maxBatch > 0
    decreases |inputs|
  {
    if inputs == [] then BatchRun([], None, calls, 0, 0)
    else
      var n := Min(maxBatch, |inputs|);
      match embed(calls, inputs[..n])
      case Err(e) => BatchRun([], Some(e), calls + 1, 0, 0)
      case Ok(rs) =>
        var rest := ServeFrom(embed, calls + 1, inputs[n..], maxBatch);
        BatchRun(rs + rest.results, rest.failure, rest.calls, 1 + rest.batches, n + rest.items)
  }

  /** The reply: an adapter error wins; a result count that differs from the input count is reported as cancelled. */
  function OutcomeOf(run: BatchRun, inputs: seq<EmbedInput>): Outcome {
    match run.failure
    case Some(e) => Err(Failed(e))
    case None => if |run.results| == |inputs| then Ok(run.results) else Err(Cancelled)
  }

  /** The counters and results of earlier batches put before those of a later run. */
  function After(results: seq<EmbeddedSequence>, batches: nat, items: nat, rest: BatchRun): BatchRun {
    BatchRun(results + rest.results, rest.failure, rest.calls, batches + rest.batches, items + rest.items)
  }

  /** A batch the adapter refuses ends the run at once, with the counters as they were. */
  lemma FailedBatch(embed: Adapter, calls: nat, inputs: seq<EmbedInput>, maxBatch: nat, at: nat, error: ArtifactError)
    requires maxBatch > 0 && at < |inputs|
    requires embed(calls, inputs[at..at + Min(maxBatch, |inputs| - at)]) == Err(error)
    ensures ServeFrom(embed, calls, inputs[at..], maxBatch) == BatchRun([], Some(error), calls + 1, 0, 0)
  {
    var n := Min(maxBatch, |inputs| - at);
    assert inputs[at..][..n] == inputs[at..at + n];
  }

  /** A batch the adapter answers moves its results, one batch and its items ahead of the rest of the run. */
  lemma NextBatch(embed: Adapter, calls: nat, inputs: seq<EmbedInput>, maxBatch: nat, at: nat, rs: seq<EmbeddedSequence>)
    requires maxBatch > 0 && at < |inputs|
    requires embed(calls, inputs[at..at + Min(maxBatch, |inputs| - at)]) == Ok(rs)
    ensures
      var n := Min(maxBatch, |inputs| - at);
      ServeFrom(embed, calls, inputs[at..], maxBatch)
        == After(rs, 1, n, ServeFrom(embed, calls + 1, inputs[at + n..], maxBatch))
  {
    var n := Min(maxBatch, |inputs| - at);
    assert inputs[at..][..n] == inputs[at..at + n] && inputs[at..][n..] == inputs[at + n..];
  }

  lemma AfterAfter(results: seq<EmbeddedSequence>, batches: nat, items: nat,
                   rs: seq<EmbeddedSequence>, bs: nat, n: nat, rest: BatchRun)
    ensures After(results, batches, items, After(rs, bs, n, rest)) == After(results + rs, batches + bs, items + n, rest)
  {
    assert results + (rs + rest.results) == (results + rs) + rest.results;
  }

  method ServeBatches(embed: Adapter, calls: nat, inputs: seq<EmbedInput>, maxBatch: nat) returns (run: BatchRun)
    requires maxBatch > 0
    ensures run == ServeFrom(embed, calls, inputs, maxBatch)
  {
    var results: seq<EmbeddedSequence> := [];
    var made: nat, batches: nat, items: nat, at: nat := calls, 0, 0, 0;
    ghost var whole, rest := ServeFrom(embed, calls, inputs, maxBatch), ServeFrom(embed, calls, inputs[0..], maxBatch);
    assert inputs[0..] == inputs;
    while at < |inputs|
      invariant at <= |inputs|
      invariant rest == ServeFrom(embed, made, inputs[at..], maxBatch)
      invariant whole == After(results, batches, items, rest)
    {
      var n := Min(maxBatch, |inputs| - at);
      var answer := embed(made, inputs[at..at + n]);
      match answer {
        case Err(e) =>
          FailedBatch(embed, made, inputs, maxBatch, at, e);
          return BatchRun(results, Some(e), made + 1, batches, items);
        case Ok(rs) =>
          NextBatch(embed, made, inputs, maxBatch, at, rs);
          rest := ServeFrom(embed, made + 1, inputs[at + n..], maxBatch);
          AfterAfter(results, batches, items, rs, 1, n, rest);
          made, batches, items, results, at := made + 1, batches + 1, items + n, results + rs, at + n;
      }
    }
    assert inputs[at..] == [];
    return BatchRun(results, None, made, batches, items);
  }

  // ---- Batched inference refines unbatched inference ----

  function MapInputs(f: EmbedInput -> EmbeddedSequence, inputs: seq<EmbedInput>): seq<EmbeddedSequence> {
    seq(|inputs|, i requires 0 <= i < |inputs| => f(inputs[i]))
  }

  ghost predicate Pointwise(embed: Adapter, f: EmbedInput -> EmbeddedSequence) {
    forall c: nat, xs :: embed(c, xs) == Ok(MapInputs(f, xs))
  }

  /** However the request is batched, the reply is the adapter mapped over all inputs in order, in
      ceil(n / maxBatch) adapter calls, with every item counted once. */
  lemma {:induction false} BatchedRefinesUnbatched(embed: Adapter, f: EmbedInput -> EmbeddedSequence, calls: nat,
                                                   inputs: seq<EmbedInput>, maxBatch: nat)
    requires maxBatch > 0 && Pointwise(embed, f)
    ensures
      var run := ServeFrom(embed, calls, inputs, maxBatch);
      && OutcomeOf(run, inputs) == Ok(MapInputs(f, inputs))
      && run.results == MapInputs(f, inputs) && run.failure == None
      && run.batches == Radix.CeilDiv(|inputs|, maxBatch) && run.calls == calls + run.batches
      && run.items == |inputs|
    decreases |inputs|
  {
    if inputs == [] {
      assert MapInputs(f, inputs) == [];
    } else {
      var n := Min(maxBatch, |inputs|);
      BatchedRefinesUnbatched(embed, f, calls + 1, inputs[n..], maxBatch);
      assert embed(calls, inputs[..n]) == Ok(MapInputs(f, inputs[..n]));
      assert MapInputs(f, inputs) == MapInputs(f, inputs[..n]) + MapInputs(f, inputs[n..]);
      if maxBatch < |inputs| {
        Radix.CeilStep(|inputs|, maxBatch);
      } else {
        Radix.CeilOfOne(|inputs|, maxBatch);
      }
    }
  }

  /** The batches a request is cut into. */
  function Batches(inputs: seq<EmbedInput>, maxBatch: nat): seq<seq<EmbedInput>>
    requires maxBatch > 0
    decreases |inputs|
  {
    if inputs == [] then []
    else var n := Min(maxBatch, |inputs|); [inputs[..n]] + Batches(inputs[n..], maxBatch)
  }

  function Flatten(parts: seq<seq<EmbedInput>>): seq<EmbedInput> {
    if parts == [] then [] else parts[0] + Flatten(parts[1..])
  }

  /** The batches are the inputs in order; all are full except perhaps the last, and none is empty. */
  lemma {:induction false} BatchesPartition(inputs: seq<EmbedInput>, maxBatch: nat)
    requires maxBatch > 0
    ensures
      var bs := Batches(inputs, maxBatch);
      && Flatten(bs) == inputs && |bs| == Radix.CeilDiv(|inputs|, maxBatch)
      && (forall i :: 0 <= i < |bs| - 1 ==> |bs[i]| == maxBatch)
      && (forall i :: 0 <= i < |bs| ==> 0 < |bs[i]| <= maxBatch)
    decreases |inputs|
  {
    if inputs == [] {
    } else {
      var n := Min(maxBatch, |inputs|);
      BatchesPartition(inputs[n..], maxBatch);
      if maxBatch < |inputs| {
        Radix.CeilStep(|inputs|, maxBatch);
      } else {
        Radix.CeilOfOne(|inputs|, maxBatch);
      }
    }
  }

  ghost predicate AllSucceed(embed: Adapter, calls: nat, batches: seq<seq<EmbedInput>>) {
    forall i: nat :: i < |batches| ==> embed(calls + i, batches[i]).Ok?
  }

  lemma AllSucceedCons(embed: Adapter, calls: nat, first: seq<EmbedInput>, rest: seq<seq<EmbedInput>>)
    ensures AllSucceed(embed, calls, [first] + rest) <==> embed(calls, first).Ok? && AllSucceed(embed, calls + 1, rest)
  {
    var all := [first] + rest;
    if AllSucceed(embed, calls, all) {
      assert embed(calls + 0, all[0]).Ok?;
      forall i: nat | i < |rest| ensures embed(calls + 1 + i, rest[i]).Ok? {
        assert embed(calls + (i + 1), all[i + 1]).Ok?;
      }
    }
    if embed(calls, first).Ok? && AllSucceed(embed, calls + 1, rest) {
      forall i: nat | i < |all| ensures embed(calls + i, all[i]).Ok? {
        if i > 0 {
          assert embed(calls + 1 + (i - 1), rest[i - 1]).Ok?;
        }
      }
    }
  }

  /** When batch k is the first to fail, its error is the reply, it was the last adapter call, and the
      counters cover exactly the k full batches before it. */
  lemma {:induction false} FailureCountsEarlierBatches(embed: Adapter, calls: nat, inputs: seq<EmbedInput>, maxBatch: nat, k: nat)
    requires maxBatch > 0 && k < |Batches(inputs, maxBatch)|
    requires AllSucceed(embed, calls, Batches(inputs, maxBatch)[..k])
    requires embed(calls + k, Batches(inputs, maxBatch)[k]).Err?
    ensures
      var run := ServeFrom(embed, calls, inputs, maxBatch);
      && run.failure == Some(embed(calls + k, Batches(inputs, maxBatch)[k]).error)
      && OutcomeOf(run, inputs) == Err(Failed(run.failure.value))
      && run.batches == k && run.items == k * maxBatch && run.calls == calls + k + 1
    decreases k
  {
    var n := Min(maxBatch, |inputs|);
    var first, rest := inputs[..n], Batches(inputs[n..], maxBatch);
    assert Batches(inputs, maxBatch) == [first] + rest && inputs[0..] == inputs && inputs[0..n] == first;
    if k == 0 {
      FailedBatch(embed, calls, inputs, maxBatch, 0, embed(calls, first).error);
    } else {
      assert Batches(inputs, maxBatch)[..k] == [first] + rest[..k - 1];
      AllSucceedCons(embed, calls, first, rest[..k - 1]);
      FailureCountsEarlierBatches(embed, calls + 1, inputs[n..], maxBatch, k - 1);
      NextBatch(embed, calls, inputs, maxBatch, 0, embed(calls, first).value);
      OneMoreBatch(k, maxBatch);
    }
  }

  lemma OneMoreBatch(k: nat, maxBatch: nat)
    requires k > 0
    ensures (k - 1) * maxBatch + maxBatch == k * maxBatch
  {
  }

  /** How many results the adapter returns for a list of batches. */
  function ResultTotal(embed: Adapter, calls: nat, batches: seq<seq<EmbedInput>>): nat
    decreases |batches|
  {
    if batches == [] then 0
    else
      (match embed(calls, batches[0]) case Ok(rs) => |rs| case Err(_) => 0) + ResultTotal(embed, calls + 1, batches[1..])
  }

  lemma {:induction false} ResultsCounted(embed: Adapter, calls: nat, inputs: seq<EmbedInput>, maxBatch: nat)
    requires maxBatch > 0
    ensures
      var run, bs := ServeFrom(embed, calls, inputs, maxBatch), Batches(inputs, maxBatch);
      && (run.failure == None <==> AllSucceed(embed, calls, bs))
      && (run.failure == None ==> |run.results| == ResultTotal(embed, calls, bs))
    decreases |inputs|
  {
    if inputs == [] {
    } else {
      var n := Min(maxBatch, |inputs|);
      var rest := Batches(inputs[n..], maxBatch);
      ResultsCounted(embed, calls + 1, inputs[n..], maxBatch);
      AllSucceedCons(embed, calls, inputs[..n], rest);
      assert ([inputs[..n]] + rest)[1..] == rest;
    }
  }

  /** A served request is told Cancelled if and only if every batch succeeded and the results are not as many
      as the inputs: that reply says nothing about cancellation. */
  lemma ServedCancelledIff(embed: Adapter, calls: nat, inputs: seq<EmbedInput>, maxBatch: nat)
    requires maxBatch > 0
    ensures
      var bs := Batches(inputs, maxBatch);
      OutcomeOf(ServeFrom(embed, calls, inputs, maxBatch), inputs) == Err(Cancelled) <==>
        AllSucceed(embed, calls, bs) && ResultTotal(embed, calls, bs) != |inputs|
  {
    ResultsCounted(embed, calls, inputs, maxBatch);
  }
}
