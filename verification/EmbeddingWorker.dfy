/** The shared worker state and its operations in the source's own, imperative form
    (crates/embeddings/src/worker.rs). Every method is proved to perform the protocol's steps. */
module EmbeddingWorker {
  import opened Wrappers
  import opened Inference
  import opened WorkerProtocol

  class BoundedQueue<T> {
    var items: seq<T>
    const capacity: nat

    ghost predicate Valid()
      reads this
    {
      |items| <= capacity && capacity > 0
    }

    constructor (capacity: nat)
      ensures Valid() && items == []
      ensures this.capacity == if capacity == 0 then 1 else capacity
    {
      this.items := [];
      this.capacity := if capacity == 0 then 1 else capacity;
    }

    /** A full queue gives the item back. */
    method TrySend(item: T) returns (r: Result<(), T>)
      requires Valid()
      modifies this
      ensures Valid()
      ensures |old(items)| < capacity ==> r == Ok(()) && items == old(items) + [item]
      ensures |old(items)| == capacity ==> r == Err(item) && items == old(items)
    {
      if |items| >= capacity {
        return Err(item);
      }
      items := items + [item];
      return Ok(());
    }

    method PopFront() returns (r: Option<T>)
      requires Valid()
      modifies this
      ensures Valid()
      ensures old(items) == [] ==> r == None && items == []
      ensures old(items) != [] ==> r == Some(old(items)[0]) && items == old(items)[1..]
    {
      if items == [] {
        return None;
      }
      r := Some(items[0]);
      items := items[1..];
    }
  }

  class Worker {
    const config: Config
    const embed: Adapter
    const queue: BoundedQueue<Message>
    var cancels: nat
    var closed: bool
    var phase: WorkerPhase
    var submitters: map<RequestId, SubmitPhase>
    var abandoned: set<RequestId>
    var inFlight: int
    var processedBatches: nat
    var processedItems: nat
    var cancelledRequests: nat
    var calls: nat
    var replies: seq<(RequestId, Outcome)>
    ghost var shutdownUnsent: bool
    ghost var accepted: seq<RequestId>
    ghost var exitedAfter: Option<nat>

    ghost predicate Valid()
      reads this, queue
    {
      queue.Valid() && queue.capacity == Capacity(config)
    }

    /** The protocol state this object is in. */
    ghost function Abs(): State
      reads this, queue
    {
      State(queue.items, cancels, closed, shutdownUnsent, phase, submitters, abandoned, accepted, replies, exitedAfter,
            inFlight, processedBatches, processedItems, cancelledRequests, calls)
    }

    constructor (config: Config, embed: Adapter)
      ensures Valid() && fresh(queue) && Abs() == Initial()
      ensures this.config == config && this.embed == embed
    {
      this.config, this.embed := config, embed;
      this.queue := new BoundedQueue<Message>(config.capacity);
      this.cancels, this.closed, this.phase, this.submitters, this.abandoned := 0, false, Top, map[], {};
      this.inFlight, this.processedBatches, this.processedItems, this.cancelledRequests, this.calls := 0, 0, 0, 0, 0;
      this.replies := [];
      this.shutdownUnsent, this.accepted, this.exitedAfter := false, [], None;
    }

    /** A whole submission under a new request identity. */
    method Submit(id: RequestId, inputs: seq<EmbedInput>) returns (r: Result<(), ServiceError>)
      requires Valid() && id !in submitters
      modifies this, queue
      ensures Valid() && Abs() == StepSubmit(config, old(Abs()), id, inputs)
      ensures id in submitters
      ensures r == (match submitters[id] case Refused(e) => Err(e) case _ => Ok(()))
      ensures r.Ok? <==> old(!closed && |queue.items| < queue.capacity)
      ensures r == Err(Closed) <==> old(closed)
    {
      SubmitOutcome(config, Abs(), id, inputs);
      if closed {
        submitters := submitters[id := Refused(Closed)];
        return Err(Closed);
      }
      var sent := queue.TrySend(Work(Request(id, inputs, cancels)));
      match sent {
        case Ok(_) =>
          inFlight := inFlight + 1;
          accepted := accepted + [id];
          submitters := submitters[id := Accepted];
          return Ok(());
        case Err(_) =>
          var e := if closed then Closed else Busy;
          submitters := submitters[id := Refused(e)];
          return Err(e);
      }
    }

    method CancelAll()
      requires Valid()
      modifies this
      ensures Valid() && Abs() == Step(embed, config, old(Abs()), WorkerProtocol.CancelAll)
    {
      cancels := cancels + 1;
    }

    /** Closing, then telling the worker; a full queue drops the message. */
    method Shutdown()
      requires Valid() && !shutdownUnsent
      modifies this, queue
      ensures Valid() && Abs() == Step(embed, config, Step(embed, config, old(Abs()), Close), SendShutdown)
      ensures closed
    {
      if closed {
        return;
      }
      closed := true;
      var _ := queue.TrySend(WorkerProtocol.Shutdown);
    }

    /** A send on a reply channel, which ends the request. */
    method SendReply(id: RequestId, outcome: Outcome)
      modifies this`replies, this`inFlight
      ensures Abs() == Reply(old(Abs()), id, outcome)
    {
      inFlight := inFlight - 1;
      replies := replies + [(id, outcome)];
    }

    /** Moving the counters by what the batches of a request did. */
    method CountRun(req: Request, run: BatchRun)
      modifies this`calls, this`processedBatches, this`processedItems, this`cancelledRequests, this`phase
      ensures Abs() == Counted(old(Abs()), req, run)
    {
      calls := run.calls;
      processedBatches := processedBatches + run.batches;
      processedItems := processedItems + run.items;
      if req.id in abandoned {
        cancelledRequests := cancelledRequests + 1;
      }
      phase := Top;
    }

    /** Publishing the outcome of a request whose batches have run. */
    method Publish(req: Request, run: BatchRun)
      requires Valid()
      modifies this
      ensures Valid() && Abs() == Served(old(Abs()), req, run)
      ensures processedBatches == old(processedBatches) + run.batches && processedItems == old(processedItems) + run.items
      ensures cancelledRequests == old(cancelledRequests) + if req.id in abandoned then 1 else 0
      ensures inFlight == old(inFlight) - 1 && replies == old(replies) + [(req.id, OutcomeOf(run, req.inputs))]
    {
      CountRun(req, run);
      SendReply(req.id, OutcomeOf(run, req.inputs));
    }

    /** Running one popped request to its reply; a batch size of zero panics before the first batch. */
    method ServeRequest()
      requires Valid() && phase.Serving?
      modifies this
      ensures Valid() && Abs() == StepServe(embed, config, old(Abs()))
    {
      var req := phase.request;
      if config.maxBatch == 0 {
        phase := Crashed(req);
        return;
      }
      var run := ServeBatches(embed, calls, req.inputs, config.maxBatch);
      Publish(req, run);
    }

    /** Taking the front message: a stale request is answered at once, a current one goes into service. */
    method HandleFront()
      requires Valid() && phase.Polling? && queue.items != []
      modifies this, queue
      ensures Valid() && Abs() == StepCompare(StepPop(old(Abs())))
    {
      var popped := queue.PopFront();
      match popped.value {
        case Shutdown => phase := Draining;
        case Work(req) =>
          if req.seen % GENERATION_MODULUS != cancels % GENERATION_MODULUS {
            cancelledRequests := cancelledRequests + 1;
            inFlight := inFlight - 1;
            replies := replies + [(req.id, Err(Cancelled))];
            phase := Top;
          } else {
            phase := Serving(req);
          }
      }
    }

    /** One pass of the worker loop, from the test of `closed` back to it, with no other thread in between. */
    method LoopPass()
      requires Valid() && phase == Top
      modifies this, queue
      ensures Valid()
      ensures
        var polling := old(Abs()).(phase := Polling);
        if old(closed) then Abs() == old(Abs()).(phase := Draining)
        else if old(queue.items) == [] then Abs() == old(Abs())
        else Abs() == StepServe(embed, config, StepCompare(StepPop(polling)))
    {
      if closed {
        phase := Draining;
        return;
      }
      phase := Polling;
      if queue.items == [] {
        phase := Top;
        return;
      }
      HandleFront();
      if phase.Serving? {
        ServeRequest();
      }
    }

    /** One turn of the drain; an empty queue ends it. */
    method DrainOne() returns (more: bool)
      requires Valid() && phase == Draining
      modifies this, queue
      ensures Valid() && Abs() == StepDrain(old(Abs()))
      ensures more == (old(queue.items) != [])
      ensures more ==> phase == Draining && |queue.items| < |old(queue.items)|
      ensures !more ==> phase == Exited && queue.items == []
    {
      var popped := queue.PopFront();
      match popped {
        case None =>
          phase := Exited;
          exitedAfter := Some(|accepted|);
          return false;
        case Some(Shutdown) =>
          return true;
        case Some(Work(req)) =>
          SendReply(req.id, Err(Closed));
          return true;
      }
    }

    /** The final drain: everyone still queued is told the worker is closed, in queue order. */
    method DrainAll()
      requires Valid() && phase == Draining && closed
      modifies this, queue
      ensures Valid() && Abs() == RunWorker(embed, config, old(Abs()))
      ensures phase == Exited && queue.items == []
    {
      ghost var end := RunWorker(embed, config, Abs());
      var more := true;
      while more
        invariant Valid() && closed
        invariant if more then phase == Draining else phase == Exited && queue.items == []
        invariant RunWorker(embed, config, Abs()) == end
        decreases more, |queue.items|
      {
        DrainIsNext(embed, config, Abs());
        more := DrainOne();
      }
    }
  }
}
