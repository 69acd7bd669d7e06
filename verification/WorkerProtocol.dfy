/** The embedding worker as a state machine over the atomic steps of its threads
    (crates/embeddings/src/worker.rs). Submitting takes four steps (read `closed`, read the
    generation, push, count), shutting down takes two, and the worker thread takes one step per
    loop test, pop, generation comparison, served request or drained message; all may interleave freely. */
module WorkerProtocol {
  import opened Basics
  import opened Wrappers
  import opened Inference

  type RequestId = nat

  /** The generation counter is a u64; `cancels` values below are unwrapped and compared modulo this. */
  const GENERATION_MODULUS: nat := 0x1_0000_0000_0000_0000

  /** `seen` is the number of cancel_all calls before the generation snapshot of this request. */
  datatype Request = Request(id: RequestId, inputs: seq<EmbedInput>, seen: nat)

  datatype Message = Work(request: Request) | Shutdown

  datatype SubmitPhase =
    | Checked                      // saw closed == false
    | Snapshotted(seen: nat)       // read the generation
    | Pushed                       // in the queue, not yet counted
    | Accepted
    | Refused(error: ServiceError)

  /** Between taking a request and serving it the worker compares generations. */
  datatype WorkerPhase =
    | Top
    | Polling
    | Popped(request: Request)
    | Serving(request: Request)
    | Draining
    | Exited
    | Crashed(request: Request)     // cutting a request into batches of size zero panics

  datatype Config = Config(capacity: nat, maxBatch: nat)

  datatype State = State(
    queue: seq<Message>,
    cancels: nat,
    closed: bool,
    shutdownUnsent: bool,
    phase: WorkerPhase,
    submitters: map<RequestId, SubmitPhase>,
    abandoned: set<RequestId>,                 // callers that dropped their receiver
    accepted: seq<RequestId>,                  // history: successful pushes, in order
    replies: seq<(RequestId, Outcome)>,        // history: sends on reply channels, in order
    exitedAfter: Option<nat>,                  // history: how many pushes preceded the worker's exit
    inFlight: int,
    processedBatches: nat,
    processedItems: nat,
    cancelledRequests: nat,
    calls: nat)

  datatype Event =
    | CheckClosed(id: RequestId)
    | SnapshotGeneration(id: RequestId)
    | Push(id: RequestId, inputs: seq<EmbedInput>)
    | Count(id: RequestId)
    | Submit(sid: RequestId, sinputs: seq<EmbedInput>)  // the four steps above with nothing in between
    | CancelAll
    | Close
    | SendShutdown
    | DropReceiver(id: RequestId)
    | TestClosed
    | PopTimeout
    | Pop
    | Compare
    | Serve
    | Drain

  function Initial(): State {
    State([], 0, false, false, Top, map[], {}, [], [], None, 0, 0, 0, 0, 0)
  }

  /** BoundedQueue::new never makes a queue of capacity 0. */
  function Capacity(c: Config): nat {
    if c.capacity == 0 then 1 else c.capacity
  }

  // ---- Steps of a submitting caller ----

  function StepCheckClosed(s: State, id: RequestId): State {
    if id in s.submitters then s
    else s.(submitters := s.submitters[id := if s.closed then Refused(Closed) else Checked])
  }

  function StepSnapshot(s: State, id: RequestId): State {
    if id in s.submitters && s.submitters[id].Checked? then
      s.(submitters := s.submitters[id := Snapshotted(s.cancels)])
    else s
  }

  function StepPush(c: Config, s: State, id: RequestId, inputs: seq<EmbedInput>): State {
    if id in s.submitters && s.submitters[id].Snapshotted? then
      if |s.queue| >= Capacity(c) then
        s.(submitters := s.submitters[id := Refused(if s.closed then Closed else Busy)])
      else
        s.(queue := s.queue + [Work(Request(id, inputs, s.submitters[id].seen))],
           submitters := s.submitters[id := Pushed],
           accepted := s.accepted + [id])
    else s
  }

  function StepCount(s: State, id: RequestId): State {
    if id in s.submitters && s.submitters[id].Pushed? then
      s.(submitters := s.submitters[id := Accepted], inFlight := s.inFlight + 1)
    else s
  }

  function StepSubmit(c: Config, s: State, id: RequestId, inputs: seq<EmbedInput>): State {
    if id in s.submitters then s
    else StepCount(StepPush(c, StepSnapshot(StepCheckClosed(s, id), id), id, inputs), id)
  }

  // ---- Steps of the worker thread ----

  predicate Stale(s: State, r: Request) {
    r.seen % GENERATION_MODULUS != s.cancels % GENERATION_MODULUS
  }

  function Reply(s: State, id: RequestId, outcome: Outcome): State {
    s.(replies := s.replies + [(id, outcome)], inFlight := s.inFlight - 1)
  }

  function StepPop(s: State): State {
    if s.phase.Polling? && s.queue != [] then
      s.(queue := s.queue[1..], phase := match s.queue[0] case Shutdown => Draining case Work(r) => Popped(r))
    else s
  }

  /** A stale request is answered without running inference. */
  function StepCompare(s: State): State {
    if s.phase.Popped? then
      var r := s.phase.request;
      if Stale(s, r) then
        Reply(s.(cancelledRequests := s.cancelledRequests + 1, phase := Top), r.id, Err(Cancelled))
      else s.(phase := Serving(r))
    else s
  }

  /** The counters moved by what the batches of a request did; a caller that is gone counts as cancelled. */
  function Counted(s: State, r: Request, run: BatchRun): State {
    s.(calls := run.calls,
       processedBatches := s.processedBatches + run.batches,
       processedItems := s.processedItems + run.items,
       cancelledRequests := s.cancelledRequests + (if r.id in s.abandoned then 1 else 0),
       phase := Top)
  }

  /** The request in service is answered with the outcome of its batches. */
  function Served(s: State, r: Request, run: BatchRun): State {
    Reply(Counted(s, r, run), r.id, OutcomeOf(run, r.inputs))
  }

  function StepServe(embed: Adapter, c: Config, s: State): State
  {
    if !s.phase.Serving? then s
    else if c.maxBatch == 0 then s.(phase := Crashed(s.phase.request))
    else Served(s, s.phase.request, ServeFrom(embed, s.calls, s.phase.request.inputs, c.maxBatch))
  }

  function StepDrain(s: State): State {
    if s.phase.Draining? then
      if s.queue == [] then s.(phase := Exited, exitedAfter := Some(|s.accepted|))
      else
        var t := s.(queue := s.queue[1..]);
        match s.queue[0]
        case Shutdown => t
        case Work(r) => Reply(t, r.id, Err(Closed))
    else s
  }

  predicate IsWorkerStep(e: Event) {
    e.TestClosed? || e.PopTimeout? || e.Pop? || e.Compare? || e.Serve? || e.Drain?
  }

  function WorkerStep(embed: Adapter, c: Config, s: State, e: Event): State {
    match e
    case TestClosed => if s.phase.Top? then s.(phase := if s.closed then Draining else Polling) else s
    case PopTimeout => if s.phase.Polling? then s.(phase := Top) else s
    case Pop => StepPop(s)
    case Compare => StepCompare(s)
    case Serve => StepServe(embed, c, s)
    case Drain => StepDrain(s)
    case _ => s
  }

  function CallerStep(c: Config, s: State, e: Event): State {
    match e
    case CheckClosed(id) => StepCheckClosed(s, id)
    case SnapshotGeneration(id) => StepSnapshot(s, id)
    case Push(id, inputs) => StepPush(c, s, id, inputs)
    case Count(id) => StepCount(s, id)
    case Submit(id, inputs) => StepSubmit(c, s, id, inputs)
    case CancelAll => s.(cancels := s.cancels + 1)
    case Close => if s.closed then s else s.(closed := true, shutdownUnsent := true)
    case SendShutdown =>
      if !s.shutdownUnsent then s
      else if |s.queue| >= Capacity(c) then s.(shutdownUnsent := false)
      else s.(shutdownUnsent := false, queue := s.queue + [Shutdown])
    case DropReceiver(id) => s.(abandoned := s.abandoned + {id})
    case _ => s
  }

  /** A step that is not enabled leaves the state unchanged. */
  function Step(embed: Adapter, c: Config, s: State, e: Event): State {
    if IsWorkerStep(e) then WorkerStep(embed, c, s, e) else CallerStep(c, s, e)
  }

  /** What a whole submission comes to. */
  lemma SubmitOutcome(c: Config, s: State, id: RequestId, inputs: seq<EmbedInput>)
    requires id !in s.submitters
    ensures
      StepSubmit(c, s, id, inputs) ==
        if s.closed then s.(submitters := s.submitters[id := Refused(Closed)])
        else if |s.queue| >= Capacity(c) then s.(submitters := s.submitters[id := Refused(Busy)])
        else s.(queue := s.queue + [Work(Request(id, inputs, s.cancels))], submitters := s.submitters[id := Accepted],
                accepted := s.accepted + [id], inFlight := s.inFlight + 1)
  {
    var m: map<RequestId, SubmitPhase> := s.submitters;
    if s.closed {
      return;
    }
    if |s.queue| >= Capacity(c) {
      assert m[id := Checked][id := Snapshotted(s.cancels)][id := Refused(Busy)] == m[id := Refused(Busy)];
      return;
    }
    assert m[id := Checked][id := Snapshotted(s.cancels)][id := Pushed][id := Accepted] == m[id := Accepted];
  }

  lemma SubmitKeepsWorker(c: Config, s: State, id: RequestId, inputs: seq<EmbedInput>)
    ensures
      var t := StepSubmit(c, s, id, inputs);
      && t == s.(queue := t.queue, submitters := t.submitters, accepted := t.accepted, inFlight := t.inFlight)
      && s.accepted <= t.accepted
  {
    if id !in s.submitters {
      SubmitOutcome(c, s, id, inputs);
    }
  }

  /** What the other threads leave alone. */
  lemma CallerKeepsWorker(c: Config, s: State, e: Event)
    ensures
      var t := CallerStep(c, s, e);
      && t.phase == s.phase && t.replies == s.replies && t.exitedAfter == s.exitedAfter && t.calls == s.calls
      && s.accepted <= t.accepted
  {
    if e.Submit? {
      SubmitKeepsWorker(c, s, e.sid, e.sinputs);
    }
  }

  /** What the worker leaves alone. */
  lemma WorkerKeepsCallers(embed: Adapter, c: Config, s: State, e: Event)
    ensures
      var t := WorkerStep(embed, c, s, e);
      && t.submitters == s.submitters && t.accepted == s.accepted && t.closed == s.closed
      && t.shutdownUnsent == s.shutdownUnsent && t.cancels == s.cancels
  {
  }

  function Run(embed: Adapter, c: Config, es: seq<Event>): State
  {
    if es == [] then Initial() else Step(embed, c, Run(embed, c, es[..|es| - 1]), es[|es| - 1])
  }

  lemma RunAppend(embed: Adapter, c: Config, es: seq<Event>, e: Event)
    ensures Run(embed, c, es + [e]) == Step(embed, c, Run(embed, c, es), e)
  {
    assert (es + [e])[..|es|] == es;
  }

  lemma RunSplit(embed: Adapter, c: Config, es: seq<Event>, more: seq<Event>)
    requires more != []
    ensures
      Run(embed, c, es + more) == Step(embed, c, Run(embed, c, es + more[..|more| - 1]), more[|more| - 1])
  {
    assert es + more == es + more[..|more| - 1] + [more[|more| - 1]];
    RunAppend(embed, c, es + more[..|more| - 1], more[|more| - 1]);
  }

  // ---- Conservation: nothing accepted is lost, doubled or reordered ----

  function IdOf(m: Message): seq<RequestId> {
    match m case Shutdown => [] case Work(r) => [r.id]
  }

  function QueuedIds(q: seq<Message>): seq<RequestId> {
    if q == [] then [] else IdOf(q[0]) + QueuedIds(q[1..])
  }

  lemma {:induction false} QueuedIdsAppend(q: seq<Message>, m: Message)
    ensures QueuedIds(q + [m]) == QueuedIds(q) + IdOf(m)
  {
    if q == [] {
      assert q + [m] == [m];
      assert QueuedIds([m]) == IdOf(m) + [];
    } else {
      assert (q + [m])[1..] == q[1..] + [m];
      QueuedIdsAppend(q[1..], m);
      Assoc(IdOf(q[0]), QueuedIds(q[1..]), IdOf(m));
    }
  }

  function RepliedIds(s: State): seq<RequestId> {
    seq(|s.replies|, i requires 0 <= i < |s.replies| => s.replies[i].0)
  }

  function InProcess(s: State): seq<RequestId> {
    if s.phase.Popped? || s.phase.Serving? || s.phase.Crashed? then [s.phase.request.id] else []
  }

  /** Pushed requests whose submitter has not yet added to `in_flight`. */
  ghost function Uncounted(s: State): set<RequestId> {
    set id | id in s.submitters && s.submitters[id].Pushed?
  }

  ghost predicate Conserved(s: State) {
    && s.accepted == RepliedIds(s) + InProcess(s) + QueuedIds(s.queue)
    && s.inFlight + |Uncounted(s)| == |InProcess(s)| + |QueuedIds(s.queue)|
  }

  ghost predicate SubmittersAgree(s: State) {
    && Distinct(s.accepted)
    && forall id :: id in s.accepted <==> id in s.submitters && (s.submitters[id].Pushed? || s.submitters[id].Accepted?)
  }

  ghost predicate ShutdownAgrees(s: State) {
    && (s.shutdownUnsent || Shutdown in s.queue || s.phase.Draining? || s.phase.Exited? ==> s.closed)
    && (s.phase.Exited? <==> s.exitedAfter.Some?)
    && (s.exitedAfter.Some? ==> s.exitedAfter.value == |s.replies| <= |s.accepted|)
  }

  ghost predicate Inv(c: Config, s: State) {
    && Conserved(s) && SubmittersAgree(s) && ShutdownAgrees(s) && |s.queue| <= Capacity(c)
  }

  lemma AcceptedPushConserves(c: Config, s: State, id: RequestId, inputs: seq<EmbedInput>)
    requires Conserved(s) && id in s.submitters && s.submitters[id].Snapshotted? && |s.queue| < Capacity(c)
    ensures Conserved(StepPush(c, s, id, inputs))
  {
    var t := StepPush(c, s, id, inputs);
    var m := Work(Request(id, inputs, s.submitters[id].seen));
    assert RepliedIds(t) == RepliedIds(s) && InProcess(t) == InProcess(s) && t.queue == s.queue + [m];
    assert Uncounted(t) == Uncounted(s) + {id};
    QueuedIdsAppend(s.queue, m);
    Assoc(RepliedIds(s) + InProcess(s), QueuedIds(s.queue), [id]);
  }

  lemma PushConserves(c: Config, s: State, id: RequestId, inputs: seq<EmbedInput>)
    requires Conserved(s)
    ensures Conserved(StepPush(c, s, id, inputs))
  {
    if id in s.submitters && s.submitters[id].Snapshotted? && |s.queue| < Capacity(c) {
      AcceptedPushConserves(c, s, id, inputs);
    } else {
      var t := StepPush(c, s, id, inputs);
      assert t == s.(submitters := t.submitters);
      assert RepliedIds(t) == RepliedIds(s) && Uncounted(t) == Uncounted(s);
    }
  }

  lemma PushSubmittersAgree(c: Config, s: State, id: RequestId, inputs: seq<EmbedInput>)
    requires SubmittersAgree(s)
    ensures SubmittersAgree(StepPush(c, s, id, inputs))
  {
    if id in s.submitters && s.submitters[id].Snapshotted? {
      assert id !in s.accepted;
    }
  }

  lemma PushKeepsInv(c: Config, s: State, id: RequestId, inputs: seq<EmbedInput>)
    requires Inv(c, s)
    ensures Inv(c, StepPush(c, s, id, inputs))
  {
    PushConserves(c, s, id, inputs);
    PushSubmittersAgree(c, s, id, inputs);
  }

  lemma CountConserves(s: State, id: RequestId)
    requires Conserved(s)
    ensures Conserved(StepCount(s, id))
  {
    var t := StepCount(s, id);
    assert RepliedIds(t) == RepliedIds(s);
    if id in s.submitters && s.submitters[id].Pushed? {
      assert Uncounted(s) == Uncounted(t) + {id};
    }
  }

  lemma CountKeepsInv(c: Config, s: State, id: RequestId)
    requires Inv(c, s)
    ensures Inv(c, StepCount(s, id))
  {
    CountConserves(s, id);
    assert SubmittersAgree(StepCount(s, id));
  }

  lemma CheckClosedKeepsInv(c: Config, s: State, id: RequestId)
    requires Inv(c, s)
    ensures Inv(c, StepCheckClosed(s, id))
  {
    assert Uncounted(StepCheckClosed(s, id)) == Uncounted(s);
  }

  lemma SnapshotKeepsInv(c: Config, s: State, id: RequestId)
    requires Inv(c, s)
    ensures Inv(c, StepSnapshot(s, id))
  {
    assert Uncounted(StepSnapshot(s, id)) == Uncounted(s);
  }

  /** Taking a request off the front of the pipeline and answering it. */
  lemma ReplyKeepsInv(c: Config, s: State, t: State, id: RequestId, outcome: Outcome)
    requires Inv(c, s)
    requires t.submitters == s.submitters && t.accepted == s.accepted && t.inFlight == s.inFlight
    requires t.exitedAfter == s.exitedAfter == None && !t.phase.Exited? && InProcess(t) == [] && t.replies == s.replies
    requires InProcess(s) + QueuedIds(s.queue) == [id] + QueuedIds(t.queue)
    requires |t.queue| <= Capacity(c)
    requires t.shutdownUnsent || Shutdown in t.queue || t.phase.Draining? ==> t.closed
    ensures Inv(c, Reply(t, id, outcome))
  {
    var u := Reply(t, id, outcome);
    assert Uncounted(u) == Uncounted(s);
    assert RepliedIds(u) == RepliedIds(s) + [id];
    assert s.accepted == RepliedIds(s) + (InProcess(s) + QueuedIds(s.queue));
    assert RepliedIds(s) + ([id] + QueuedIds(t.queue)) == RepliedIds(u) + [] + QueuedIds(t.queue);
    assert |InProcess(s)| + |QueuedIds(s.queue)| == |InProcess(s) + QueuedIds(s.queue)|;
  }

  /** Steps that answer nothing and only move the front of the pipeline, or touch no request at all. */
  lemma MoveKeepsInv(c: Config, s: State, t: State)
    requires Inv(c, s) && ShutdownAgrees(t)
    requires t.submitters == s.submitters && t.accepted == s.accepted && t.replies == s.replies && t.inFlight == s.inFlight
    requires InProcess(t) + QueuedIds(t.queue) == InProcess(s) + QueuedIds(s.queue) && |t.queue| <= Capacity(c)
    ensures Inv(c, t)
  {
    assert Uncounted(t) == Uncounted(s) && RepliedIds(t) == RepliedIds(s);
    Assoc(RepliedIds(s), InProcess(s), QueuedIds(s.queue));
    Assoc(RepliedIds(s), InProcess(t), QueuedIds(t.queue));
    assert |InProcess(s)| + |QueuedIds(s.queue)| == |InProcess(s) + QueuedIds(s.queue)|;
    assert |InProcess(t)| + |QueuedIds(t.queue)| == |InProcess(t) + QueuedIds(t.queue)|;
  }

  lemma PopKeepsInv(c: Config, s: State)
    requires Inv(c, s)
    ensures Inv(c, StepPop(s))
  {
    if s.phase.Polling? && s.queue != [] {
      assert QueuedIds(s.queue) == IdOf(s.queue[0]) + QueuedIds(s.queue[1..]);
      assert s.queue == [s.queue[0]] + s.queue[1..];
      MoveKeepsInv(c, s, StepPop(s));
    }
  }

  lemma CompareKeepsInv(c: Config, s: State)
    requires Inv(c, s)
    ensures Inv(c, StepCompare(s))
  {
    if !s.phase.Popped? {
      return;
    }
    var r := s.phase.request;
    if Stale(s, r) {
      ReplyKeepsInv(c, s, s.(cancelledRequests := s.cancelledRequests + 1, phase := Top), r.id, Err(Cancelled));
    } else {
      MoveKeepsInv(c, s, s.(phase := Serving(r)));
    }
  }

  lemma ServeKeepsInv(embed: Adapter, c: Config, s: State)
    requires Inv(c, s)
    ensures Inv(c, StepServe(embed, c, s))
  {
    if !s.phase.Serving? {
      return;
    }
    var r := s.phase.request;
    if c.maxBatch == 0 {
      MoveKeepsInv(c, s, s.(phase := Crashed(r)));
      return;
    }
    var run := ServeFrom(embed, s.calls, r.inputs, c.maxBatch);
    var t := Counted(s, r, run);
    ReplyKeepsInv(c, s, t, r.id, OutcomeOf(run, r.inputs));
  }

  lemma DrainKeepsInv(c: Config, s: State)
    requires Inv(c, s)
    ensures Inv(c, StepDrain(s))
  {
    if s.phase.Draining? {
      var u := StepDrain(s);
      if s.queue == [] {
        assert Uncounted(u) == Uncounted(s) && RepliedIds(u) == RepliedIds(s);
      } else {
        assert s.queue == [s.queue[0]] + s.queue[1..];
        if s.queue[0].Work? {
          ReplyKeepsInv(c, s, s.(queue := s.queue[1..]), s.queue[0].request.id, Err(Closed));
        } else {
          assert Uncounted(u) == Uncounted(s) && RepliedIds(u) == RepliedIds(s);
        }
      }
    }
  }

  lemma SubmitKeepsInv(c: Config, s: State, id: RequestId, inputs: seq<EmbedInput>)
    requires Inv(c, s)
    ensures Inv(c, StepSubmit(c, s, id, inputs))
  {
    var s1 := StepCheckClosed(s, id);
    var s2 := StepSnapshot(s1, id);
    CheckClosedKeepsInv(c, s, id);
    SnapshotKeepsInv(c, s1, id);
    PushKeepsInv(c, s2, id, inputs);
    CountKeepsInv(c, StepPush(c, s2, id, inputs), id);
  }

  predicate IsFlagStep(e: Event) {
    e.CancelAll? || e.Close? || e.SendShutdown? || e.DropReceiver?
  }

  lemma SendShutdownKeepsInv(c: Config, s: State)
    requires Inv(c, s)
    ensures Inv(c, CallerStep(c, s, SendShutdown))
  {
    QueuedIdsAppend(s.queue, Shutdown);
    var t := CallerStep(c, s, SendShutdown);
    assert t == s.(shutdownUnsent := t.shutdownUnsent, queue := t.queue);
    assert QueuedIds(t.queue) == QueuedIds(s.queue);
    MoveKeepsInv(c, s, t);
  }

  lemma FlagStepKeepsInv(c: Config, s: State, e: Event)
    requires Inv(c, s) && IsFlagStep(e)
    ensures Inv(c, CallerStep(c, s, e))
  {
    if e.SendShutdown? {
      SendShutdownKeepsInv(c, s);
    } else {
      var t := CallerStep(c, s, e);
      assert t == s.(cancels := t.cancels, closed := t.closed, shutdownUnsent := t.shutdownUnsent, abandoned := t.abandoned);
      MoveKeepsInv(c, s, t);
    }
  }

  lemma PollKeepsInv(embed: Adapter, c: Config, s: State, e: Event)
    requires Inv(c, s) && (e.TestClosed? || e.PopTimeout?)
    ensures Inv(c, WorkerStep(embed, c, s, e))
  {
    var t := WorkerStep(embed, c, s, e);
    assert t == s.(phase := t.phase);
    MoveKeepsInv(c, s, t);
  }

  lemma WorkerStepKeepsInv(embed: Adapter, c: Config, s: State, e: Event)
    requires Inv(c, s) && IsWorkerStep(e)
    ensures Inv(c, WorkerStep(embed, c, s, e))
  {
    match e {
      case TestClosed => PollKeepsInv(embed, c, s, e);
      case PopTimeout => PollKeepsInv(embed, c, s, e);
      case Pop => PopKeepsInv(c, s);
      case Compare => CompareKeepsInv(c, s);
      case Serve => ServeKeepsInv(embed, c, s);
      case Drain => DrainKeepsInv(c, s);
    }
  }

  lemma CallerStepKeepsInv(c: Config, s: State, e: Event)
    requires Inv(c, s) && !IsWorkerStep(e)
    ensures Inv(c, CallerStep(c, s, e))
  {
    if IsFlagStep(e) {
      FlagStepKeepsInv(c, s, e);
      return;
    }
    match e {
      case CheckClosed(id) => CheckClosedKeepsInv(c, s, id);
      case SnapshotGeneration(id) => SnapshotKeepsInv(c, s, id);
      case Push(id, inputs) => PushKeepsInv(c, s, id, inputs);
      case Count(id) => CountKeepsInv(c, s, id);
      case Submit(id, inputs) => SubmitKeepsInv(c, s, id, inputs);
    }
  }

  lemma StepKeepsInv(embed: Adapter, c: Config, s: State, e: Event)
    requires Inv(c, s)
    ensures Inv(c, Step(embed, c, s, e))
  {
    if IsWorkerStep(e) {
      WorkerStepKeepsInv(embed, c, s, e);
    } else {
      CallerStepKeepsInv(c, s, e);
    }
  }

  /** In every reachable state the accepted requests, in order, are those replied to, the one in
      process and those queued; the queue is within capacity; `in_flight` is exact up to the pushes
      not yet counted. */
  lemma {:induction false} EveryRunConserves(embed: Adapter, c: Config, es: seq<Event>)
    ensures Inv(c, Run(embed, c, es))
  {
    if es == [] {
      assert Uncounted(Initial()) == {};
    } else {
      EveryRunConserves(embed, c, es[..|es| - 1]);
      StepKeepsInv(embed, c, Run(embed, c, es[..|es| - 1]), es[|es| - 1]);
    }
  }

  function ReplyCount(replies: seq<(RequestId, Outcome)>, id: RequestId): nat {
    if replies == [] then 0 else (if replies[0].0 == id then 1 else 0) + ReplyCount(replies[1..], id)
  }

  lemma {:induction false} DistinctReplyCount(replies: seq<(RequestId, Outcome)>, id: RequestId)
    requires forall i, j :: 0 <= i < j < |replies| ==> replies[i].0 != replies[j].0
    ensures ReplyCount(replies, id) == if exists i :: 0 <= i < |replies| && replies[i].0 == id then 1 else 0
  {
    if replies == [] {
    } else {
      DistinctReplyCount(replies[1..], id);
      if i :| 0 <= i < |replies| && replies[i].0 == id {
        assert i > 0 ==> replies[1..][i - 1].0 == id;
      }
      if j :| 0 <= j < |replies[1..]| && replies[1..][j].0 == id {
        assert replies[j + 1].0 == id;
      }
    }
  }

  /** Exactly once: no request is ever answered twice or answered without having been accepted; once
      the worker has exited, a request has exactly one reply if and only if its push preceded the exit,
      and otherwise none. */
  lemma ExactlyOnce(embed: Adapter, c: Config, es: seq<Event>, id: RequestId)
    ensures
      var s := Run(embed, c, es);
      && ReplyCount(s.replies, id) <= 1
      && (ReplyCount(s.replies, id) == 1 ==> id in s.accepted)
      && (s.phase.Exited? ==>
            && s.exitedAfter.Some? && s.exitedAfter.value <= |s.accepted|
            && ReplyCount(s.replies, id) == if id in s.accepted[..s.exitedAfter.value] then 1 else 0)
  {
    EveryRunConserves(embed, c, es);
    var s := Run(embed, c, es);
    var ids := RepliedIds(s);
    assert s.accepted[..|ids|] == ids;
    assert forall i :: 0 <= i < |ids| ==> s.accepted[i] == ids[i] == s.replies[i].0;
    DistinctReplyCount(s.replies, id);
  }

  /** When no submitter is between its push and its count, `in_flight` is the number of requests
      queued or in process; after the worker's exit it is the number pushed too late. */
  lemma InFlightExact(embed: Adapter, c: Config, es: seq<Event>)
    requires Uncounted(Run(embed, c, es)) == {}
    ensures
      var s := Run(embed, c, es);
      && s.inFlight == |QueuedIds(s.queue)| + |InProcess(s)| == |s.accepted| - |s.replies|
      && (s.phase.Exited? ==> s.exitedAfter.Some? && s.inFlight == |s.accepted| - s.exitedAfter.value)
  {
    EveryRunConserves(embed, c, es);
  }

  // ---- The lost request ----

  /** The worker thread has ended, in order or by a panic. */
  predicate Stopped(s: State) {
    s.phase.Exited? || s.phase.Crashed?
  }

  /** What stays for good once the worker has stopped. */
  ghost function Aftermath(s: State): iset<State> {
    iset t: State |
      && t.phase == s.phase && t.replies == s.replies && t.exitedAfter == s.exitedAfter && t.calls == s.calls
      && s.accepted <= t.accepted
  }

  lemma AftermathOfAftermath(s: State, t: State, u: State)
    requires t in Aftermath(s) && u in Aftermath(t)
    ensures u in Aftermath(s)
  {
  }

  lemma StepAfterStop(embed: Adapter, c: Config, s: State, e: Event)
    requires Stopped(s)
    ensures Step(embed, c, s, e) in Aftermath(s)
  {
    if !IsWorkerStep(e) {
      CallerKeepsWorker(c, s, e);
    }
  }

  /** Once the worker has stopped nothing is ever answered again. */
  lemma {:induction false} StopIsFinal(embed: Adapter, c: Config, es: seq<Event>, more: seq<Event>)
    requires Stopped(Run(embed, c, es))
    ensures Run(embed, c, es + more) in Aftermath(Run(embed, c, es))
    decreases |more|
  {
    if more == [] {
      assert es + more == es;
    } else {
      var s, t := Run(embed, c, es), Run(embed, c, es + more[..|more| - 1]);
      StopIsFinal(embed, c, es, more[..|more| - 1]);
      RunSplit(embed, c, es, more);
      StepAfterStop(embed, c, t, more[|more| - 1]);
      AftermathOfAftermath(s, t, Run(embed, c, es + more));
    }
  }

  /** A caller that read `closed` as false, and pushes after the worker has drained and exited. */
  function LatePush(id: RequestId, inputs: seq<EmbedInput>): seq<Event> {
    [CheckClosed(id), SnapshotGeneration(id)] + [Close, SendShutdown] + [TestClosed, Drain] + [Drain, Push(id, inputs)]
  }

  /** That caller's submission succeeds and is never answered, whatever happens afterwards. */
  lemma LatePushIsNeverAnswered(embed: Adapter, c: Config, id: RequestId, inputs: seq<EmbedInput>, more: seq<Event>)
    ensures
      var s := Run(embed, c, LatePush(id, inputs) + more);
      id in s.accepted && ReplyCount(s.replies, id) == 0
  {
    var es := LatePush(id, inputs);
    var s := LatePushState(id, inputs);
    LatePushReaches(embed, c, id, inputs);
    StopIsFinal(embed, c, es, more);
    assert s.accepted <= Run(embed, c, es + more).accepted;
    assert s.accepted[0] == id;
  }

  function LatePushState(id: RequestId, inputs: seq<EmbedInput>): State {
    Initial().(closed := true, phase := Exited, exitedAfter := Some(0), accepted := [id],
               queue := [Work(Request(id, inputs, 0))], submitters := map[id := Pushed])
  }

  lemma LatePushReaches(embed: Adapter, c: Config, id: RequestId, inputs: seq<EmbedInput>)
    ensures Run(embed, c, LatePush(id, inputs)) == LatePushState(id, inputs)
  {
    var s1 := Initial().(submitters := map[id := Snapshotted(0)]);
    var s2 := s1.(closed := true, queue := [Shutdown]);
    var s3 := s2.(phase := Draining, queue := []);
    TwoSteps(embed, c, [], CheckClosed(id), SnapshotGeneration(id), Initial(), s1);
    var es := [CheckClosed(id), SnapshotGeneration(id)];
    assert [] + es == es;
    TwoSteps(embed, c, es, Close, SendShutdown, s1, s2);
    TwoSteps(embed, c, es + [Close, SendShutdown], TestClosed, Drain, s2, s3);
    TwoSteps(embed, c, es + [Close, SendShutdown] + [TestClosed, Drain], Drain, Push(id, inputs), s3, LatePushState(id, inputs));
  }

  lemma TwoSteps(embed: Adapter, c: Config, es: seq<Event>, e1: Event, e2: Event, s: State, t: State)
    requires Run(embed, c, es) == s
    requires Step(embed, c, Step(embed, c, s, e1), e2) == t
    ensures Run(embed, c, es + [e1, e2]) == t
  {
    RunAppend(embed, c, es, e1);
    RunAppend(embed, c, es + [e1], e2);
    assert es + [e1] + [e2] == es + [e1, e2];
  }

  // ---- Submissions that are not interleaved ----

  ghost predicate WholeSubmissions(es: seq<Event>) {
    forall e :: e in es ==> !e.CheckClosed? && !e.SnapshotGeneration? && !e.Push? && !e.Count?
  }

  ghost predicate NoneHalfway(s: State) {
    && (forall id :: id in s.submitters ==> s.submitters[id].Accepted? || s.submitters[id].Refused?)
    && (s.exitedAfter.Some? ==> s.exitedAfter.value == |s.accepted|)
  }

  lemma WholeSubmitNeverHalfway(c: Config, s: State, id: RequestId, inputs: seq<EmbedInput>)
    requires NoneHalfway(s) && ShutdownAgrees(s)
    ensures NoneHalfway(StepSubmit(c, s, id, inputs))
  {
    if id in s.submitters {
      return;
    }
    assert s.phase.Exited? ==> s.closed;
    SubmitKeepsWorker(c, s, id, inputs);
    var t := StepSubmit(c, s, id, inputs);
    assert t.submitters[id].Accepted? || t.submitters[id].Refused?;
    assert forall id' :: id' in t.submitters && id' != id ==> id' in s.submitters && t.submitters[id'] == s.submitters[id'];
  }

  lemma WholeStepNeverHalfway(embed: Adapter, c: Config, s: State, e: Event)
    requires NoneHalfway(s) && ShutdownAgrees(s)
    requires !e.CheckClosed? && !e.SnapshotGeneration? && !e.Push? && !e.Count?
    ensures NoneHalfway(Step(embed, c, s, e))
  {
    if IsWorkerStep(e) {
      WorkerKeepsCallers(embed, c, s, e);
    } else if e.Submit? {
      WholeSubmitNeverHalfway(c, s, e.sid, e.sinputs);
    }
  }

  lemma {:induction false} WholeSubmissionsNeverHalfway(embed: Adapter, c: Config, es: seq<Event>)
    requires WholeSubmissions(es)
    ensures NoneHalfway(Run(embed, c, es))
  {
    if es == [] {
    } else {
      var s, e := Run(embed, c, es[..|es| - 1]), es[|es| - 1];
      WholeSubmissionsNeverHalfway(embed, c, es[..|es| - 1]);
      EveryRunConserves(embed, c, es[..|es| - 1]);
      assert e in es;
      WholeStepNeverHalfway(embed, c, s, e);
    }
  }

  /** If every submission runs without interleaving, `in_flight` is exact at all times, and after the
      worker's exit every accepted request has exactly one reply and none is in flight. */
  lemma WholeSubmissionsAllResolved(embed: Adapter, c: Config, es: seq<Event>)
    requires WholeSubmissions(es)
    ensures
      var s := Run(embed, c, es);
      && s.inFlight == |QueuedIds(s.queue)| + |InProcess(s)|
      && (s.phase.Exited? ==> s.inFlight == 0 && forall id :: id in s.accepted ==> ReplyCount(s.replies, id) == 1)
  {
    var s := Run(embed, c, es);
    WholeSubmissionsNeverHalfway(embed, c, es);
    assert Uncounted(s) == {};
    InFlightExact(embed, c, es);
    if s.phase.Exited? {
      forall id | id in s.accepted ensures ReplyCount(s.replies, id) == 1 {
        ExactlyOnce(embed, c, es, id);
        assert s.accepted[..s.exitedAfter.value] == s.accepted;
      }
    }
  }

  // ---- Shutdown always finishes ----

  /** The step the worker thread takes if it is given the time. */
  function WorkerMove(s: State): Event {
    match s.phase
    case Top => TestClosed
    case Polling => if s.queue == [] then PopTimeout else Pop
    case Popped(_) => Compare
    case Serving(_) => Serve
    case _ => Drain
  }

  /** A bound on the worker steps left once `closed` is set, if nothing else is pushed. */
  function StepsToExit(s: State): nat {
    match s.phase
    case Top => |s.queue| + 2
    case Polling => |s.queue| + 4
    case Popped(_) => |s.queue| + 4
    case Serving(_) => |s.queue| + 3
    case Draining => |s.queue| + 1
    case _ => 0
  }

  /** The submitters that may yet push. */
  ghost function Pending(s: State): set<RequestId> {
    set id | id in s.submitters && (s.submitters[id].Checked? || s.submitters[id].Snapshotted?)
  }

  /** The same bound, counting what may yet be pushed. */
  ghost function StepsLeft(s: State): nat {
    StepsToExit(s) + |Pending(s)| + if s.shutdownUnsent then 1 else 0
  }

  /** With `closed` set no new submitter gets past its check, and each that did pushes at most once. */
  lemma ClosedCallerStep(c: Config, s: State, e: Event)
    requires s.closed
    ensures
      var t := CallerStep(c, s, e);
      t.closed && StepsLeft(t) <= StepsLeft(s)
  {
    var t := CallerStep(c, s, e);
    if e.Push? {
      ClosedPush(c, s, e.id, e.inputs);
      return;
    }
    if e.Submit? {
      ClosedSubmit(c, s, e.sid, e.sinputs);
      return;
    }
    assert Pending(t) == Pending(s);
  }

  lemma ClosedSubmit(c: Config, s: State, id: RequestId, inputs: seq<EmbedInput>)
    requires s.closed
    ensures
      var t := StepSubmit(c, s, id, inputs);
      t.closed && StepsLeft(t) == StepsLeft(s)
  {
    var s1 := StepCheckClosed(s, id);
    assert StepSubmit(c, s, id, inputs) == s1;
    assert Pending(s1) == Pending(s);
  }

  lemma ClosedPush(c: Config, s: State, id: RequestId, inputs: seq<EmbedInput>)
    requires s.closed
    ensures
      var t := StepPush(c, s, id, inputs);
      t.closed && t.phase == s.phase && StepsLeft(t) <= StepsLeft(s)
  {
    var t := StepPush(c, s, id, inputs);
    if id in s.submitters && s.submitters[id].Snapshotted? {
      assert Pending(s) == Pending(t) + {id};
    } else {
      assert t == s;
    }
  }

  lemma ClosedWorkerStep(embed: Adapter, c: Config, s: State, e: Event)
    requires s.closed && IsWorkerStep(e)
    ensures
      var t := WorkerStep(embed, c, s, e);
      t.closed && (t != s ==> StepsLeft(t) < StepsLeft(s))
  {
    WorkerKeepsCallers(embed, c, s, e);
    assert Pending(WorkerStep(embed, c, s, e)) == Pending(s);
  }

  /** Once `closed` is set no step of any thread raises the bound, every step of the worker that does anything
      lowers it, and until the worker has stopped its next step does something: even if the shutdown message
      was refused by a full queue, and however late pushes come. */
  lemma ClosedWorkerApproachesExit(embed: Adapter, c: Config, s: State, e: Event)
    requires s.closed
    ensures
      var t := Step(embed, c, s, e);
      t.closed && StepsLeft(t) <= StepsLeft(s) && (IsWorkerStep(e) && t != s ==> StepsLeft(t) < StepsLeft(s))
    ensures !Stopped(s) ==> IsWorkerStep(WorkerMove(s)) && Step(embed, c, s, WorkerMove(s)) != s
  {
    if IsWorkerStep(e) {
      ClosedWorkerStep(embed, c, s, e);
    } else {
      ClosedCallerStep(c, s, e);
    }
    MoveChanges(embed, c, s);
  }

  lemma MoveChanges(embed: Adapter, c: Config, s: State)
    ensures !Stopped(s) ==> IsWorkerStep(WorkerMove(s)) && Step(embed, c, s, WorkerMove(s)) != s
  {
    var t := Step(embed, c, s, WorkerMove(s));
    assert !Stopped(s) ==> t.phase != s.phase || |t.queue| < |s.queue|;
  }

  /** The steps of the worker in a continuation that do anything. */
  ghost function WorkDone(embed: Adapter, c: Config, es: seq<Event>, more: seq<Event>): nat
    decreases |more|
  {
    if more == [] then 0
    else
      var init, e := more[..|more| - 1], more[|more| - 1];
      var s := Run(embed, c, es + init);
      WorkDone(embed, c, es, init) + if IsWorkerStep(e) && Step(embed, c, s, e) != s then 1 else 0
  }

  /** However the threads interleave after `closed` is set, the worker does at most so many more steps. */
  lemma {:induction false} BoundedWorkAfterClose(embed: Adapter, c: Config, es: seq<Event>, more: seq<Event>)
    requires Run(embed, c, es).closed
    ensures
      var t := Run(embed, c, es + more);
      t.closed && WorkDone(embed, c, es, more) + StepsLeft(t) <= StepsLeft(Run(embed, c, es))
    decreases |more|
  {
    if more == [] {
      assert es + more == es;
    } else {
      var init, e := more[..|more| - 1], more[|more| - 1];
      BoundedWorkAfterClose(embed, c, es, init);
      RunSplit(embed, c, es, more);
      ClosedWorkerApproachesExit(embed, c, Run(embed, c, es + init), e);
    }
  }

  ghost function RunWorker(embed: Adapter, c: Config, s: State): State
    requires s.closed
    decreases StepsLeft(s)
  {
    if Stopped(s) then s
    else
      ClosedWorkerApproachesExit(embed, c, s, WorkerMove(s));
      RunWorker(embed, c, Step(embed, c, s, WorkerMove(s)))
  }

  /** While draining, the worker's own run goes on with the drain. */
  lemma DrainIsNext(embed: Adapter, c: Config, s: State)
    requires s.closed && s.phase.Draining?
    ensures StepDrain(s).closed && RunWorker(embed, c, s) == RunWorker(embed, c, StepDrain(s))
  {
    WorkerKeepsCallers(embed, c, s, Drain);
  }

  lemma ExitAnsweredAll(embed: Adapter, c: Config, s: State)
    requires Inv(c, s) && !s.phase.Exited?
    ensures
      var u := Step(embed, c, s, WorkerMove(s));
      u.phase.Exited? ==> RepliedIds(u) == s.accepted && u.queue == []
  {
    if s.phase.Draining? && s.queue == [] {
      var u := StepDrain(s);
      assert RepliedIds(u) == RepliedIds(s) == RepliedIds(s) + InProcess(s) + QueuedIds(s.queue);
    }
  }

  lemma CrashLosesRequest(c: Config, s: State)
    requires Inv(c, s) && s.phase.Crashed?
    ensures RepliedIds(s) != s.accepted
  {
    assert |s.accepted| == |RepliedIds(s)| + 1 + |QueuedIds(s.queue)|;
  }

  /** Left to itself after `closed` is set, the worker stops with every accepted request answered, unless
      the batch size is zero and a request reaches service. */
  lemma {:induction false} ClosedWorkerAnswersAll(embed: Adapter, c: Config, s: State)
    requires s.closed && Inv(c, s) && !s.phase.Exited?
    ensures
      var t := RunWorker(embed, c, s);
      && Stopped(t) && t.accepted == s.accepted
      && (RepliedIds(t) == s.accepted <==> t.phase.Exited?)
      && (t.phase.Exited? ==> t.queue == [])
      && (c.maxBatch > 0 && !s.phase.Crashed? ==> t.phase.Exited?)
    decreases StepsLeft(s)
  {
    if s.phase.Crashed? {
      CrashLosesRequest(c, s);
      return;
    }
    var u := Step(embed, c, s, WorkerMove(s));
    StepKeepsInv(embed, c, s, WorkerMove(s));
    ClosedWorkerApproachesExit(embed, c, s, WorkerMove(s));
    WorkerKeepsCallers(embed, c, s, WorkerMove(s));
    ExitAnsweredAll(embed, c, s);
    if !u.phase.Exited? {
      ClosedWorkerAnswersAll(embed, c, u);
    }
  }

  // ---- A batch size of zero ----

  lemma {:induction false} CrashNeedsZeroBatch(embed: Adapter, c: Config, es: seq<Event>)
    ensures Run(embed, c, es).phase.Crashed? ==> c.maxBatch == 0
  {
    if es == [] {
    } else {
      var s, e := Run(embed, c, es[..|es| - 1]), es[|es| - 1];
      CrashNeedsZeroBatch(embed, c, es[..|es| - 1]);
      if !IsWorkerStep(e) {
        CallerKeepsWorker(c, s, e);
      }
    }
  }

  /** A request in service, for whatever submission. */
  function IntoService(id: RequestId, inputs: seq<EmbedInput>): seq<Event> {
    [Submit(id, inputs), TestClosed] + [Pop, Compare]
  }

  function OneQueued(id: RequestId, inputs: seq<EmbedInput>): State {
    Initial().(phase := Polling, queue := [Work(Request(id, inputs, 0))], submitters := map[id := Accepted],
               accepted := [id], inFlight := 1)
  }

  lemma OneQueuedReached(embed: Adapter, c: Config, id: RequestId, inputs: seq<EmbedInput>)
    ensures Run(embed, c, [Submit(id, inputs), TestClosed]) == OneQueued(id, inputs)
  {
    SubmitOutcome(c, Initial(), id, inputs);
    TwoSteps(embed, c, [], Submit(id, inputs), TestClosed, Initial(), OneQueued(id, inputs));
    assert [] + [Submit(id, inputs), TestClosed] == [Submit(id, inputs), TestClosed];
  }

  lemma IntoServiceReaches(embed: Adapter, c: Config, id: RequestId, inputs: seq<EmbedInput>)
    ensures
      Run(embed, c, IntoService(id, inputs)) == OneQueued(id, inputs).(phase := Serving(Request(id, inputs, 0)), queue := [])
  {
    OneQueuedReached(embed, c, id, inputs);
    TwoSteps(embed, c, [Submit(id, inputs), TestClosed], Pop, Compare, OneQueued(id, inputs),
             OneQueued(id, inputs).(phase := Serving(Request(id, inputs, 0)), queue := []));
  }

  /** The worker thread can crash if and only if the batch size is zero; the request it crashes on is
      then never answered. */
  lemma CrashIffZeroBatch(embed: Adapter, c: Config, id: RequestId, inputs: seq<EmbedInput>, more: seq<Event>)
    ensures (exists es :: Run(embed, c, es).phase.Crashed?) <==> c.maxBatch == 0
    ensures c.maxBatch == 0 ==>
      var s := Run(embed, c, IntoService(id, inputs) + [Serve] + more);
      s.phase.Crashed? && id in s.accepted && s.replies == [] && s.calls == 0
  {
    var es := IntoService(id, inputs);
    IntoServiceReaches(embed, c, id, inputs);
    RunAppend(embed, c, es, Serve);
    if c.maxBatch == 0 {
      assert Run(embed, c, es + [Serve]).phase.Crashed?;
      StopIsFinal(embed, c, es + [Serve], more);
      assert Run(embed, c, es + [Serve]).accepted[0] == id;
    }
    if es' :| Run(embed, c, es').phase.Crashed? {
      CrashNeedsZeroBatch(embed, c, es');
    }
  }
}
