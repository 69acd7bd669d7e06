/** What a submission comes to, read off the run (crates/embeddings/src/worker.rs). */
module WorkerSubmissions {
  import opened Basics
  import opened Wrappers
  import opened Inference
  import opened WorkerProtocol

  /** The step in which a submitter reads `closed`. */
  predicate Enters(s: State, e: Event, id: RequestId) {
    ((e.CheckClosed? && e.id == id) || (e.Submit? && e.sid == id)) && id !in s.submitters
  }

  /** The step in which it tries to put its request in the queue. */
  predicate Tries(s: State, e: Event, id: RequestId) {
    || (e.Push? && e.id == id && id in s.submitters && s.submitters[id].Snapshotted?)
    || (e.Submit? && e.sid == id && id !in s.submitters && !s.closed)
  }

  /** A queue of capacity zero holds one message. */
  predicate Full(c: Config, s: State) {
    |s.queue| >= c.capacity && |s.queue| >= 1
  }

  ghost predicate TurnedAwayAt(embed: Adapter, c: Config, es: seq<Event>, id: RequestId, p: nat) {
    p < |es| && Enters(Run(embed, c, es[..p]), es[p], id) && Close in es[..p]
  }

  ghost predicate FullAt(embed: Adapter, c: Config, es: seq<Event>, id: RequestId, p: nat) {
    p < |es| && Tries(Run(embed, c, es[..p]), es[p], id) && Full(c, Run(embed, c, es[..p]))
  }

  ghost predicate RoomAt(embed: Adapter, c: Config, es: seq<Event>, id: RequestId, p: nat) {
    p < |es| && Tries(Run(embed, c, es[..p]), es[p], id) && !Full(c, Run(embed, c, es[..p]))
  }

  // The four ends of a submission, as what the run did.

  ghost predicate CameTooLate(embed: Adapter, c: Config, es: seq<Event>, id: RequestId) {
    exists p: nat :: TurnedAwayAt(embed, c, es, id, p)
  }

  ghost predicate FoundFullAndClosed(embed: Adapter, c: Config, es: seq<Event>, id: RequestId) {
    exists p: nat :: FullAt(embed, c, es, id, p) && Close in es[..p]
  }

  ghost predicate FoundFullAndOpen(embed: Adapter, c: Config, es: seq<Event>, id: RequestId) {
    exists p: nat :: FullAt(embed, c, es, id, p) && Close !in es[..p]
  }

  ghost predicate FoundRoom(embed: Adapter, c: Config, es: seq<Event>, id: RequestId) {
    exists p: nat :: RoomAt(embed, c, es, id, p)
  }

  lemma StepCloses(embed: Adapter, c: Config, s: State, e: Event)
    ensures Step(embed, c, s, e).closed <==> s.closed || e == Close
  {
    if IsWorkerStep(e) {
      WorkerKeepsCallers(embed, c, s, e);
    } else if e.Submit? {
      SubmitKeepsWorker(c, s, e.sid, e.sinputs);
    }
  }

  lemma {:induction false} ClosedIff(embed: Adapter, c: Config, es: seq<Event>)
    ensures Run(embed, c, es).closed <==> Close in es
  {
    if es == [] {
    } else {
      var before, e := es[..|es| - 1], es[|es| - 1];
      assert es == before + [e];
      ClosedIff(embed, c, before);
      StepCloses(embed, c, Run(embed, c, before), e);
    }
  }

  /** What one step makes of a submitter. */
  ghost predicate Becomes(c: Config, s: State, e: Event, id: RequestId, t: State) {
    && ((id in t.submitters && t.submitters[id] == Refused(Closed)) <==>
          || (id in s.submitters && s.submitters[id] == Refused(Closed))
          || (Enters(s, e, id) && s.closed) || (Tries(s, e, id) && Full(c, s) && s.closed))
    && ((id in t.submitters && t.submitters[id] == Refused(Busy)) <==>
          || (id in s.submitters && s.submitters[id] == Refused(Busy)) || (Tries(s, e, id) && Full(c, s) && !s.closed))
    && (id in t.accepted <==> id in s.accepted || (Tries(s, e, id) && !Full(c, s)))
  }

  lemma SubmitBecomes(c: Config, s: State, sid: RequestId, inputs: seq<EmbedInput>, id: RequestId)
    ensures Becomes(c, s, Submit(sid, inputs), id, StepSubmit(c, s, sid, inputs))
  {
    if sid !in s.submitters {
      SubmitOutcome(c, s, sid, inputs);
    }
  }

  lemma CallerBecomes(c: Config, s: State, e: Event, id: RequestId)
    requires !IsWorkerStep(e)
    ensures Becomes(c, s, e, id, CallerStep(c, s, e))
  {
    if e.Submit? {
      SubmitBecomes(c, s, e.sid, e.sinputs, id);
    }
  }

  lemma StepBecomes(embed: Adapter, c: Config, s: State, e: Event, id: RequestId)
    ensures Becomes(c, s, e, id, Step(embed, c, s, e))
  {
    if IsWorkerStep(e) {
      WorkerKeepsCallers(embed, c, s, e);
    } else {
      CallerBecomes(c, s, e, id);
    }
  }

  lemma PrefixOf(es: seq<Event>, e: Event, p: nat)
    requires p <= |es|
    ensures (es + [e])[..p] == es[..p] && (p < |es| ==> (es + [e])[p] == es[p])
  {
  }

  /** Something happened in a longer run if it happened in the run before, or in the last step. */
  lemma EndsGrow(embed: Adapter, c: Config, es: seq<Event>, e: Event, id: RequestId)
    ensures
      var s, all := Run(embed, c, es), es + [e];
      && (CameTooLate(embed, c, all, id) <==> CameTooLate(embed, c, es, id) || (Enters(s, e, id) && Close in es))
      && (FoundFullAndClosed(embed, c, all, id) <==>
            FoundFullAndClosed(embed, c, es, id) || (Tries(s, e, id) && Full(c, s) && Close in es))
      && (FoundFullAndOpen(embed, c, all, id) <==>
            FoundFullAndOpen(embed, c, es, id) || (Tries(s, e, id) && Full(c, s) && Close !in es))
      && (FoundRoom(embed, c, all, id) <==> FoundRoom(embed, c, es, id) || (Tries(s, e, id) && !Full(c, s)))
  {
    var all := es + [e];
    PrefixOf(es, e, |es|);
    forall p: nat | p < |es|
      ensures TurnedAwayAt(embed, c, all, id, p) <==> TurnedAwayAt(embed, c, es, id, p)
      ensures FullAt(embed, c, all, id, p) <==> FullAt(embed, c, es, id, p)
      ensures RoomAt(embed, c, all, id, p) <==> RoomAt(embed, c, es, id, p)
      ensures all[..p] == es[..p]
    {
      PrefixOf(es, e, p);
    }
    assert TurnedAwayAt(embed, c, all, id, |es|) <==> Enters(Run(embed, c, es), e, id) && Close in es;
    assert FullAt(embed, c, all, id, |es|) <==> Tries(Run(embed, c, es), e, id) && Full(c, Run(embed, c, es));
    assert RoomAt(embed, c, all, id, |es|) <==> Tries(Run(embed, c, es), e, id) && !Full(c, Run(embed, c, es));
  }

  /** Over every run: a submitter is refused as Closed if it read `closed` after a Close, or found the queue full after one; as
      Busy if it found the queue full before any Close; and its request is in the queue for good if it found room. */
  lemma {:induction false} SubmissionsEnd(embed: Adapter, c: Config, es: seq<Event>, id: RequestId)
    ensures
      var s := Run(embed, c, es);
      && ((id in s.submitters && s.submitters[id] == Refused(Closed)) <==>
            CameTooLate(embed, c, es, id) || FoundFullAndClosed(embed, c, es, id))
      && ((id in s.submitters && s.submitters[id] == Refused(Busy)) <==> FoundFullAndOpen(embed, c, es, id))
      && (id in s.accepted <==> FoundRoom(embed, c, es, id))
  {
    if es == [] {
    } else {
      var before, e := es[..|es| - 1], es[|es| - 1];
      var s := Run(embed, c, before);
      assert es == before + [e];
      SubmissionsEnd(embed, c, before, id);
      ClosedIff(embed, c, before);
      StepBecomes(embed, c, s, e, id);
      EndsGrow(embed, c, before, e, id);
    }
  }

  // ---- Requests keep their inputs ----

  /** The inputs a submission step brings. */
  function InputsOf(e: Event): seq<EmbedInput> {
    match e case Push(_, inputs) => inputs case Submit(_, inputs) => inputs case _ => []
  }

  /** The requests that found room in the run, with the inputs they were submitted with. */
  ghost function Sent(embed: Adapter, c: Config, es: seq<Event>): iset<(RequestId, seq<EmbedInput>)> {
    iset p: nat, id: RequestId | RoomAt(embed, c, es, id, p) :: (id, InputsOf(es[p]))
  }

  lemma OneSend(embed: Adapter, c: Config, es: seq<Event>, id: RequestId, p: nat, q: nat)
    requires RoomAt(embed, c, es, id, p) && RoomAt(embed, c, es, id, q)
    ensures p == q
  {
    if p < q {
      SendsOnce(embed, c, es, id, p, q);
    } else if q < p {
      SendsOnce(embed, c, es, id, q, p);
    }
  }

  lemma SendsOnce(embed: Adapter, c: Config, es: seq<Event>, id: RequestId, p: nat, q: nat)
    requires RoomAt(embed, c, es, id, p) && RoomAt(embed, c, es, id, q)
    ensures p >= q
  {
    if p < q {
      assert es[..q][..p] == es[..p];
      assert RoomAt(embed, c, es[..q], id, p);
      SubmissionsEnd(embed, c, es[..q], id);
      EveryRunConserves(embed, c, es[..q]);
    }
  }

  /** What the queue and the worker hold was sent. */
  ghost predicate Carries(sent: iset<(RequestId, seq<EmbedInput>)>, s: State) {
    && (forall m :: m in s.queue && m.Work? ==> (m.request.id, m.request.inputs) in sent)
    && (s.phase.Popped? || s.phase.Serving? || s.phase.Crashed? ==> (s.phase.request.id, s.phase.request.inputs) in sent)
  }

  lemma CallerCarries(c: Config, sent: iset<(RequestId, seq<EmbedInput>)>, s: State, e: Event)
    requires !IsWorkerStep(e) && Carries(sent, s)
    requires forall id: RequestId :: Tries(s, e, id) && !Full(c, s) ==> (id, InputsOf(e)) in sent
    ensures Carries(sent, CallerStep(c, s, e))
  {
    match e {
      case Submit(id, inputs) =>
        if id !in s.submitters {
          SubmitOutcome(c, s, id, inputs);
          assert !s.closed ==> Tries(s, e, id);
        }
      case Push(id, inputs) =>
        assert id in s.submitters && s.submitters[id].Snapshotted? ==> Tries(s, e, id);
      case _ =>
    }
  }

  lemma WorkerCarries(embed: Adapter, c: Config, sent: iset<(RequestId, seq<EmbedInput>)>, s: State, e: Event)
    requires IsWorkerStep(e) && Carries(sent, s)
    ensures Carries(sent, WorkerStep(embed, c, s, e))
  {
    match e {
      case Pop => assert s.phase.Polling? && s.queue != [] ==> s.queue[0] in s.queue;
      case _ =>
    }
  }

  lemma SentGrows(embed: Adapter, c: Config, es: seq<Event>, e: Event)
    ensures Sent(embed, c, es) <= Sent(embed, c, es + [e])
    ensures forall id: RequestId :: Tries(Run(embed, c, es), e, id) && !Full(c, Run(embed, c, es)) ==>
      (id, InputsOf(e)) in Sent(embed, c, es + [e])
  {
    var all := es + [e];
    PrefixOf(es, e, |es|);
    forall p: nat, id: RequestId | RoomAt(embed, c, es, id, p) ensures (id, InputsOf(es[p])) in Sent(embed, c, all) {
      PrefixOf(es, e, p);
      assert RoomAt(embed, c, all, id, p);
    }
    forall id: RequestId | Tries(Run(embed, c, es), e, id) && !Full(c, Run(embed, c, es))
      ensures (id, InputsOf(e)) in Sent(embed, c, all)
    {
      assert RoomAt(embed, c, all, id, |es|);
    }
  }

  /** Over every run the requests queued or with the worker hold the inputs they were submitted with. */
  lemma {:induction false} EveryRunCarriesInputs(embed: Adapter, c: Config, es: seq<Event>)
    ensures Carries(Sent(embed, c, es), Run(embed, c, es))
  {
    if es == [] {
    } else {
      var before, e := es[..|es| - 1], es[|es| - 1];
      assert es == before + [e];
      EveryRunCarriesInputs(embed, c, before);
      SentGrows(embed, c, before, e);
      if IsWorkerStep(e) {
        WorkerCarries(embed, c, Sent(embed, c, es), Run(embed, c, before), e);
      } else {
        CallerCarries(c, Sent(embed, c, es), Run(embed, c, before), e);
      }
    }
  }

  /** The results of a reply are the adapter mapped over inputs that were sent under its id. */
  ghost predicate AnswersSent(sent: iset<(RequestId, seq<EmbedInput>)>, f: EmbedInput -> EmbeddedSequence, reply: (RequestId, Outcome)) {
    reply.1.Ok? ==> exists inputs :: (reply.0, inputs) in sent && reply.1.value == MapInputs(f, inputs)
  }

  lemma NewReplyAnswers(embed: Adapter, f: EmbedInput -> EmbeddedSequence, c: Config, sent: iset<(RequestId, seq<EmbedInput>)>,
                        s: State, e: Event)
    requires Pointwise(embed, f) && Carries(sent, s)
    ensures forall i :: |s.replies| <= i < |Step(embed, c, s, e).replies| ==> AnswersSent(sent, f, Step(embed, c, s, e).replies[i])
    ensures s.replies <= Step(embed, c, s, e).replies
  {
    if e == Serve && s.phase.Serving? && c.maxBatch > 0 {
      BatchedRefinesUnbatched(embed, f, s.calls, s.phase.request.inputs, c.maxBatch);
    } else if !IsWorkerStep(e) {
      CallerKeepsWorker(c, s, e);
    }
  }

  lemma AnswersGrow(sent: iset<(RequestId, seq<EmbedInput>)>, more: iset<(RequestId, seq<EmbedInput>)>,
                    f: EmbedInput -> EmbeddedSequence, reply: (RequestId, Outcome))
    requires sent <= more && AnswersSent(sent, f, reply)
    ensures AnswersSent(more, f, reply)
  {
  }

  /** With a pointwise adapter, over every run and however requests are batched and interleaved: whoever is answered with
      results is answered with the adapter mapped, in order, over the inputs it submitted. */
  lemma {:induction false} RepliesAnswerInputs(embed: Adapter, f: EmbedInput -> EmbeddedSequence, c: Config, es: seq<Event>, i: nat)
    requires Pointwise(embed, f) && i < |Run(embed, c, es).replies|
    ensures AnswersSent(Sent(embed, c, es), f, Run(embed, c, es).replies[i])
    decreases |es|
  {
    var before, e := es[..|es| - 1], es[|es| - 1];
    var s := Run(embed, c, before);
    assert es == before + [e];
    EveryRunCarriesInputs(embed, c, before);
    NewReplyAnswers(embed, f, c, Sent(embed, c, before), s, e);
    SentGrows(embed, c, before, e);
    if i < |s.replies| {
      RepliesAnswerInputs(embed, f, c, before, i);
    }
    AnswersGrow(Sent(embed, c, before), Sent(embed, c, es), f, Run(embed, c, es).replies[i]);
  }

  // ---- The shutdown message waits its turn ----

  /** The requests queued before the first shutdown message. */
  function AheadIds(q: seq<Message>): seq<RequestId> {
    if q == [] || q[0].Shutdown? then [] else IdOf(q[0]) + AheadIds(q[1..])
  }

  lemma {:induction false} AheadAppend(q: seq<Message>, m: Message)
    ensures Shutdown in q ==> AheadIds(q + [m]) == AheadIds(q)
    ensures Shutdown !in q ==> AheadIds(q + [Shutdown]) == QueuedIds(q)
  {
    if q == [] {
    } else {
      assert (q + [m])[1..] == q[1..] + [m] && (q + [Shutdown])[1..] == q[1..] + [Shutdown];
      AheadAppend(q[1..], m);
    }
  }

  /** The requests answered, in process and ahead of the message are, in order, those in `first`. */
  ghost predicate InTurn(s: State, first: seq<RequestId>) {
    RepliedIds(s) + InProcess(s) + AheadIds(s.queue) == first
  }

  lemma CallerKeepsTurn(c: Config, s: State, e: Event, first: seq<RequestId>)
    requires !IsWorkerStep(e) && Shutdown in s.queue && InTurn(s, first)
    ensures Shutdown in CallerStep(c, s, e).queue && InTurn(CallerStep(c, s, e), first)
  {
    var t := CallerStep(c, s, e);
    CallerKeepsWorker(c, s, e);
    if e.Submit? && e.sid !in s.submitters {
      SubmitOutcome(c, s, e.sid, e.sinputs);
    }
    assert RepliedIds(t) == RepliedIds(s) && InProcess(t) == InProcess(s);
    if t.queue != s.queue {
      assert |t.queue| == |s.queue| + 1 && t.queue == s.queue + [t.queue[|s.queue|]];
      AheadAppend(s.queue, t.queue[|s.queue|]);
    }
  }

  lemma OneReplyMore(s: State, t: State, reply: (RequestId, Outcome))
    requires t.replies == s.replies + [reply]
    ensures RepliedIds(t) == RepliedIds(s) + [reply.0]
  {
  }

  lemma PopKeepsTurn(s: State, first: seq<RequestId>)
    requires InTurn(s, first) && s.queue != [] && s.queue[0].Work?
    ensures InTurn(StepPop(s), first)
  {
    var t := StepPop(s);
    assert RepliedIds(t) == RepliedIds(s);
    if s.phase.Polling? {
      Assoc(RepliedIds(s), [s.queue[0].request.id], AheadIds(t.queue));
    }
  }

  lemma CompareKeepsTurn(s: State, first: seq<RequestId>)
    requires InTurn(s, first)
    ensures InTurn(StepCompare(s), first)
  {
    var t := StepCompare(s);
    if s.phase.Popped? && Stale(s, s.phase.request) {
      OneReplyMore(s, t, (s.phase.request.id, Err(Cancelled)));
    } else {
      assert RepliedIds(t) == RepliedIds(s);
    }
  }

  lemma ServeKeepsTurn(embed: Adapter, c: Config, s: State, first: seq<RequestId>)
    requires InTurn(s, first)
    ensures InTurn(StepServe(embed, c, s), first)
  {
    var t := StepServe(embed, c, s);
    if s.phase.Serving? && c.maxBatch > 0 {
      OneReplyMore(s, t, t.replies[|s.replies|]);
    } else {
      assert RepliedIds(t) == RepliedIds(s);
    }
  }

  lemma DrainKeepsTurn(s: State, first: seq<RequestId>)
    requires InTurn(s, first) && s.queue != [] && s.queue[0].Work?
    ensures InTurn(StepDrain(s), first)
  {
    var t := StepDrain(s);
    if s.phase.Draining? {
      OneReplyMore(s, t, (s.queue[0].request.id, Err(Closed)));
      Assoc(RepliedIds(s), [s.queue[0].request.id], AheadIds(t.queue));
    }
  }

  lemma WorkerKeepsTurn(embed: Adapter, c: Config, s: State, e: Event, first: seq<RequestId>)
    requires IsWorkerStep(e) && InTurn(s, first) && s.queue != []
    requires s.queue[0].Work? || WorkerStep(embed, c, s, e).queue == s.queue
    ensures InTurn(WorkerStep(embed, c, s, e), first)
  {
    match e {
      case Pop =>
        if s.queue[0].Work? {
          PopKeepsTurn(s, first);
        }
        return;
      case Drain =>
        if s.queue[0].Work? {
          DrainKeepsTurn(s, first);
        }
        return;
      case Compare =>
        CompareKeepsTurn(s, first);
        return;
      case Serve =>
        ServeKeepsTurn(embed, c, s, first);
        return;
      case TestClosed =>
        assert RepliedIds(WorkerStep(embed, c, s, e)) == RepliedIds(s);
      case PopTimeout =>
        assert RepliedIds(WorkerStep(embed, c, s, e)) == RepliedIds(s);
      case _ =>
    }
  }

  /** The shutdown message is sent at most once, and only after a Close. */
  ghost predicate MessageOnce(s: State) {
    && (s.shutdownUnsent ==> s.closed && Shutdown !in s.queue) && (Shutdown in s.queue ==> s.closed)
    && forall i, j :: 0 <= i < j < |s.queue| ==> !(s.queue[i].Shutdown? && s.queue[j].Shutdown?)
  }

  lemma StepKeepsOnce(embed: Adapter, c: Config, s: State, e: Event)
    requires MessageOnce(s)
    ensures MessageOnce(Step(embed, c, s, e))
  {
    if e.Submit? && e.sid !in s.submitters {
      SubmitOutcome(c, s, e.sid, e.sinputs);
    }
  }

  lemma {:induction false} EveryRunMessageOnce(embed: Adapter, c: Config, es: seq<Event>)
    ensures MessageOnce(Run(embed, c, es))
  {
    if es != [] {
      EveryRunMessageOnce(embed, c, es[..|es| - 1]);
      StepKeepsOnce(embed, c, Run(embed, c, es[..|es| - 1]), es[|es| - 1]);
    }
  }

  lemma FrontTaken(embed: Adapter, c: Config, s: State, e: Event)
    requires MessageOnce(s) && IsWorkerStep(e) && s.queue != [] && s.queue[0].Shutdown?
    ensures WorkerStep(embed, c, s, e).queue == s.queue || Shutdown !in WorkerStep(embed, c, s, e).queue
  {
    var t := WorkerStep(embed, c, s, e);
    assert t.queue == s.queue || t.queue == s.queue[1..];
    forall j | 0 <= j < |s.queue[1..]| ensures s.queue[1..][j] != Shutdown {
      assert !(s.queue[0].Shutdown? && s.queue[j + 1].Shutdown?);
    }
  }

  lemma SendStartsTurn(embed: Adapter, c: Config, es: seq<Event>)
    requires Run(embed, c, es).shutdownUnsent && |Run(embed, c, es).queue| < Capacity(c)
    ensures InTurn(Run(embed, c, es + [SendShutdown]), Run(embed, c, es).accepted)
  {
    var s, t := Run(embed, c, es), Run(embed, c, es + [SendShutdown]);
    EveryRunConserves(embed, c, es);
    EveryRunMessageOnce(embed, c, es);
    RunAppend(embed, c, es, SendShutdown);
    assert RepliedIds(t) == RepliedIds(s) && InProcess(t) == InProcess(s);
    AheadAppend(s.queue, Shutdown);
  }

  /** The message still in the queue at every moment of `more`. */
  ghost predicate StaysQueued(embed: Adapter, c: Config, es: seq<Event>, more: seq<Event>) {
    forall k :: 0 <= k <= |more| ==> Shutdown in Run(embed, c, es + more[..k]).queue
  }

  lemma StaysQueuedInit(embed: Adapter, c: Config, es: seq<Event>, more: seq<Event>)
    requires more != [] && StaysQueued(embed, c, es, more)
    ensures StaysQueued(embed, c, es, more[..|more| - 1])
    ensures Shutdown in Run(embed, c, es + more[..|more| - 1]).queue && Shutdown in Run(embed, c, es + more).queue
  {
    var init := more[..|more| - 1];
    assert more[..|more|] == more;
    forall k | 0 <= k <= |init| ensures Shutdown in Run(embed, c, es + init[..k]).queue {
      assert init[..k] == more[..k];
    }
  }

  lemma TurnStep(embed: Adapter, c: Config, s: State, e: Event, first: seq<RequestId>)
    requires MessageOnce(s) && InTurn(s, first) && Shutdown in s.queue && Shutdown in Step(embed, c, s, e).queue
    ensures InTurn(Step(embed, c, s, e), first)
  {
    if !IsWorkerStep(e) {
      CallerKeepsTurn(c, s, e, first);
    } else {
      if s.queue[0].Shutdown? {
        FrontTaken(embed, c, s, e);
      }
      WorkerKeepsTurn(embed, c, s, e, first);
    }
  }

  /** The shutdown message waits behind every request accepted before it and ahead of every later one: until it is taken,
      the requests answered, in process and ahead of it are, in order, those accepted when it was sent. */
  lemma {:induction false} ShutdownInTurn(embed: Adapter, c: Config, es: seq<Event>, more: seq<Event>)
    requires Run(embed, c, es).shutdownUnsent && |Run(embed, c, es).queue| < Capacity(c)
    requires StaysQueued(embed, c, es + [SendShutdown], more)
    ensures InTurn(Run(embed, c, es + [SendShutdown] + more), Run(embed, c, es).accepted)
    decreases |more|
  {
    var sent := es + [SendShutdown];
    if more == [] {
      SendStartsTurn(embed, c, es);
      assert sent + [] == sent;
    } else {
      var init, e := more[..|more| - 1], more[|more| - 1];
      StaysQueuedInit(embed, c, sent, more);
      ShutdownInTurn(embed, c, es, init);
      RunSplit(embed, c, sent, more);
      EveryRunMessageOnce(embed, c, sent + init);
      TurnStep(embed, c, Run(embed, c, sent + init), e, Run(embed, c, es).accepted);
    }
  }
}
