/** What a cancel_all does to the requests of a run, and why each request got the reply it got
    (crates/embeddings/src/worker.rs). */
module WorkerCancellation {
  import opened Wrappers
  import opened Inference
  import opened WorkerProtocol
  import Radix

  // ---- Positions of a run ----

  function CancelCount(es: seq<Event>): nat {
    if es == [] then 0 else CancelCount(es[..|es| - 1]) + if es[|es| - 1].CancelAll? then 1 else 0
  }

  /** The cancel_all calls from position k up to, not including, position p. */
  function Between(es: seq<Event>, k: nat, p: nat): int
    requires k <= |es| && p <= |es|
  {
    CancelCount(es[..p]) - CancelCount(es[..k])
  }

  /** The step in which the submitter of a request really reads the generation. */
  predicate TakesSnapshot(s: State, e: Event, id: RequestId) {
    || (e == SnapshotGeneration(id) && id in s.submitters && s.submitters[id].Checked?)
    || (e.Submit? && e.sid == id && id !in s.submitters && !s.closed)
  }

  ghost predicate SnapshotAt(embed: Adapter, c: Config, es: seq<Event>, id: RequestId, k: nat) {
    k < |es| && TakesSnapshot(Run(embed, c, es[..k]), es[k], id)
  }

  /** The step in which the generation of a request taken off the queue is compared. */
  ghost predicate ComparedAt(embed: Adapter, c: Config, es: seq<Event>, r: Request, p: nat) {
    p < |es| && es[p] == Compare && Run(embed, c, es[..p]).phase == Popped(r)
  }

  /** Positions of a run are positions of its continuations. */
  lemma PrefixOfPrefix(es: seq<Event>, e: Event, k: nat)
    requires k <= |es|
    ensures (es + [e])[..k] == es[..k] && (k < |es| ==> (es + [e])[k] == es[k])
  {
  }

  // ---- Requests carry their snapshot ----

  /** Requests with the generation that one of their snapshots in the run saw. */
  ghost function Snapshots(embed: Adapter, c: Config, es: seq<Event>): iset<(RequestId, nat)> {
    iset k: nat, id: RequestId | SnapshotAt(embed, c, es, id, k) :: (id, CancelCount(es[..k]))
  }

  ghost predicate Recorded(known: iset<(RequestId, nat)>, s: State) {
    && (forall id :: id in s.submitters && s.submitters[id].Snapshotted? ==> (id, s.submitters[id].seen) in known)
    && (forall m :: m in s.queue && m.Work? ==> (m.request.id, m.request.seen) in known)
    && (s.phase.Popped? || s.phase.Serving? ==> (s.phase.request.id, s.phase.request.seen) in known)
  }

  lemma SubmitRecords(c: Config, known: iset<(RequestId, nat)>, s: State, id: RequestId, inputs: seq<EmbedInput>)
    requires Recorded(known, s)
    requires TakesSnapshot(s, Submit(id, inputs), id) ==> (id, s.cancels) in known
    ensures Recorded(known, StepSubmit(c, s, id, inputs))
  {
    if id in s.submitters {
      return;
    }
    var s1 := StepCheckClosed(s, id);
    var s2 := StepSnapshot(s1, id);
    assert Recorded(known, s2);
    PushRecords(c, known, s2, id, inputs);
    assert Recorded(known, StepCount(StepPush(c, s2, id, inputs), id));
  }

  lemma PushRecords(c: Config, known: iset<(RequestId, nat)>, s: State, id: RequestId, inputs: seq<EmbedInput>)
    requires Recorded(known, s)
    ensures Recorded(known, StepPush(c, s, id, inputs))
  {
  }

  lemma WorkerRecords(embed: Adapter, c: Config, known: iset<(RequestId, nat)>, s: State)
    requires Recorded(known, s)
    ensures Recorded(known, StepPop(s)) && Recorded(known, StepCompare(s))
    ensures Recorded(known, StepServe(embed, c, s)) && Recorded(known, StepDrain(s))
  {
  }

  lemma CallerRecords(c: Config, known: iset<(RequestId, nat)>, s: State, e: Event)
    requires Recorded(known, s) && forall id: RequestId :: TakesSnapshot(s, e, id) ==> (id, s.cancels) in known
    ensures Recorded(known, CallerStep(c, s, e))
  {
    match e {
      case Submit(id, inputs) => SubmitRecords(c, known, s, id, inputs);
      case Push(id, inputs) => PushRecords(c, known, s, id, inputs);
      case SnapshotGeneration(id) => assert TakesSnapshot(s, e, id) || StepSnapshot(s, id) == s;
      case _ =>
    }
  }

  lemma StepRecords(embed: Adapter, c: Config, known: iset<(RequestId, nat)>, s: State, e: Event)
    requires Recorded(known, s) && forall id: RequestId :: TakesSnapshot(s, e, id) ==> (id, s.cancels) in known
    ensures Recorded(known, Step(embed, c, s, e))
  {
    if IsWorkerStep(e) {
      WorkerRecords(embed, c, known, s);
    } else {
      CallerRecords(c, known, s, e);
    }
  }

  lemma StepCountsCancels(embed: Adapter, c: Config, s: State, e: Event)
    ensures Step(embed, c, s, e).cancels == s.cancels + if e.CancelAll? then 1 else 0
  {
    if IsWorkerStep(e) {
      WorkerKeepsCallers(embed, c, s, e);
    } else if e.Submit? {
      SubmitKeepsWorker(c, s, e.sid, e.sinputs);
    }
  }

  lemma SnapshotsGrow(embed: Adapter, c: Config, es: seq<Event>, e: Event)
    ensures Snapshots(embed, c, es) <= Snapshots(embed, c, es + [e])
    ensures forall id: RequestId :: TakesSnapshot(Run(embed, c, es), e, id) ==> (id, CancelCount(es)) in Snapshots(embed, c, es + [e])
  {
    var all := es + [e];
    forall k: nat, id: RequestId | SnapshotAt(embed, c, es, id, k)
      ensures (id, CancelCount(es[..k])) in Snapshots(embed, c, all)
    {
      PrefixOfPrefix(es, e, k);
      assert SnapshotAt(embed, c, all, id, k);
    }
    forall id: RequestId | TakesSnapshot(Run(embed, c, es), e, id)
      ensures (id, CancelCount(es)) in Snapshots(embed, c, all)
    {
      PrefixOfPrefix(es, e, |es|);
      assert SnapshotAt(embed, c, all, id, |es|);
    }
  }

  /** Over every run: a request in the queue or with the worker carries the number of cancel_all calls
      before the step in which its own submitter read the generation. */
  lemma {:induction false} EveryRunRecordsSnapshots(embed: Adapter, c: Config, es: seq<Event>)
    ensures Run(embed, c, es).cancels == CancelCount(es)
    ensures Recorded(Snapshots(embed, c, es), Run(embed, c, es))
  {
    if es == [] {
    } else {
      var prefix, e := es[..|es| - 1], es[|es| - 1];
      assert es == prefix + [e];
      EveryRunRecordsSnapshots(embed, c, prefix);
      SnapshotsGrow(embed, c, prefix, e);
      StepRecords(embed, c, Snapshots(embed, c, es), Run(embed, c, prefix), e);
      StepCountsCancels(embed, c, Run(embed, c, prefix), e);
    }
  }

  // ---- A request has one snapshot ----

  /** How far a submitter has come; it never goes back. */
  function Rank(s: State, id: RequestId): nat {
    if id !in s.submitters then 0 else if s.submitters[id].Checked? then 1 else 2
  }

  lemma SubmitPasses(c: Config, s: State, id: RequestId, inputs: seq<EmbedInput>, x: RequestId)
    ensures
      var t := StepSubmit(c, s, id, inputs);
      Rank(t, x) == if x == id && id !in s.submitters then 2 else Rank(s, x)
  {
  }

  lemma SnapshotPasses(embed: Adapter, c: Config, s: State, e: Event, id: RequestId)
    ensures Rank(s, id) <= Rank(Step(embed, c, s, e), id)
    ensures TakesSnapshot(s, e, id) ==> Rank(s, id) < 2 == Rank(Step(embed, c, s, e), id)
  {
    if IsWorkerStep(e) {
      WorkerKeepsCallers(embed, c, s, e);
    } else if e.Submit? {
      SubmitPasses(c, s, e.sid, e.sinputs, id);
    }
  }

  lemma {:induction false} RankMonotone(embed: Adapter, c: Config, es: seq<Event>, k: nat, id: RequestId)
    requires k <= |es|
    ensures Rank(Run(embed, c, es[..k]), id) <= Rank(Run(embed, c, es), id)
  {
    if k == |es| {
      assert es[..k] == es;
    } else {
      var prefix := es[..|es| - 1];
      assert prefix[..k] == es[..k];
      RankMonotone(embed, c, prefix, k, id);
      SnapshotPasses(embed, c, Run(embed, c, prefix), es[|es| - 1], id);
    }
  }

  lemma SnapshotNotRepeated(embed: Adapter, c: Config, es: seq<Event>, id: RequestId, k: nat, k': nat)
    requires SnapshotAt(embed, c, es, id, k) && SnapshotAt(embed, c, es, id, k')
    ensures k' <= k
  {
    if k < k' {
      assert es[..k + 1][..k] == es[..k] && es[..k'][..k + 1] == es[..k + 1];
      SnapshotPasses(embed, c, Run(embed, c, es[..k]), es[k], id);
      RankMonotone(embed, c, es[..k'], k + 1, id);
      SnapshotPasses(embed, c, Run(embed, c, es[..k']), es[k'], id);
    }
  }

  lemma OneSnapshot(embed: Adapter, c: Config, es: seq<Event>, id: RequestId, k: nat, k': nat)
    requires SnapshotAt(embed, c, es, id, k) && SnapshotAt(embed, c, es, id, k')
    ensures k == k'
  {
    SnapshotNotRepeated(embed, c, es, id, k, k');
    SnapshotNotRepeated(embed, c, es, id, k', k);
  }

  lemma SnapshotOf(embed: Adapter, c: Config, es: seq<Event>, r: Request) returns (k: nat)
    requires (r.id, r.seen) in Snapshots(embed, c, es)
    ensures SnapshotAt(embed, c, es, r.id, k) && r.seen == CancelCount(es[..k])
  {
    var k': nat, id: RequestId :| SnapshotAt(embed, c, es, id, k') && (r.id, r.seen) == (id, CancelCount(es[..k']));
    k := k';
  }

  lemma {:induction false} CancelCountMonotone(es: seq<Event>, k: nat)
    requires k <= |es|
    ensures CancelCount(es[..k]) <= CancelCount(es)
  {
    if k == |es| {
      assert es[..k] == es;
    } else {
      assert es[..|es| - 1][..k] == es[..k];
      CancelCountMonotone(es[..|es| - 1], k);
    }
  }

  /** Between counts the cancel_all calls strictly inside, since the snapshot itself is not one. */
  lemma {:induction false} BetweenPositive(es: seq<Event>, k: nat, p: nat)
    requires k <= p <= |es|
    ensures Between(es, k, p) >= 0
    ensures Between(es, k, p) > 0 <==> exists j :: k <= j < p && es[j].CancelAll?
    decreases p
  {
    if k == p {
    } else {
      assert es[..p][..p - 1] == es[..p - 1];
      BetweenPositive(es, k, p - 1);
      if j :| k <= j < p && es[j].CancelAll? {
        assert j == p - 1 || k <= j < p - 1;
      }
    }
  }

  lemma SameResidue(a: nat, b: nat, m: nat)
    requires a <= b && m > 0
    ensures (b - a) % m == 0 <==> a % m == b % m
  {
    var q, p := a / m, b / m;
    assert a == q * m + a % m && b == p * m + b % m;
    assert b - a == (p - q) * m + (b % m - a % m) by {
      assert (p - q) * m == p * m - q * m;
    }
    var d := (b - a) / m;
    assert b - a == d * m + (b - a) % m;
    if (b - a) % m == 0 {
      assert (d - (p - q)) * m == b % m - a % m;
      if d > p - q { Radix.MulLe(1, d - (p - q), m); }
      if d < p - q { Radix.MulLe(d - (p - q), -1, m); }
    }
    if a % m == b % m {
      assert (p - q - d) * m == (b - a) % m;
      if p - q > d { Radix.MulLe(1, p - q - d, m); }
      if p - q < d { Radix.MulLe(p - q - d, -1, m); }
    }
  }

  // ---- The comparison ----

  lemma StaleByCount(es: seq<Event>, s: State, r: Request, k: nat)
    requires k <= |es| && s.cancels == CancelCount(es) && r.seen == CancelCount(es[..k])
    ensures Stale(s, r) <==> Between(es, k, |es|) % GENERATION_MODULUS != 0
  {
    assert es[..|es|] == es;
    CancelCountMonotone(es, k);
    SameResidue(r.seen, s.cancels, GENERATION_MODULUS);
  }

  lemma PoppedIsRecorded(embed: Adapter, c: Config, es: seq<Event>, r: Request)
    requires Run(embed, c, es).phase == Popped(r)
    ensures (r.id, r.seen) in Snapshots(embed, c, es) && Run(embed, c, es).cancels == CancelCount(es)
  {
    EveryRunRecordsSnapshots(embed, c, es);
  }

  /** A request taken off the queue is stale exactly when the number of cancel_all calls since its snapshot
      is not a multiple of 2^64. */
  lemma StaleIff(embed: Adapter, c: Config, es: seq<Event>, r: Request) returns (k: nat)
    requires Run(embed, c, es).phase == Popped(r)
    ensures SnapshotAt(embed, c, es, r.id, k)
    ensures Stale(Run(embed, c, es), r) <==> Between(es, k, |es|) % GENERATION_MODULUS != 0
  {
    PoppedIsRecorded(embed, c, es, r);
    k := SnapshotOf(embed, c, es, r);
    StaleByCount(es, Run(embed, c, es), r, k);
  }

  /** The comparison answers the request with Cancelled, and without an adapter call, if and only if the
      number of cancel_all calls between the request's one snapshot, at k, and the comparison is not a multiple
      of 2^64 (below 2^64 calls: if and only if there was at least one); otherwise it admits the request. */
  lemma CancelledIffCancelAllBetween(embed: Adapter, c: Config, es: seq<Event>, r: Request, k: nat)
    requires Run(embed, c, es).phase == Popped(r) && SnapshotAt(embed, c, es, r.id, k)
    ensures
      var s, t := Run(embed, c, es), Run(embed, c, es + [Compare]);
      && t.calls == s.calls
      && (if Between(es, k, |es|) % GENERATION_MODULUS != 0
          then t.replies == s.replies + [(r.id, Err(Cancelled))] && t.phase == Top
          else t.replies == s.replies && t.phase == Serving(r))
  {
    var k' := StaleIff(embed, c, es, r);
    OneSnapshot(embed, c, es, r.id, k, k');
    RunAppend(embed, c, es, Compare);
  }

  // ---- After the comparison ----

  lemma ServiceStep(embed: Adapter, c: Config, s: State, e: Event)
    requires s.phase.Serving? && !e.Serve?
    ensures
      var t := Step(embed, c, s, e);
      t.phase == s.phase && t.calls == s.calls && t.replies == s.replies
  {
    if !IsWorkerStep(e) {
      CallerKeepsWorker(c, s, e);
    }
  }

  /** The states in which the same request is still in service, with the same calls and replies so far. */
  ghost function DuringService(s: State): iset<State> {
    iset t: State | t.phase == s.phase && t.calls == s.calls && t.replies == s.replies
  }

  lemma {:induction false} ServicePersists(embed: Adapter, c: Config, es: seq<Event>, more: seq<Event>)
    requires Run(embed, c, es).phase.Serving? && Serve !in more
    ensures Run(embed, c, es + more) in DuringService(Run(embed, c, es))
    decreases |more|
  {
    if more == [] {
      assert es + more == es;
    } else {
      var init := more[..|more| - 1];
      ServicePersists(embed, c, es, init);
      RunSplit(embed, c, es, more);
      ServiceStep(embed, c, Run(embed, c, es + init), more[|more| - 1]);
    }
  }

  lemma ServeReply(embed: Adapter, c: Config, s: State, r: Request)
    requires s.phase == Serving(r) && c.maxBatch > 0
    ensures
      Step(embed, c, s, Serve).replies ==
        s.replies + [(r.id, OutcomeOf(ServeFrom(embed, s.calls, r.inputs, c.maxBatch), r.inputs))]
  {
  }

  /** Nothing that happens while a request is in service, no cancel_all in particular, reaches it: its reply
      is the outcome of its batches as of its admission. */
  lemma ServiceIgnoresCancels(embed: Adapter, c: Config, es: seq<Event>, r: Request, more: seq<Event>)
    requires Run(embed, c, es).phase == Serving(r) && Serve !in more
    ensures Run(embed, c, es + more) in DuringService(Run(embed, c, es))
    ensures c.maxBatch > 0 ==>
      var s := Run(embed, c, es);
      Run(embed, c, es + more + [Serve]).replies ==
        s.replies + [(r.id, OutcomeOf(ServeFrom(embed, s.calls, r.inputs, c.maxBatch), r.inputs))]
  {
    ServicePersists(embed, c, es, more);
    if c.maxBatch > 0 {
      RunAppend(embed, c, es + more, Serve);
      ServeReply(embed, c, Run(embed, c, es + more), r);
    }
  }

  /** A cancel_all in the middle of a service: the request was accepted and in flight, and is answered with
      its results all the same. */
  lemma CancelDuringServiceIsLost(embed: Adapter, c: Config, id: RequestId, inputs: seq<EmbedInput>)
    requires c.maxBatch > 0
    ensures
      var es := IntoService(id, inputs) + [CancelAll] + [Serve];
      && CancelCount(es) == 1
      && Run(embed, c, es).replies == [(id, OutcomeOf(ServeFrom(embed, 0, inputs, c.maxBatch), inputs))]
  {
    var into := IntoService(id, inputs);
    IntoServiceReaches(embed, c, id, inputs);
    ServiceIgnoresCancels(embed, c, into, Request(id, inputs, 0), [CancelAll]);
    CountOf(into, CancelAll);
    CountOf(into + [CancelAll], Serve);
    CountOf([Submit(id, inputs), TestClosed] + [Pop], Compare);
    CountOf([Submit(id, inputs), TestClosed], Pop);
    CountOf([Submit(id, inputs)], TestClosed);
    CountOf([], Submit(id, inputs));
    assert into == [] + [Submit(id, inputs)] + [TestClosed] + [Pop] + [Compare];
    assert [] + [Submit(id, inputs)] == [Submit(id, inputs)];
    assert [Submit(id, inputs)] + [TestClosed] == [Submit(id, inputs), TestClosed];
  }

  lemma CountOf(es: seq<Event>, e: Event)
    ensures CancelCount(es + [e]) == CancelCount(es) + if e.CancelAll? then 1 else 0
  {
    assert (es + [e])[..|es|] == es;
  }

  function StaleInQueue(id: RequestId, inputs: seq<EmbedInput>): State {
    Initial().(cancels := 1, closed := true, shutdownUnsent := true, phase := Draining,
               queue := [Work(Request(id, inputs, 0))], submitters := map[id := Accepted], accepted := [id], inFlight := 1)
  }

  lemma SubmittedThenCancelled(embed: Adapter, c: Config, id: RequestId, inputs: seq<EmbedInput>)
    ensures Run(embed, c, [Submit(id, inputs), CancelAll]) == StaleInQueue(id, inputs).(closed := false, shutdownUnsent := false, phase := Top)
  {
    SubmitOutcome(c, Initial(), id, inputs);
    assert [] + [Submit(id, inputs), CancelAll] == [Submit(id, inputs), CancelAll];
    TwoSteps(embed, c, [], Submit(id, inputs), CancelAll, Initial(),
             StaleInQueue(id, inputs).(closed := false, shutdownUnsent := false, phase := Top));
  }

  lemma StaleInQueueReached(embed: Adapter, c: Config, id: RequestId, inputs: seq<EmbedInput>)
    ensures Run(embed, c, [Submit(id, inputs), CancelAll] + [Close, TestClosed]) == StaleInQueue(id, inputs)
  {
    SubmittedThenCancelled(embed, c, id, inputs);
    TwoSteps(embed, c, [Submit(id, inputs), CancelAll], Close, TestClosed,
             StaleInQueue(id, inputs).(closed := false, shutdownUnsent := false, phase := Top), StaleInQueue(id, inputs));
  }

  /** A stale request that the drain reaches first is told Closed, not Cancelled. */
  lemma DrainIgnoresCancels(embed: Adapter, c: Config, id: RequestId, inputs: seq<EmbedInput>)
    ensures
      var t := Run(embed, c, [Submit(id, inputs), CancelAll] + [Close, TestClosed] + [Drain]);
      t.replies == [(id, Err(Closed))] && t.cancelledRequests == 0
  {
    StaleInQueueReached(embed, c, id, inputs);
    RunAppend(embed, c, [Submit(id, inputs), CancelAll] + [Close, TestClosed], Drain);
  }

  /** The other way to be told Cancelled: with no cancel_all at all, by an adapter that returns fewer results
      than it was given inputs. Inference.ServedCancelledIff says exactly when. */
  lemma ShortResultsReadAsCancelled(c: Config, id: RequestId, input: EmbedInput)
    requires c.maxBatch > 0
    ensures
      var none: Adapter := (calls: nat, inputs: seq<EmbedInput>) => Ok([]);
      var es := IntoService(id, [input]) + [Serve];
      Run(none, c, es).replies == [(id, Err(Cancelled))] && Run(none, c, es).cancels == 0
  {
    var none: Adapter := (calls: nat, inputs: seq<EmbedInput>) => Ok([]);
    var into := IntoService(id, [input]);
    IntoServiceReaches(none, c, id, [input]);
    assert ServeFrom(none, 1, [input][1..], c.maxBatch) == BatchRun([], None, 1, 0, 0);
    assert none(0, [input][..1]) == Ok([]);
    RunAppend(none, c, into, Serve);
  }

  // ---- Why each request got its reply ----

  /** The steps of a run that explain one reply: its snapshot k, its comparison, the step that sent it. */
  datatype Fate =
    | AtComparison(k: nat, p: nat)
    | AfterService(k: nat, q: nat, p: nat)
    | AtDrain(p: nat)

  ghost predicate CancelledBy(embed: Adapter, c: Config, es: seq<Event>, id: RequestId, k: nat, p: nat) {
    && k < p < |es| && SnapshotAt(embed, c, es, id, k)
    && var s := Run(embed, c, es[..p]);
    && s.phase.Popped? && s.phase.request.id == id && es[p] == Compare
    && Between(es, k, p) % GENERATION_MODULUS != 0
  }

  /** The batch outcome, of a request that passed its comparison at q. */
  ghost predicate ServedBy(embed: Adapter, c: Config, es: seq<Event>, id: RequestId, outcome: Outcome, k: nat, q: nat, p: nat) {
    && q < p < |es| && es[p] == Serve && c.maxBatch > 0
    && var s := Run(embed, c, es[..p]);
    && s.phase.Serving? && s.phase.request.id == id && (s.phase.request, k, q) in Admissions(embed, c, es)
    && outcome == OutcomeOf(ServeFrom(embed, s.calls, s.phase.request.inputs, c.maxBatch), s.phase.request.inputs)
  }

  ghost predicate DrainedBy(embed: Adapter, c: Config, es: seq<Event>, id: RequestId, p: nat) {
    && p < |es| && es[p] == Drain
    && var s := Run(embed, c, es[..p]);
    && s.phase.Draining? && s.queue != [] && s.queue[0].Work? && s.queue[0].request.id == id
  }

  ghost predicate Explains(embed: Adapter, c: Config, es: seq<Event>, id: RequestId, outcome: Outcome, f: Fate) {
    match f
    case AtComparison(k, p) => outcome == Err(Cancelled) && CancelledBy(embed, c, es, id, k, p)
    case AfterService(k, q, p) => ServedBy(embed, c, es, id, outcome, k, q, p)
    case AtDrain(p) => outcome == Err(Closed) && DrainedBy(embed, c, es, id, p)
  }

  /** The explanations a run holds for replies. */
  ghost function Explanations(embed: Adapter, c: Config, es: seq<Event>): iset<((RequestId, Outcome), Fate)> {
    iset x: ((RequestId, Outcome), Fate) | Explains(embed, c, es, x.0.0, x.0.1, x.1)
  }

  lemma CancelledStays(embed: Adapter, c: Config, es: seq<Event>, e: Event, id: RequestId, k: nat, p: nat)
    requires CancelledBy(embed, c, es, id, k, p)
    ensures CancelledBy(embed, c, es + [e], id, k, p)
  {
    PrefixOfPrefix(es, e, k);
    PrefixOfPrefix(es, e, p);
  }

  lemma ServedStays(embed: Adapter, c: Config, es: seq<Event>, e: Event, id: RequestId, outcome: Outcome, k: nat, q: nat, p: nat)
    requires ServedBy(embed, c, es, id, outcome, k, q, p)
    ensures ServedBy(embed, c, es + [e], id, outcome, k, q, p)
  {
    PrefixOfPrefix(es, e, p);
    AdmissionStays(embed, c, es, e, Run(embed, c, es[..p]).phase.request, k, q);
  }

  lemma DrainedStays(embed: Adapter, c: Config, es: seq<Event>, e: Event, id: RequestId, p: nat)
    requires DrainedBy(embed, c, es, id, p)
    ensures DrainedBy(embed, c, es + [e], id, p)
  {
    PrefixOfPrefix(es, e, p);
  }

  lemma FateStays(embed: Adapter, c: Config, es: seq<Event>, e: Event, reply: (RequestId, Outcome), f: Fate)
    requires (reply, f) in Explanations(embed, c, es)
    ensures (reply, f) in Explanations(embed, c, es + [e])
  {
    match f {
      case AtComparison(k, p) => CancelledStays(embed, c, es, e, reply.0, k, p);
      case AfterService(k, q, p) => ServedStays(embed, c, es, e, reply.0, reply.1, k, q, p);
      case AtDrain(p) => DrainedStays(embed, c, es, e, reply.0, p);
    }
  }

  lemma EntersService(embed: Adapter, c: Config, s: State, e: Event)
    requires Step(embed, c, s, e).phase.Serving?
    ensures
      var r := Step(embed, c, s, e).phase.request;
      s.phase == Serving(r) || (e == Compare && s.phase == Popped(r) && !Stale(s, r))
  {
    if !IsWorkerStep(e) {
      CallerKeepsWorker(c, s, e);
    }
  }

  /** The request took its snapshot at k and passed its comparison at q. */
  ghost predicate AdmittedAt(embed: Adapter, c: Config, es: seq<Event>, r: Request, k: nat, q: nat) {
    && k < q < |es| && SnapshotAt(embed, c, es, r.id, k) && ComparedAt(embed, c, es, r, q)
    && Between(es, k, q) % GENERATION_MODULUS == 0
  }

  /** The admissions of a run: which request, and when it took its snapshot and passed its comparison. */
  ghost function Admissions(embed: Adapter, c: Config, es: seq<Event>): iset<(Request, nat, nat)> {
    iset a: (Request, nat, nat) | AdmittedAt(embed, c, es, a.0, a.1, a.2)
  }

  lemma AdmissionStays(embed: Adapter, c: Config, es: seq<Event>, e: Event, r: Request, k: nat, q: nat)
    requires (r, k, q) in Admissions(embed, c, es)
    ensures (r, k, q) in Admissions(embed, c, es + [e])
  {
    PrefixOfPrefix(es, e, k);
    PrefixOfPrefix(es, e, q);
  }

  /** The comparison after a run is at its end. */
  lemma ComparedNext(embed: Adapter, c: Config, es: seq<Event>, r: Request)
    requires Run(embed, c, es).phase == Popped(r)
    ensures ComparedAt(embed, c, es + [Compare], r, |es|)
  {
    PrefixOfPrefix(es, Compare, |es|);
    assert es[..|es|] == es;
  }

  lemma SnapshotAndCallsStay(embed: Adapter, c: Config, es: seq<Event>, e: Event, id: RequestId, k: nat)
    requires SnapshotAt(embed, c, es, id, k)
    ensures SnapshotAt(embed, c, es + [e], id, k) && Between(es + [e], k, |es|) == Between(es, k, |es|)
  {
    PrefixOfPrefix(es, e, k);
    PrefixOfPrefix(es, e, |es|);
  }

  lemma AdmittedNow(embed: Adapter, c: Config, es: seq<Event>, r: Request) returns (k: nat)
    requires Run(embed, c, es).phase == Popped(r) && !Stale(Run(embed, c, es), r)
    ensures (r, k, |es|) in Admissions(embed, c, es + [Compare])
  {
    k := StaleIff(embed, c, es, r);
    SnapshotAndCallsStay(embed, c, es, Compare, r.id, k);
    ComparedNext(embed, c, es, r);
  }

  /** A request in service passed its comparison, at q. */
  lemma {:induction false} ServiceWasAdmitted(embed: Adapter, c: Config, es: seq<Event>) returns (k: nat, q: nat)
    requires Run(embed, c, es).phase.Serving?
    ensures (Run(embed, c, es).phase.request, k, q) in Admissions(embed, c, es)
  {
    var prefix, e := es[..|es| - 1], es[|es| - 1];
    assert es == prefix + [e];
    var r := Run(embed, c, es).phase.request;
    EntersService(embed, c, Run(embed, c, prefix), e);
    if Run(embed, c, prefix).phase.Serving? {
      k, q := ServiceWasAdmitted(embed, c, prefix);
      AdmissionStays(embed, c, prefix, e, r, k, q);
    } else {
      k := AdmittedNow(embed, c, prefix, r);
      q := |prefix|;
    }
  }

  /** Which step sends a reply, and what it says. */
  lemma ReplyingStep(embed: Adapter, c: Config, s: State, e: Event)
    ensures
      var t := Step(embed, c, s, e);
      || t.replies == s.replies
      || (e == Compare && s.phase.Popped? && Stale(s, s.phase.request)
          && t.replies == s.replies + [(s.phase.request.id, Err(Cancelled))])
      || (e == Serve && s.phase.Serving? && c.maxBatch > 0
          && t.replies == s.replies + [(s.phase.request.id,
                OutcomeOf(ServeFrom(embed, s.calls, s.phase.request.inputs, c.maxBatch), s.phase.request.inputs))])
      || (e == Drain && s.phase.Draining? && s.queue != [] && s.queue[0].Work?
          && t.replies == s.replies + [(s.queue[0].request.id, Err(Closed))])
  {
    if !IsWorkerStep(e) {
      CallerKeepsWorker(c, s, e);
    }
  }

  lemma CompareExplained(embed: Adapter, c: Config, es: seq<Event>, r: Request) returns (f: Fate)
    requires Run(embed, c, es).phase == Popped(r) && Stale(Run(embed, c, es), r)
    ensures ((r.id, Err(Cancelled)), f) in Explanations(embed, c, es + [Compare])
  {
    var k := StaleIff(embed, c, es, r);
    SnapshotAndCallsStay(embed, c, es, Compare, r.id, k);
    ComparedNext(embed, c, es, r);
    f := AtComparison(k, |es|);
  }

  lemma ServeExplained(embed: Adapter, c: Config, es: seq<Event>, r: Request) returns (f: Fate)
    requires Run(embed, c, es).phase == Serving(r) && c.maxBatch > 0
    ensures
      ((r.id, OutcomeOf(ServeFrom(embed, Run(embed, c, es).calls, r.inputs, c.maxBatch), r.inputs)), f)
        in Explanations(embed, c, es + [Serve])
  {
    var k, q := ServiceWasAdmitted(embed, c, es);
    AdmissionStays(embed, c, es, Serve, r, k, q);
    PrefixOfPrefix(es, Serve, |es|);
    assert es[..|es|] == es;
    f := AfterService(k, q, |es|);
  }

  lemma DrainExplained(embed: Adapter, c: Config, es: seq<Event>, r: Request)
    requires Run(embed, c, es).phase.Draining? && Run(embed, c, es).queue != [] && Run(embed, c, es).queue[0] == Work(r)
    ensures ((r.id, Err(Closed)), AtDrain(|es|)) in Explanations(embed, c, es + [Drain])
  {
    PrefixOfPrefix(es, Drain, |es|);
    assert es[..|es|] == es;
  }

  /** The last of a run's replies, if the last step sent it. */
  lemma NewReplyExplained(embed: Adapter, c: Config, es: seq<Event>, e: Event, i: nat) returns (f: Fate)
    requires |Run(embed, c, es).replies| <= i < |Run(embed, c, es + [e]).replies|
    ensures (Run(embed, c, es + [e]).replies[i], f) in Explanations(embed, c, es + [e])
  {
    var s := Run(embed, c, es);
    RunAppend(embed, c, es, e);
    ReplyingStep(embed, c, s, e);
    if e == Compare {
      f := CompareExplained(embed, c, es, s.phase.request);
    } else if e == Serve {
      f := ServeExplained(embed, c, es, s.phase.request);
    } else {
      DrainExplained(embed, c, es, s.queue[0].request);
      f := AtDrain(|es|);
    }
  }

  /** Before the last step the run held no fewer replies, and they are the same. */
  lemma RepliesBefore(embed: Adapter, c: Config, es: seq<Event>, e: Event)
    ensures Run(embed, c, es).replies <= Run(embed, c, es + [e]).replies
  {
    RunAppend(embed, c, es, e);
    ReplyingStep(embed, c, Run(embed, c, es), e);
  }

  /** Every reply of every run has one of three explanations: the request was found stale at its comparison;
      it passed its comparison and the reply is the outcome of its batches, whatever was cancelled since; or
      the drain reached it first, whatever was cancelled before. */
  lemma {:induction false} EveryReplyExplained(embed: Adapter, c: Config, es: seq<Event>, i: nat) returns (f: Fate)
    requires i < |Run(embed, c, es).replies|
    ensures (Run(embed, c, es).replies[i], f) in Explanations(embed, c, es)
    decreases |es|
  {
    var prefix, e := es[..|es| - 1], es[|es| - 1];
    assert es == prefix + [e];
    RepliesBefore(embed, c, prefix, e);
    if i < |Run(embed, c, prefix).replies| {
      f := EveryReplyExplained(embed, c, prefix, i);
      FateStays(embed, c, prefix, e, Run(embed, c, prefix).replies[i], f);
    } else {
      f := NewReplyExplained(embed, c, prefix, e, i);
    }
  }

  // ---- One explanation each ----

  /** The comparison of the request is behind it. */
  predicate Passed(s: State, id: RequestId) {
    id in RepliedIds(s) || ((s.phase.Serving? || s.phase.Crashed?) && s.phase.request.id == id)
  }

  /** No request is in two places. */
  lemma OnePlace(c: Config, s: State, id: RequestId)
    requires Inv(c, s)
    ensures id in RepliedIds(s) ==> id !in InProcess(s) && id !in QueuedIds(s.queue)
    ensures id in InProcess(s) ==> id !in QueuedIds(s.queue)
  {
    var a, b, q := RepliedIds(s), InProcess(s), QueuedIds(s.queue);
    assert forall i :: 0 <= i < |a| ==> s.accepted[i] == a[i];
    assert forall i :: 0 <= i < |b| ==> s.accepted[|a| + i] == b[i];
    assert forall i :: 0 <= i < |q| ==> s.accepted[|a| + |b| + i] == q[i];
  }

  /** A reply is never taken back. */
  lemma RepliedStays(embed: Adapter, c: Config, s: State, e: Event, id: RequestId)
    requires id in RepliedIds(s)
    ensures id in RepliedIds(Step(embed, c, s, e))
  {
    var t := Step(embed, c, s, e);
    var i :| 0 <= i < |RepliedIds(s)| && RepliedIds(s)[i] == id;
    ReplyingStep(embed, c, s, e);
    assert t.replies[i] == s.replies[i];
    assert RepliedIds(t)[i] == id;
  }

  lemma ServeAnswers(embed: Adapter, c: Config, s: State)
    requires s.phase.Serving? && c.maxBatch > 0
    ensures s.phase.request.id in RepliedIds(StepServe(embed, c, s))
  {
    var t := StepServe(embed, c, s);
    assert RepliedIds(t)[|s.replies|] == s.phase.request.id;
  }

  lemma PassedStays(embed: Adapter, c: Config, s: State, e: Event, id: RequestId)
    requires Passed(s, id)
    ensures Passed(Step(embed, c, s, e), id)
  {
    if id in RepliedIds(s) {
      RepliedStays(embed, c, s, e, id);
    } else if s.phase.Crashed? {
      StepAfterStop(embed, c, s, e);
    } else if e == Serve {
      if c.maxBatch > 0 {
        ServeAnswers(embed, c, s);
      }
    } else {
      ServiceStep(embed, c, s, e);
    }
  }

  lemma {:induction false} PassedOver(embed: Adapter, c: Config, es: seq<Event>, k: nat, id: RequestId)
    requires k <= |es| && Passed(Run(embed, c, es[..k]), id)
    ensures Passed(Run(embed, c, es), id)
  {
    if k == |es| {
      assert es[..k] == es;
    } else {
      var prefix := es[..|es| - 1];
      assert prefix[..k] == es[..k];
      PassedOver(embed, c, prefix, k, id);
      PassedStays(embed, c, Run(embed, c, prefix), es[|es| - 1], id);
    }
  }

  lemma {:induction false} RepliesGrow(embed: Adapter, c: Config, es: seq<Event>, k: nat)
    requires k <= |es|
    ensures Run(embed, c, es[..k]).replies <= Run(embed, c, es).replies
  {
    if k == |es| {
      assert es[..k] == es;
    } else {
      var prefix := es[..|es| - 1];
      assert prefix[..k] == es[..k];
      RepliesGrow(embed, c, prefix, k);
      ReplyingStep(embed, c, Run(embed, c, prefix), es[|es| - 1]);
    }
  }

  lemma NextState(embed: Adapter, c: Config, es: seq<Event>, p: nat)
    requires p < |es|
    ensures Run(embed, c, es[..p + 1]) == Step(embed, c, Run(embed, c, es[..p]), es[p])
  {
    assert es[..p + 1][..p] == es[..p];
  }

  lemma ComparisonNotRepeated(embed: Adapter, c: Config, es: seq<Event>, r: Request, r': Request, p: nat, p': nat)
    requires ComparedAt(embed, c, es, r, p) && ComparedAt(embed, c, es, r', p') && r.id == r'.id
    ensures p' <= p
  {
    if p < p' {
      var s, t := Run(embed, c, es[..p]), Run(embed, c, es[..p + 1]);
      NextState(embed, c, es, p);
      if Stale(s, r) {
        assert RepliedIds(t)[|s.replies|] == r.id;
      }
      assert Passed(t, r.id);
      assert es[..p'][..p + 1] == es[..p + 1];
      PassedOver(embed, c, es[..p'], p + 1, r.id);
      EveryRunConserves(embed, c, es[..p']);
      OnePlace(c, Run(embed, c, es[..p']), r.id);
    }
  }

  lemma StaleAnswers(s: State)
    requires s.phase.Popped? && Stale(s, s.phase.request)
    ensures s.phase.request.id in RepliedIds(StepCompare(s))
  {
    assert RepliedIds(StepCompare(s))[|s.replies|] == s.phase.request.id;
  }

  lemma DrainAnswers(s: State)
    requires s.phase.Draining? && s.queue != [] && s.queue[0].Work?
    ensures s.queue[0].request.id in RepliedIds(StepDrain(s)) && s.queue[0].request.id in QueuedIds(s.queue)
  {
    assert RepliedIds(StepDrain(s))[|s.replies|] == s.queue[0].request.id;
    assert QueuedIds(s.queue)[0] == s.queue[0].request.id;
  }

  lemma StaleAt(embed: Adapter, c: Config, es: seq<Event>, r: Request, k: nat, p: nat)
    requires k < p && SnapshotAt(embed, c, es, r.id, k) && p < |es| && Run(embed, c, es[..p]).phase == Popped(r)
    ensures Stale(Run(embed, c, es[..p]), r) <==> Between(es, k, p) % GENERATION_MODULUS != 0
  {
    var before := es[..p];
    assert before[..k] == es[..k] && before[..p] == before;
    var k' := StaleIff(embed, c, before, r);
    OneSnapshot(embed, c, before, r.id, k, k');
  }

  /** The step at p found the request unanswered and answered it. */
  ghost predicate AnsweredAt(embed: Adapter, c: Config, es: seq<Event>, id: RequestId, p: nat) {
    && p < |es|
    && id !in RepliedIds(Run(embed, c, es[..p])) && id in RepliedIds(Run(embed, c, es[..p + 1]))
  }

  lemma InProcessUnanswered(embed: Adapter, c: Config, es: seq<Event>, p: nat, id: RequestId)
    requires p < |es|
    requires id in InProcess(Run(embed, c, es[..p])) || id in QueuedIds(Run(embed, c, es[..p]).queue)
    requires id in RepliedIds(Step(embed, c, Run(embed, c, es[..p]), es[p]))
    ensures AnsweredAt(embed, c, es, id, p)
  {
    NextState(embed, c, es, p);
    EveryRunConserves(embed, c, es[..p]);
    OnePlace(c, Run(embed, c, es[..p]), id);
  }

  lemma CancelAnswers(embed: Adapter, c: Config, es: seq<Event>, id: RequestId, k: nat, p: nat)
    requires CancelledBy(embed, c, es, id, k, p)
    ensures AnsweredAt(embed, c, es, id, p)
  {
    var s := Run(embed, c, es[..p]);
    StaleAt(embed, c, es, s.phase.request, k, p);
    StaleAnswers(s);
    InProcessUnanswered(embed, c, es, p, id);
  }

  lemma ServiceAnswers(embed: Adapter, c: Config, es: seq<Event>, id: RequestId, outcome: Outcome, k: nat, q: nat, p: nat)
    requires ServedBy(embed, c, es, id, outcome, k, q, p)
    ensures AnsweredAt(embed, c, es, id, p)
  {
    ServeAnswers(embed, c, Run(embed, c, es[..p]));
    InProcessUnanswered(embed, c, es, p, id);
  }

  lemma DrainingAnswers(embed: Adapter, c: Config, es: seq<Event>, id: RequestId, p: nat)
    requires DrainedBy(embed, c, es, id, p)
    ensures AnsweredAt(embed, c, es, id, p)
  {
    DrainAnswers(Run(embed, c, es[..p]));
    InProcessUnanswered(embed, c, es, p, id);
  }

  lemma AnsweringStep(embed: Adapter, c: Config, es: seq<Event>, reply: (RequestId, Outcome), f: Fate)
    requires (reply, f) in Explanations(embed, c, es)
    ensures AnsweredAt(embed, c, es, reply.0, f.p)
  {
    match f {
      case AtComparison(k, p) => CancelAnswers(embed, c, es, reply.0, k, p);
      case AfterService(k, q, p) => ServiceAnswers(embed, c, es, reply.0, reply.1, k, q, p);
      case AtDrain(p) => DrainingAnswers(embed, c, es, reply.0, p);
    }
  }

  lemma RepliedOver(embed: Adapter, c: Config, es: seq<Event>, k: nat, id: RequestId)
    requires k <= |es| && id in RepliedIds(Run(embed, c, es[..k]))
    ensures id in RepliedIds(Run(embed, c, es))
  {
    var early, late := Run(embed, c, es[..k]), Run(embed, c, es);
    RepliesGrow(embed, c, es, k);
    var i :| 0 <= i < |RepliedIds(early)| && RepliedIds(early)[i] == id;
    assert RepliedIds(late)[i] == id;
  }

  lemma AnswerNotRepeated(embed: Adapter, c: Config, es: seq<Event>, id: RequestId, p: nat, p': nat)
    requires AnsweredAt(embed, c, es, id, p) && AnsweredAt(embed, c, es, id, p')
    ensures p' <= p
  {
    if p < p' {
      assert es[..p'][..p + 1] == es[..p + 1];
      RepliedOver(embed, c, es[..p'], p + 1, id);
    }
  }

  lemma SameAnswer(embed: Adapter, c: Config, es: seq<Event>, reply: (RequestId, Outcome), reply': (RequestId, Outcome), f: Fate, f': Fate)
    requires (reply, f) in Explanations(embed, c, es) && (reply', f') in Explanations(embed, c, es) && reply.0 == reply'.0
    ensures f.p == f'.p
  {
    AnsweringStep(embed, c, es, reply, f);
    AnsweringStep(embed, c, es, reply', f');
    AnswerNotRepeated(embed, c, es, reply.0, f.p, f'.p);
    AnswerNotRepeated(embed, c, es, reply.0, f'.p, f.p);
  }

  lemma SameAdmission(embed: Adapter, c: Config, es: seq<Event>, r: Request, k: nat, q: nat, k': nat, q': nat)
    requires (r, k, q) in Admissions(embed, c, es) && (r, k', q') in Admissions(embed, c, es)
    ensures k == k' && q == q'
  {
    OneSnapshot(embed, c, es, r.id, k, k');
    ComparisonNotRepeated(embed, c, es, r, r, q, q');
    ComparisonNotRepeated(embed, c, es, r, r, q', q);
  }

  lemma OneCancellation(embed: Adapter, c: Config, es: seq<Event>, id: RequestId, k: nat, k': nat, p: nat)
    requires CancelledBy(embed, c, es, id, k, p) && CancelledBy(embed, c, es, id, k', p)
    ensures k == k'
  {
    OneSnapshot(embed, c, es, id, k, k');
  }

  lemma OneService(embed: Adapter, c: Config, es: seq<Event>, id: RequestId, o: Outcome, o': Outcome, k: nat, q: nat, k': nat, q': nat, p: nat)
    requires ServedBy(embed, c, es, id, o, k, q, p) && ServedBy(embed, c, es, id, o', k', q', p)
    ensures k == k' && q == q' && o == o'
  {
    SameAdmission(embed, c, es, Run(embed, c, es[..p]).phase.request, k, q, k', q');
  }

  /** The step that answers tells the explanations apart. */
  lemma SameKind(embed: Adapter, c: Config, es: seq<Event>, reply: (RequestId, Outcome), reply': (RequestId, Outcome), f: Fate, f': Fate)
    requires (reply, f) in Explanations(embed, c, es) && (reply', f') in Explanations(embed, c, es) && f.p == f'.p
    ensures (f.AtComparison? <==> f'.AtComparison?) && (f.AfterService? <==> f'.AfterService?)
  {
  }

  /** The three explanations exclude each other: a request has one fate in a run, with one snapshot, at most
      one comparison and one reply. */
  lemma OneFate(embed: Adapter, c: Config, es: seq<Event>, reply: (RequestId, Outcome), reply': (RequestId, Outcome), f: Fate, f': Fate)
    requires (reply, f) in Explanations(embed, c, es) && (reply', f') in Explanations(embed, c, es) && reply.0 == reply'.0
    ensures f == f' && reply == reply'
  {
    SameAnswer(embed, c, es, reply, reply', f, f');
    SameKind(embed, c, es, reply, reply', f, f');
    match f {
      case AtComparison(k, p) => OneCancellation(embed, c, es, reply.0, k, f'.k, p);
      case AfterService(k, q, p) => OneService(embed, c, es, reply.0, reply.1, reply'.1, k, q, f'.k, f'.q, p);
      case AtDrain(_) =>
    }
  }

  // ---- When a cancel_all takes effect ----

  /** The comparison at p sent the request a Cancelled. */
  ghost predicate CancelledAt(embed: Adapter, c: Config, es: seq<Event>, id: RequestId, p: nat) {
    && p < |es| && es[p] == Compare
    && Run(embed, c, es[..p + 1]).replies == Run(embed, c, es[..p]).replies + [(id, Err(Cancelled))]
  }

  ghost predicate TookEffect(embed: Adapter, c: Config, es: seq<Event>, id: RequestId) {
    exists p: nat :: CancelledAt(embed, c, es, id, p)
  }

  lemma CompareReplies(s: State, id: RequestId)
    ensures StepCompare(s).replies == s.replies + [(id, Err(Cancelled))] <==>
      s.phase.Popped? && s.phase.request.id == id && Stale(s, s.phase.request)
  {
    if s.phase.Popped? && Stale(s, s.phase.request) {
      var t := StepCompare(s);
      assert t.replies[|s.replies|] == (s.phase.request.id, Err(Cancelled));
      assert (s.replies + [(id, Err(Cancelled))])[|s.replies|] == (id, Err(Cancelled));
    } else {
      assert StepCompare(s).replies == s.replies;
      assert |s.replies + [(id, Err(Cancelled))]| == |s.replies| + 1;
    }
  }

  /** Every compared request has its one snapshot before the comparison. */
  lemma ComparedHasSnapshot(embed: Adapter, c: Config, es: seq<Event>, r: Request, p: nat) returns (k: nat)
    requires p < |es| && Run(embed, c, es[..p]).phase == Popped(r)
    ensures k < p && SnapshotAt(embed, c, es, r.id, k)
  {
    k := StaleIff(embed, c, es[..p], r);
    assert es[..p][..k] == es[..k];
  }

  /** For any number of calls: a comparison cancels the request if and only if the cancel_all calls since the
      request's snapshot, at k, are not a multiple of 2^64. */
  lemma CancelledAtIff(embed: Adapter, c: Config, es: seq<Event>, r: Request, k: nat, p: nat)
    requires SnapshotAt(embed, c, es, r.id, k) && ComparedAt(embed, c, es, r, p)
    ensures CancelledAt(embed, c, es, r.id, p) <==> Between(es, k, p) % GENERATION_MODULUS != 0
    ensures k < p
  {
    var k' := ComparedHasSnapshot(embed, c, es, r, p);
    OneSnapshot(embed, c, es, r.id, k, k');
    NextState(embed, c, es, p);
    StaleAt(embed, c, es, r, k, p);
    CompareReplies(Run(embed, c, es[..p]), r.id);
  }

  lemma CancelledWasCompared(embed: Adapter, c: Config, es: seq<Event>, id: RequestId, p: nat) returns (r: Request, k: nat)
    requires CancelledAt(embed, c, es, id, p)
    ensures r.id == id && SnapshotAt(embed, c, es, id, k) && ComparedAt(embed, c, es, r, p)
  {
    NextState(embed, c, es, p);
    CompareReplies(Run(embed, c, es[..p]), id);
    r := Run(embed, c, es[..p]).phase.request;
    k := ComparedHasSnapshot(embed, c, es, r, p);
  }

  ghost predicate FoundStale(embed: Adapter, c: Config, es: seq<Event>, r: Request, k: nat, p: nat) {
    && SnapshotAt(embed, c, es, r.id, k) && ComparedAt(embed, c, es, r, p)
    && Between(es, k, p) % GENERATION_MODULUS != 0
  }

  /** For any number of calls: cancel_all takes effect on a request if and only if the request is compared,
      and the calls between its snapshot and its comparison are not a multiple of 2^64. */
  lemma TakesEffectIffStale(embed: Adapter, c: Config, es: seq<Event>, id: RequestId)
    ensures TookEffect(embed, c, es, id) <==> exists r: Request, k: nat, p: nat :: r.id == id && FoundStale(embed, c, es, r, k, p)
  {
    if TookEffect(embed, c, es, id) {
      var p: nat :| CancelledAt(embed, c, es, id, p);
      var r, k := CancelledWasCompared(embed, c, es, id, p);
      CancelledAtIff(embed, c, es, r, k, p);
      assert FoundStale(embed, c, es, r, k, p);
    }
    if r: Request, k: nat, p: nat :| r.id == id && FoundStale(embed, c, es, r, k, p) {
      CancelledAtIff(embed, c, es, r, k, p);
    }
  }

  /** The cancel_all at j comes after the snapshot of the request and before its comparison. */
  ghost predicate CancelInside(embed: Adapter, c: Config, es: seq<Event>, r: Request, k: nat, j: nat, p: nat) {
    k < j < p && SnapshotAt(embed, c, es, r.id, k) && ComparedAt(embed, c, es, r, p) && es[j] == CancelAll
  }

  ghost predicate CalledInTime(embed: Adapter, c: Config, es: seq<Event>, id: RequestId) {
    exists r: Request, k: nat, j: nat, p: nat :: r.id == id && CancelInside(embed, c, es, r, k, j, p)
  }

  lemma CallInside(embed: Adapter, c: Config, es: seq<Event>, id: RequestId, p: nat) returns (r: Request, k: nat, j: nat)
    requires CancelledAt(embed, c, es, id, p)
    ensures r.id == id && CancelInside(embed, c, es, r, k, j, p)
  {
    r, k := CancelledWasCompared(embed, c, es, id, p);
    CancelledAtIff(embed, c, es, r, k, p);
    BetweenPositive(es, k, p);
    j :| k <= j < p && es[j].CancelAll?;
  }

  lemma CallCancels(embed: Adapter, c: Config, es: seq<Event>, r: Request, k: nat, j: nat, p: nat)
    requires CancelInside(embed, c, es, r, k, j, p) && CancelCount(es) < GENERATION_MODULUS
    ensures CancelledAt(embed, c, es, r.id, p)
  {
    BetweenPositive(es, k, p);
    CancelCountMonotone(es, p);
    CancelledAtIff(embed, c, es, r, k, p);
  }

  /** Below 2^64 calls, cancel_all takes effect on a request if and only if some call comes after the
      request's snapshot and before its comparison. A request that the worker has admitted, or that the drain
      takes off the queue without a comparison, is out of its reach. */
  lemma CancelTakesEffectIff(embed: Adapter, c: Config, es: seq<Event>, id: RequestId)
    requires CancelCount(es) < GENERATION_MODULUS
    ensures TookEffect(embed, c, es, id) <==> CalledInTime(embed, c, es, id)
  {
    if TookEffect(embed, c, es, id) {
      var p: nat :| CancelledAt(embed, c, es, id, p);
      var r, k, j := CallInside(embed, c, es, id, p);
    }
    if CalledInTime(embed, c, es, id) {
      var r: Request, k: nat, j: nat, p: nat :| r.id == id && CancelInside(embed, c, es, r, k, j, p);
      CallCancels(embed, c, es, r, k, j, p);
    }
  }

  // ---- What the caller is told (crates/embeddings/src/service.rs) ----

  function ReplyTo(replies: seq<(RequestId, Outcome)>, id: RequestId): Option<Outcome> {
    if replies == [] then None
    else if replies[0].0 == id then Some(replies[0].1)
    else ReplyTo(replies[1..], id)
  }

  /** The caller awaits its reply channel; a channel dropped by the panic of the worker thread reads as Cancelled. */
  function CallerSees(s: State, id: RequestId): Option<Outcome> {
    match ReplyTo(s.replies, id)
    case Some(o) => Some(o)
    case None => if s.phase.Crashed? && s.phase.request.id == id then Some(Err(Cancelled)) else None
  }

  lemma {:induction false} ReplyToExact(replies: seq<(RequestId, Outcome)>, id: RequestId)
    ensures ReplyTo(replies, id).Some? ==> (id, ReplyTo(replies, id).value) in replies
    ensures ReplyTo(replies, id) == None ==> forall i :: 0 <= i < |replies| ==> replies[i].0 != id
  {
    if replies == [] {
    } else {
      assert replies == [replies[0]] + replies[1..];
      ReplyToExact(replies[1..], id);
    }
  }

  lemma RepliedToIff(s: State, id: RequestId)
    ensures ReplyTo(s.replies, id).Some? <==> id in RepliedIds(s)
  {
    ReplyToExact(s.replies, id);
    if ReplyTo(s.replies, id).Some? {
      var i :| 0 <= i < |s.replies| && s.replies[i] == (id, ReplyTo(s.replies, id).value);
      assert RepliedIds(s)[i] == id;
    }
  }

  /** Answers are unique, so the caller sees any reply the run holds for it. */
  lemma SeesReply(embed: Adapter, c: Config, es: seq<Event>, id: RequestId, outcome: Outcome)
    requires (id, outcome) in Run(embed, c, es).replies
    ensures CallerSees(Run(embed, c, es), id) == Some(outcome)
  {
    var replies := Run(embed, c, es).replies;
    ReplyToExact(replies, id);
    var i :| 0 <= i < |replies| && replies[i] == (id, outcome);
    assert replies[i].0 == id;
    var o := ReplyTo(replies, id).value;
    var j :| 0 <= j < |replies| && replies[j] == (id, o);
    var f := EveryReplyExplained(embed, c, es, i);
    var f' := EveryReplyExplained(embed, c, es, j);
    OneFate(embed, c, es, (id, outcome), (id, o), f, f');
  }

  /** The request was served at p, every batch succeeded, and the results were not as many as the inputs. */
  ghost predicate ServedShort(embed: Adapter, c: Config, es: seq<Event>, id: RequestId, p: nat) {
    && p < |es| && es[p] == Serve && c.maxBatch > 0
    && var s := Run(embed, c, es[..p]);
    && s.phase.Serving? && s.phase.request.id == id
    && var batches := Batches(s.phase.request.inputs, c.maxBatch);
    && AllSucceed(embed, s.calls, batches) && ResultTotal(embed, s.calls, batches) != |s.phase.request.inputs|
  }

  /** The worker panicked on the request: it was served at p with a batch size of zero. */
  ghost predicate PanickedOn(embed: Adapter, c: Config, es: seq<Event>, id: RequestId, p: nat) {
    && p < |es| && es[p] == Serve && c.maxBatch == 0
    && Run(embed, c, es[..p]).phase.Serving? && Run(embed, c, es[..p]).phase.request.id == id
  }

  lemma ShortIsTold(embed: Adapter, c: Config, es: seq<Event>, id: RequestId, p: nat)
    requires ServedShort(embed, c, es, id, p)
    ensures CallerSees(Run(embed, c, es), id) == Some(Err(Cancelled))
  {
    var s := Run(embed, c, es[..p]);
    ServedCancelledIff(embed, s.calls, s.phase.request.inputs, c.maxBatch);
    ReplyKept(embed, c, es, p, (id, Err(Cancelled)));
    SeesReply(embed, c, es, id, Err(Cancelled));
  }

  lemma CancelIsTold(embed: Adapter, c: Config, es: seq<Event>, id: RequestId, p: nat)
    requires CancelledAt(embed, c, es, id, p)
    ensures CallerSees(Run(embed, c, es), id) == Some(Err(Cancelled))
  {
    NextState(embed, c, es, p);
    ReplyKept(embed, c, es, p, (id, Err(Cancelled)));
    SeesReply(embed, c, es, id, Err(Cancelled));
  }

  lemma ReplyKept(embed: Adapter, c: Config, es: seq<Event>, p: nat, reply: (RequestId, Outcome))
    requires p < |es| && Step(embed, c, Run(embed, c, es[..p]), es[p]).replies == Run(embed, c, es[..p]).replies + [reply]
    ensures reply in Run(embed, c, es).replies
  {
    var i := |Run(embed, c, es[..p]).replies|;
    NextState(embed, c, es, p);
    RepliesGrow(embed, c, es, p + 1);
    assert Run(embed, c, es).replies[i] == reply;
  }

  lemma CrashedIsTold(embed: Adapter, c: Config, es: seq<Event>, id: RequestId)
    requires Run(embed, c, es).phase.Crashed? && Run(embed, c, es).phase.request.id == id
    ensures CallerSees(Run(embed, c, es), id) == Some(Err(Cancelled))
  {
    var s := Run(embed, c, es);
    EveryRunConserves(embed, c, es);
    OnePlace(c, s, id);
    RepliedToIff(s, id);
  }

  lemma PanicCrashes(embed: Adapter, c: Config, es: seq<Event>, id: RequestId, p: nat)
    requires PanickedOn(embed, c, es, id, p)
    ensures Run(embed, c, es[..p + 1]).phase.Crashed? && Run(embed, c, es[..p + 1]).phase.request.id == id
  {
    NextState(embed, c, es, p);
  }

  lemma PanicIsTold(embed: Adapter, c: Config, es: seq<Event>, id: RequestId, p: nat)
    requires PanickedOn(embed, c, es, id, p)
    ensures CallerSees(Run(embed, c, es), id) == Some(Err(Cancelled))
  {
    PanicCrashes(embed, c, es, id, p);
    assert es[..p + 1] + es[p + 1..] == es;
    StopIsFinal(embed, c, es[..p + 1], es[p + 1..]);
    CrashedIsTold(embed, c, es, id);
  }

  lemma EntersCrash(embed: Adapter, c: Config, s: State, e: Event)
    requires Step(embed, c, s, e).phase.Crashed?
    ensures
      var r := Step(embed, c, s, e).phase.request;
      s.phase == Crashed(r) || (e == Serve && s.phase == Serving(r) && c.maxBatch == 0)
  {
    if !IsWorkerStep(e) {
      CallerKeepsWorker(c, s, e);
    }
  }

  lemma {:induction false} CrashWasService(embed: Adapter, c: Config, es: seq<Event>) returns (p: nat)
    requires Run(embed, c, es).phase.Crashed?
    ensures PanickedOn(embed, c, es, Run(embed, c, es).phase.request.id, p)
  {
    var prefix, e := es[..|es| - 1], es[|es| - 1];
    assert es == prefix + [e];
    EntersCrash(embed, c, Run(embed, c, prefix), e);
    if Run(embed, c, prefix).phase.Crashed? {
      p := CrashWasService(embed, c, prefix);
      PrefixOfPrefix(prefix, e, p);
    } else {
      p := |prefix|;
    }
  }

  ghost predicate GotShort(embed: Adapter, c: Config, es: seq<Event>, id: RequestId) {
    exists p: nat :: ServedShort(embed, c, es, id, p)
  }

  ghost predicate GotPanic(embed: Adapter, c: Config, es: seq<Event>, id: RequestId) {
    exists p: nat :: PanickedOn(embed, c, es, id, p)
  }

  lemma CancelledReplyWhy(embed: Adapter, c: Config, es: seq<Event>, id: RequestId, f: Fate)
    requires ((id, Err(Cancelled)), f) in Explanations(embed, c, es)
    ensures TookEffect(embed, c, es, id) || GotShort(embed, c, es, id)
  {
    var s := Run(embed, c, es[..f.p]);
    if f.AtComparison? {
      var r := s.phase.request;
      assert ComparedAt(embed, c, es, r, f.p);
      CancelledAtIff(embed, c, es, r, f.k, f.p);
    } else {
      ServedCancelledIff(embed, s.calls, s.phase.request.inputs, c.maxBatch);
      assert ServedShort(embed, c, es, id, f.p);
    }
  }

  lemma ToldWhy(embed: Adapter, c: Config, es: seq<Event>, id: RequestId)
    requires CallerSees(Run(embed, c, es), id) == Some(Err(Cancelled))
    ensures TookEffect(embed, c, es, id) || GotShort(embed, c, es, id) || GotPanic(embed, c, es, id)
  {
    var s := Run(embed, c, es);
    ReplyToExact(s.replies, id);
    if ReplyTo(s.replies, id).Some? {
      var i :| 0 <= i < |s.replies| && s.replies[i] == (id, Err(Cancelled));
      var f := EveryReplyExplained(embed, c, es, i);
      CancelledReplyWhy(embed, c, es, id, f);
    } else {
      var p := CrashWasService(embed, c, es);
    }
  }

  /** Over every run, a caller is told Cancelled for exactly three reasons: a cancel_all took effect; every batch
      of its request succeeded but the results were not as many as the inputs; or the worker panicked on it. */
  lemma ToldCancelledIff(embed: Adapter, c: Config, es: seq<Event>, id: RequestId)
    ensures CallerSees(Run(embed, c, es), id) == Some(Err(Cancelled)) <==>
      TookEffect(embed, c, es, id) || GotShort(embed, c, es, id) || GotPanic(embed, c, es, id)
  {
    if CallerSees(Run(embed, c, es), id) == Some(Err(Cancelled)) {
      ToldWhy(embed, c, es, id);
    }
    if TookEffect(embed, c, es, id) {
      var p: nat :| CancelledAt(embed, c, es, id, p);
      CancelIsTold(embed, c, es, id, p);
    }
    if GotShort(embed, c, es, id) {
      var p: nat :| ServedShort(embed, c, es, id, p);
      ShortIsTold(embed, c, es, id, p);
    }
    if GotPanic(embed, c, es, id) {
      var p: nat :| PanickedOn(embed, c, es, id, p);
      PanicIsTold(embed, c, es, id, p);
    }
  }
}
