/** What a registry holds after any run, read off the run itself: which session a channel is routed to, and
    what a virtual session has on record (crates/daemon/src/registry.rs). */
module RegistryHistory {
  import opened Basics
  import opened Wrappers
  import opened RegistryState
  import opened RegistryRuns

  // ---- Routes ----

  /** Some call has named the channel. */
  predicate Named(ops: seq<Op>, k: Key) {
    exists i :: 0 <= i < |ops| && (ops[i].EnsureOp? || ops[i].BindOp?) && ops[i].key == k
  }

  /** The handle of the channel's last bind since the last reset. */
  function RouteOf(ops: seq<Op>, k: Key): Option<SessionHandle> {
    if ops == [] then None
    else
      match ops[|ops| - 1]
      case BindOp(k', h, _) => if k' == k then Some(h) else RouteOf(ops[..|ops| - 1], k)
      case ResetOp => None
      case _ => RouteOf(ops[..|ops| - 1], k)
  }

  /** The last lease given to the channel since its last bind and the last reset, if it was known by then. */
  function LeaseOf(ops: seq<Op>, k: Key): Option<Lease> {
    if ops == [] then None
    else
      var before := ops[..|ops| - 1];
      match ops[|ops| - 1]
      case BindOp(k', _, _) => if k' == k then None else LeaseOf(before, k)
      case LeaseOp(k', lease) => if k' == k && Named(before, k) then Some(lease) else LeaseOf(before, k)
      case ResetOp => None
      case _ => LeaseOf(before, k)
  }

  /** The flag of the channel's last bind, resets notwithstanding. */
  function ExplicitOf(ops: seq<Op>, k: Key): bool {
    if ops == [] then false
    else
      match ops[|ops| - 1]
      case BindOp(k', _, explicit) => if k' == k then explicit else ExplicitOf(ops[..|ops| - 1], k)
      case _ => ExplicitOf(ops[..|ops| - 1], k)
  }

  lemma NamedSnoc(before: seq<Op>, op: Op, k: Key)
    ensures Named(before + [op], k) <==> Named(before, k) || ((op.EnsureOp? || op.BindOp?) && op.key == k)
  {
    var ops := before + [op];
    if Named(before, k) {
      var i :| 0 <= i < |before| && (before[i].EnsureOp? || before[i].BindOp?) && before[i].key == k;
      assert ops[i] == before[i];
    }
    if (op.EnsureOp? || op.BindOp?) && op.key == k {
      assert ops[|before|] == op;
    }
  }

  /** An Ensure changes no traced route; it registers its channel. */
  lemma EnsureKeepsRoutes(st: State, k': Key, now: nat, minted: SessionHandle, k: Key)
    ensures
      var t := Ensure(st, k', now, minted).0;
      && (k in t.channels <==> k in st.channels || k == k')
      && (k in st.channels ==>
            && t.channels[k].frontendId == st.channels[k].frontendId && t.channels[k].channelId == st.channels[k].channelId
            && t.channels[k].session == st.channels[k].session && t.channels[k].lease == st.channels[k].lease
            && t.channels[k].explicit == st.channels[k].explicit)
      && (k in t.channels && k !in st.channels ==>
            && t.channels[k].frontendId == k.0 && t.channels[k].channelId == k.1
            && t.channels[k].session == None && t.channels[k].lease == None && !t.channels[k].explicit)
  {
  }

  /** What the run says of a binding. */
  ghost predicate RoutedBy(b: ChannelBinding, ops: seq<Op>, k: Key) {
    && b.frontendId == k.0 && b.channelId == k.1
    && b.session == RouteOf(ops, k) && b.lease == LeaseOf(ops, k) && b.explicit == ExplicitOf(ops, k)
  }

  lemma {:induction false} UnnamedHasNothing(ops: seq<Op>, k: Key)
    requires !Named(ops, k)
    ensures RouteOf(ops, k) == None && LeaseOf(ops, k) == None && !ExplicitOf(ops, k)
  {
    if ops == [] {
    } else {
      assert ops == ops[..|ops| - 1] + [ops[|ops| - 1]];
      NamedSnoc(ops[..|ops| - 1], ops[|ops| - 1], k);
      UnnamedHasNothing(ops[..|ops| - 1], k);
    }
  }

  /** After any run the registered channels are those some call has named, and each is routed to the session of its
      last bind since the last reset, whatever happened to virtual sessions in between. */
  lemma {:induction false} RoutesAreHistory(ops: seq<Op>, k: Key)
    ensures k in RunOps(ops).channels <==> Named(ops, k)
    ensures k in RunOps(ops).channels ==> RoutedBy(RunOps(ops).channels[k], ops, k)
  {
    if ops == [] {
      return;
    }
    var before, op := ops[..|ops| - 1], ops[|ops| - 1];
    assert ops == before + [op];
    RoutesAreHistory(before, k);
    NamedSnoc(before, op, k);
    if !Named(before, k) {
      UnnamedHasNothing(before, k);
    }
    match op {
      case EnsureOp(k', now, minted) =>
        EnsureKeepsRoutes(RunOps(before), k', now, minted, k);
        return;
      case SweepOp(_) => return;
      case BindOp(_, _, _) => return;
      case LeaseOp(_, _) => return;
      case TrackCreatedOp(_, _) => return;
      case TrackReadOp(_, _) => return;
      case ResetOp => return;
    }
  }

  // ---- Records of virtual sessions ----

  /** The last call that offered h as a new handle: its channel and time. */
  function OfferOf(ops: seq<Op>, h: SessionHandle): Option<(Key, nat)> {
    if ops == [] then None
    else
      match ops[|ops| - 1]
      case EnsureOp(k, now, minted) => if minted == h then Some((k, now)) else OfferOf(ops[..|ops| - 1], h)
      case _ => OfferOf(ops[..|ops| - 1], h)
  }

  /** The ids reported as created under h since it was offered, repeats included. */
  function CreatedIds(ops: seq<Op>, h: SessionHandle): seq<string> {
    if ops == [] then []
    else
      var before := CreatedIds(ops[..|ops| - 1], h);
      match ops[|ops| - 1]
      case EnsureOp(_, _, minted) => if minted == h then [] else before
      case TrackCreatedOp(h', ids) => if h' == h then before + ids else before
      case _ => before
  }

  /** The ids reported as read. */
  function ReadIds(ops: seq<Op>, h: SessionHandle): seq<string> {
    if ops == [] then []
    else
      var before := ReadIds(ops[..|ops| - 1], h);
      match ops[|ops| - 1]
      case EnsureOp(_, _, minted) => if minted == h then [] else before
      case TrackReadOp(h', ids) => if h' == h then before + ids else before
      case _ => before
  }

  /** xs without repeats, in order of first appearance. */
  ghost predicate FirstAppearances(xs: seq<string>, firsts: seq<string>) {
    && Distinct(firsts) && (forall x :: x in firsts <==> x in xs)
    && forall a, b, n :: 0 <= a < b < |firsts| && 0 <= n < |xs| && xs[n] == firsts[b] ==> firsts[a] in xs[..n]
  }

  lemma {:induction false} AppendNewSplit(have: seq<string>, xs: seq<string>, ys: seq<string>)
    ensures AppendNew(have, xs + ys) == AppendNew(AppendNew(have, xs), ys)
    decreases |xs|
  {
    if xs == [] {
      assert xs + ys == ys;
    } else {
      assert (xs + ys)[1..] == xs[1..] + ys;
      AppendNewSplit(if xs[0] in have then have else have + [xs[0]], xs[1..], ys);
    }
  }

  lemma FirstAppearancesSnoc(xs: seq<string>, firsts: seq<string>, x: string)
    requires FirstAppearances(xs, firsts)
    ensures FirstAppearances(xs + [x], if x in firsts then firsts else firsts + [x])
  {
    var all, out := xs + [x], if x in firsts then firsts else firsts + [x];
    forall a, b, n | 0 <= a < b < |out| && 0 <= n < |all| && all[n] == out[b] ensures out[a] in all[..n] {
      if n < |xs| {
        assert all[..n] == xs[..n] && xs[n] in firsts;
        assert b < |firsts|;
      } else {
        assert all[..n] == xs;
      }
    }
  }

  lemma {:induction false} AppendNewFirsts(xs: seq<string>)
    ensures FirstAppearances(xs, AppendNew([], xs))
  {
    if xs == [] {
    } else {
      var init, x := xs[..|xs| - 1], xs[|xs| - 1];
      assert xs == init + [x];
      AppendNewFirsts(init);
      AppendNewSplit([], init, [x]);
      FirstAppearancesSnoc(init, AppendNew([], init), x);
    }
  }

  /** Some call or sweep of the run was made at this time. */
  predicate TimeOf(ops: seq<Op>, t: nat) {
    exists i :: 0 <= i < |ops| && (ops[i].EnsureOp? || ops[i].SweepOp?) && ops[i].now == t
  }

  lemma TimeSnoc(before: seq<Op>, op: Op, t: nat)
    ensures TimeOf(before, t) ==> TimeOf(before + [op], t)
    ensures (op.EnsureOp? || op.SweepOp?) && op.now == t ==> TimeOf(before + [op], t)
  {
    var ops := before + [op];
    if TimeOf(before, t) {
      var i :| 0 <= i < |before| && (before[i].EnsureOp? || before[i].SweepOp?) && before[i].now == t;
      assert ops[i] == before[i];
    }
    assert ops[|before|] == op;
  }

  /** The record is still as it was opened, or was closed as abandoned by one of the run's sweeps. */
  predicate StatusFits(s: Session, ops: seq<Op>) {
    || (s.status == Active && s.outcome == None && s.endedAt == None)
    || (s.status == Abandoned && s.outcome == Some(TaskAbandoned) && s.endedAt.Some? && TimeOf(ops, s.endedAt.value))
  }

  /** What the run says of the record of h. */
  ghost predicate RecordedBy(s: Session, ops: seq<Op>, h: SessionHandle) {
    && s.handle == h && s.isVirtual
    && OfferOf(ops, h).Some? && s.channelId == OfferOf(ops, h).value.0.1 && s.startedAt == OfferOf(ops, h).value.1
    && s.memoriesCreated == AppendNew([], CreatedIds(ops, h)) && s.memoriesRead == AppendNew([], ReadIds(ops, h))
    && StatusFits(s, ops)
  }

  /** A sweep in the last step ends a session or leaves its record alone. */
  lemma SweptRecord(s: Session, before: seq<Op>, op: Op, h: SessionHandle, ended: bool)
    requires RecordedBy(s, before, h) && (op.SweepOp? || (op.EnsureOp? && op.minted != h))
    ensures RecordedBy(if ended then Abandon(s, op.now) else s, before + [op], h)
  {
    assert (before + [op])[..|before|] == before;
    TimeSnoc(before, op, op.now);
    if s.endedAt.Some? {
      TimeSnoc(before, op, s.endedAt.value);
    }
  }

  lemma UntouchedRecord(s: Session, before: seq<Op>, op: Op, h: SessionHandle)
    requires RecordedBy(s, before, h) && (op.BindOp? || op.LeaseOp? || ((op.TrackCreatedOp? || op.TrackReadOp?) && op.handle != h))
    ensures RecordedBy(s, before + [op], h)
  {
    assert (before + [op])[..|before|] == before;
    if s.endedAt.Some? {
      TimeSnoc(before, op, s.endedAt.value);
    }
  }

  lemma TrackedRecord(s: Session, before: seq<Op>, h: SessionHandle, ids: seq<string>)
    requires RecordedBy(s, before, h)
    ensures RecordedBy(s.(memoriesCreated := AppendNew(s.memoriesCreated, ids)), before + [TrackCreatedOp(h, ids)], h)
    ensures RecordedBy(s.(memoriesRead := AppendNew(s.memoriesRead, ids)), before + [TrackReadOp(h, ids)], h)
  {
    assert (before + [TrackCreatedOp(h, ids)])[..|before|] == before && (before + [TrackReadOp(h, ids)])[..|before|] == before;
    AppendNewSplit([], CreatedIds(before, h), ids);
    AppendNewSplit([], ReadIds(before, h), ids);
    if s.endedAt.Some? {
      TimeSnoc(before, TrackCreatedOp(h, ids), s.endedAt.value);
      TimeSnoc(before, TrackReadOp(h, ids), s.endedAt.value);
    }
  }

  lemma NewRecord(before: seq<Op>, k: Key, now: nat, minted: SessionHandle)
    ensures RecordedBy(Session(minted, k.1, Active, None, [], [], now, None, true), before + [EnsureOp(k, now, minted)], minted)
  {
    assert (before + [EnsureOp(k, now, minted)])[..|before|] == before;
  }

  /** What an Ensure leaves of the records: those of the sweep, and a new one under the minted handle at most. */
  lemma EnsureRecords(st: State, k: Key, now: nat, minted: SessionHandle, h: SessionHandle)
    requires minted !in st.sessions && h in Ensure(st, k, now, minted).0.sessions
    ensures
      var t := Ensure(st, k, now, minted).0;
      if h == minted then t.sessions[h] == Session(minted, k.1, Active, None, [], [], now, None, true)
      else h in st.sessions && (t.sessions[h] == st.sessions[h] || t.sessions[h] == Abandon(st.sessions[h], now))
  {
  }

  lemma {:induction false} EveryRecord(ops: seq<Op>, h: SessionHandle)
    requires Legal(ops) && h in RunOps(ops).sessions
    ensures RecordedBy(RunOps(ops).sessions[h], ops, h)
  {
    var before, op := ops[..|ops| - 1], ops[|ops| - 1];
    var st := RunOps(before);
    assert ops == before + [op];
    if h in st.sessions {
      EveryRecord(before, h);
    }
    match op {
      case EnsureOp(k, now, minted) =>
        EnsureRecords(st, k, now, minted, h);
        if h == minted {
          NewRecord(before, k, now, minted);
        } else {
          SweptRecord(st.sessions[h], before, op, h, false);
          SweptRecord(st.sessions[h], before, op, h, true);
        }
      case SweepOp(now) =>
        SweptRecord(st.sessions[h], before, op, h, false);
        SweptRecord(st.sessions[h], before, op, h, true);
      case TrackCreatedOp(h', ids) =>
        if h' == h { TrackedRecord(st.sessions[h], before, h, ids); } else { UntouchedRecord(st.sessions[h], before, op, h); }
      case TrackReadOp(h', ids) =>
        if h' == h { TrackedRecord(st.sessions[h], before, h, ids); } else { UntouchedRecord(st.sessions[h], before, op, h); }
      case BindOp(_, _, _) => UntouchedRecord(st.sessions[h], before, op, h);
      case LeaseOp(_, _) => UntouchedRecord(st.sessions[h], before, op, h);
      case ResetOp =>
    }
  }

  /** Over every legal run, whatever virtual session is stored: it belongs to the channel that first asked for it and
      started then; it holds the ids reported for it as created and as read, each once, in order of their first
      report; and it is active and unfinished, or abandoned by a sweep of the run at that sweep's time. */
  lemma RecordsAreHistory(ops: seq<Op>, h: SessionHandle)
    requires Legal(ops) && h in RunOps(ops).sessions
    ensures
      var s := RunOps(ops).sessions[h];
      && s.handle == h && s.isVirtual && StatusFits(s, ops)
      && OfferOf(ops, h).Some? && s.channelId == OfferOf(ops, h).value.0.1 && s.startedAt == OfferOf(ops, h).value.1
      && FirstAppearances(CreatedIds(ops, h), s.memoriesCreated) && FirstAppearances(ReadIds(ops, h), s.memoriesRead)
  {
    EveryRecord(ops, h);
    AppendNewFirsts(CreatedIds(ops, h));
    AppendNewFirsts(ReadIds(ops, h));
  }
}
