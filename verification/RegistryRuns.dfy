/** Runs of registry operations: which calls of a channel share a virtual session
    (crates/daemon/src/registry.rs). */
module RegistryRuns {
  import opened Basics
  import opened Wrappers
  import opened RegistryState

  datatype Op =
    | EnsureOp(key: Key, now: nat, minted: SessionHandle)
    | SweepOp(now: nat)
    | BindOp(key: Key, handle: SessionHandle, explicit: bool)
    | LeaseOp(key: Key, lease: Lease)
    | TrackCreatedOp(handle: SessionHandle, ids: seq<string>)
    | TrackReadOp(handle: SessionHandle, ids: seq<string>)
    | ResetOp

  function Apply(st: State, op: Op): State {
    match op
    case EnsureOp(k, now, minted) => Ensure(st, k, now, minted).0
    case SweepOp(now) => Sweep(st, now)
    case BindOp(k, h, explicit) => Bind(st, k, h, explicit)
    case LeaseOp(k, lease) => SetLease(st, k, lease)
    case TrackCreatedOp(h, ids) => TrackCreated(st, h, ids)
    case TrackReadOp(h, ids) => TrackRead(st, h, ids)
    case ResetOp => Reset(st)
  }

  function RunOps(ops: seq<Op>): State {
    if ops == [] then Empty() else Apply(RunOps(ops[..|ops| - 1]), ops[|ops| - 1])
  }

  /** The time of the last timed operation. */
  function Clock(ops: seq<Op>): nat {
    if ops == [] then 0
    else
      match ops[|ops| - 1]
      case EnsureOp(_, now, _) => now
      case SweepOp(now) => now
      case _ => Clock(ops[..|ops| - 1])
  }

  /** The clock never goes back, and a new session's handle is not one already stored. */
  ghost predicate Legal(ops: seq<Op>) {
    ops != [] ==>
      var before, op := ops[..|ops| - 1], ops[|ops| - 1];
      && Legal(before)
      && (op.EnsureOp? || op.SweepOp? ==> Clock(before) <= op.now && ClockFits(op.now))
      && (op.EnsureOp? ==> op.minted !in RunOps(before).sessions)
  }

  /** Starting empty, every legal run keeps bound handles and live sessions in bijection. */
  lemma {:induction false} EveryRunKeepsInv(ops: seq<Op>)
    requires Legal(ops)
    ensures Inv(RunOps(ops))
  {
    if ops == [] {
    } else {
      var st, op := RunOps(ops[..|ops| - 1]), ops[|ops| - 1];
      EveryRunKeepsInv(ops[..|ops| - 1]);
      match op {
        case EnsureOp(k, now, minted) => EnsureKeepsInv(st, k, now, minted);
        case SweepOp(now) => SweepKeepsInv(st, now);
        case BindOp(k, h, explicit) => BindKeepsInv(st, k, h, explicit);
        case LeaseOp(k, lease) => SetLeaseKeepsInv(st, k, lease);
        case TrackCreatedOp(h, ids) => TrackKeepsInv(st, h, ids);
        case TrackReadOp(h, ids) => TrackKeepsInv(st, h, ids);
        case ResetOp => ResetKeepsInv(st);
      }
    }
  }

  // ---- One channel's calls, seen alone ----

  /** When channel k asked for a session, since the last reset. */
  function Calls(ops: seq<Op>, k: Key): seq<nat> {
    if ops == [] || ops[|ops| - 1].ResetOp? then []
    else
      var op := ops[|ops| - 1];
      Calls(ops[..|ops| - 1], k) + if op.EnsureOp? && op.key == k then [op.now] else []
  }

  /** What it got. */
  function Handles(ops: seq<Op>, k: Key): seq<SessionHandle> {
    if ops == [] || ops[|ops| - 1].ResetOp? then []
    else
      var before, op := ops[..|ops| - 1], ops[|ops| - 1];
      Handles(before, k) +
      if op.EnsureOp? && op.key == k then [Ensure(RunOps(before), k, op.now, op.minted).1] else []
  }

  /** A session started at `start` and last used at `last` is still good at `now`. */
  predicate Continues(start: nat, last: nat, now: nat) {
    now < last + VIRTUAL_IDLE_TIMEOUT_MILLIS && now < start + VIRTUAL_LIFETIME_MILLIS
  }

  /** For each call, the index of the call that started its session, from the call times alone. */
  function Starts(ts: seq<nat>): (ss: seq<nat>)
    ensures |ss| == |ts| && forall i :: 0 <= i < |ss| ==> ss[i] <= i
  {
    if ts == [] then []
    else
      var n := |ts| - 1;
      var before := Starts(ts[..n]);
      before + [if n > 0 && Continues(ts[before[n - 1]], ts[n - 1], ts[n]) then before[n - 1] else n]
  }

  lemma {:induction false} StartsOfPrefix(ts: seq<nat>, i: nat)
    requires i <= |ts|
    ensures Starts(ts[..i]) == Starts(ts)[..i]
  {
    if i == |ts| {
      assert ts[..i] == ts;
    } else {
      StartsOfPrefix(ts[..|ts| - 1], i);
      assert ts[..|ts| - 1][..i] == ts[..i];
    }
  }

  lemma StartOfLast(ts: seq<nat>, n: nat)
    requires |ts| == n + 1 && n > 0
    ensures
      var before := Starts(ts[..n]);
      Starts(ts) == before + [if Continues(ts[before[n - 1]], ts[n - 1], ts[n]) then before[n - 1] else n]
  {
  }

  lemma PrefixValues(ts: seq<nat>, i: nat)
    requires i < |ts|
    ensures ts[..i + 1][..i] == ts[..i] && forall m :: 0 <= m <= i ==> ts[..i + 1][m] == ts[m]
  {
  }

  lemma StartsStep(ts: seq<nat>, i: nat)
    requires 0 < i < |ts|
    ensures
      var ss := Starts(ts);
      ss[i] == if Continues(ts[ss[i - 1]], ts[i - 1], ts[i]) then ss[i - 1] else i
  {
    var ss, before := Starts(ts), Starts(ts[..i]);
    StartsOfPrefix(ts, i);
    StartsOfPrefix(ts, i + 1);
    PrefixValues(ts, i);
    StartOfLast(ts[..i + 1], i);
    assert before[i - 1] == ss[i - 1];
    assert ss[i] == ss[..i + 1][i];
  }

  // ---- Simulation: a channel's stored session against its own call history ----

  /** The channel's session is h, as started and last used; or it is gone, and would be too old by now anyway. */
  ghost predicate Tracked(st: State, k: Key, clock: nat, h: SessionHandle, start: nat, last: nat) {
    match LiveVirtual(st, k)
    case Some(h') =>
      h' == h && st.sessions[h].startedAt == start && st.channels[k].virtualLease == Some(Lease(last + VIRTUAL_IDLE_TIMEOUT_MILLIS))
    case None => !Continues(start, last, clock)
  }

  lemma BoundIsLive(st: State, k: Key)
    requires Inv(st)
    ensures LiveVirtual(st, k) == if k in st.channels then st.channels[k].virtualSession else None
  {
    if k in st.channels && st.channels[k].virtualSession.Some? {
      assert BoundTo(st, k, st.channels[k].virtualSession.value);
    }
  }

  /** A sweep ends the channel's session exactly when its own times say so. */
  lemma SweepTracks(st: State, k: Key, clock: nat, now: nat, h: SessionHandle, start: nat, last: nat)
    requires Inv(st) && Tracked(st, k, clock, h, start, last) && clock <= now
    ensures LiveVirtual(Sweep(st, now), k) == if Continues(start, last, now) then Some(h) else None
    ensures Tracked(Sweep(st, now), k, now, h, start, last)
  {
    SweepKeepsInv(st, now);
    BoundIsLive(st, k);
    BoundIsLive(Sweep(st, now), k);
    if LiveVirtual(st, k).Some? {
      assert BoundTo(st, k, h);
      assert Expired(st, k, now) <==> !Continues(start, last, now);
    }
  }

  lemma SweepOfUnbound(st: State, k: Key, now: nat)
    requires Inv(st) && LiveVirtual(st, k) == None
    ensures LiveVirtual(Sweep(st, now), k) == None
  {
    SweepKeepsInv(st, now);
    BoundIsLive(st, k);
    BoundIsLive(Sweep(st, now), k);
  }

  /** Another channel's call changes nothing for channel k beyond the sweep it begins with. */
  lemma OtherEnsure(st: State, k: Key, k': Key, now: nat, minted: SessionHandle)
    requires Inv(st) && k != k' && minted !in st.sessions
    ensures
      var s, t := Sweep(st, now), Ensure(st, k', now, minted).0;
      && LiveVirtual(t, k) == LiveVirtual(s, k)
      && (LiveVirtual(s, k).Some? ==>
            t.channels[k] == s.channels[k] && t.sessions[LiveVirtual(s, k).value] == s.sessions[LiveVirtual(s, k).value])
  {
    var s := Sweep(st, now);
    SweepKeepsInv(st, now);
    BoundIsLive(s, k);
  }

  /** The channel's own call: it keeps its session exactly when its own times say so. */
  lemma OwnEnsure(st: State, k: Key, clock: nat, now: nat, minted: SessionHandle, h: SessionHandle, start: nat, last: nat)
    requires Inv(st) && Tracked(st, k, clock, h, start, last) && clock <= now && minted !in st.sessions
    ensures
      var (t, h') := Ensure(st, k, now, minted);
      if Continues(start, last, now) then h' == h && Tracked(t, k, now, h, start, now)
      else h' == minted && Tracked(t, k, now, minted, now, now)
  {
    SweepTracks(st, k, clock, now, h, start, last);
  }

  lemma FirstEnsure(st: State, k: Key, now: nat, minted: SessionHandle)
    requires Inv(st) && LiveVirtual(st, k) == None && minted !in st.sessions
    ensures
      var (t, h') := Ensure(st, k, now, minted);
      h' == minted && Tracked(t, k, now, minted, now, now)
  {
    SweepOfUnbound(st, k, now);
  }

  lemma UntimedOpsIgnoreVirtual(st: State, k: Key, op: Op)
    requires Inv(st) && !op.EnsureOp? && !op.SweepOp? && !op.ResetOp?
    ensures
      var t := Apply(st, op);
      && LiveVirtual(t, k) == LiveVirtual(st, k)
      && (LiveVirtual(st, k).Some? ==>
            && t.channels[k].virtualLease == st.channels[k].virtualLease
            && t.sessions[LiveVirtual(st, k).value].startedAt == st.sessions[LiveVirtual(st, k).value].startedAt)
  {
  }

  lemma ApplyKeepsSessions(st: State, op: Op)
    requires !op.ResetOp?
    ensures st.sessions.Keys <= Apply(st, op).sessions.Keys
    ensures op.EnsureOp? ==> Ensure(st, op.key, op.now, op.minted).1 in Apply(st, op).sessions
  {
  }

  ghost predicate SessionView(st: State, k: Key, clock: nat, ts: seq<nat>, hs: seq<SessionHandle>) {
    && |hs| == |ts|
    && (forall i :: 0 <= i < |hs| ==> hs[i] in st.sessions)
    && (if ts == [] then LiveVirtual(st, k) == None
        else var n := |ts| - 1; Tracked(st, k, clock, hs[n], ts[Starts(ts)[n]], ts[n]))
  }

  ghost predicate SamePartition(hs: seq<SessionHandle>, ss: seq<nat>) {
    && |hs| == |ss|
    && forall i, j :: 0 <= i < |hs| && 0 <= j < |hs| ==> (hs[i] == hs[j] <==> ss[i] == ss[j])
  }

  lemma OwnCallKeepsView(st: State, k: Key, clock: nat, ts: seq<nat>, hs: seq<SessionHandle>, now: nat, minted: SessionHandle)
    requires Inv(st) && SessionView(st, k, clock, ts, hs) && SamePartition(hs, Starts(ts))
    requires clock <= now && minted !in st.sessions
    ensures
      var (t, h) := Ensure(st, k, now, minted);
      SessionView(t, k, now, ts + [now], hs + [h]) && SamePartition(hs + [h], Starts(ts + [now]))
  {
    var (t, h) := Ensure(st, k, now, minted);
    ApplyKeepsSessions(st, EnsureOp(k, now, minted));
    assert (ts + [now])[..|ts|] == ts;
    if ts == [] {
      FirstEnsure(st, k, now, minted);
    } else {
      var n := |ts| - 1;
      OwnEnsure(st, k, clock, now, minted, hs[n], ts[Starts(ts)[n]], ts[n]);
    }
  }

  /** A sweep, on its own or at the start of another channel's call. */
  lemma SweepKeepsView(st: State, k: Key, clock: nat, ts: seq<nat>, hs: seq<SessionHandle>, now: nat)
    requires Inv(st) && SessionView(st, k, clock, ts, hs) && clock <= now
    ensures SessionView(Sweep(st, now), k, now, ts, hs)
  {
    if ts == [] {
      SweepOfUnbound(st, k, now);
    } else {
      var n := |ts| - 1;
      SweepTracks(st, k, clock, now, hs[n], ts[Starts(ts)[n]], ts[n]);
    }
  }

  lemma OtherCallKeepsView(st: State, k: Key, clock: nat, ts: seq<nat>, hs: seq<SessionHandle>, k': Key, now: nat, minted: SessionHandle)
    requires Inv(st) && SessionView(st, k, clock, ts, hs) && clock <= now && k != k' && minted !in st.sessions
    ensures SessionView(Ensure(st, k', now, minted).0, k, now, ts, hs)
  {
    SweepKeepsView(st, k, clock, ts, hs, now);
    OtherEnsure(st, k, k', now, minted);
    ApplyKeepsSessions(st, EnsureOp(k', now, minted));
  }

  lemma UntimedOpKeepsView(st: State, k: Key, clock: nat, ts: seq<nat>, hs: seq<SessionHandle>, op: Op)
    requires Inv(st) && SessionView(st, k, clock, ts, hs) && !op.EnsureOp? && !op.SweepOp? && !op.ResetOp?
    ensures SessionView(Apply(st, op), k, clock, ts, hs)
  {
    UntimedOpsIgnoreVirtual(st, k, op);
    ApplyKeepsSessions(st, op);
  }

  lemma {:induction false} RunsFollowCallTimes(ops: seq<Op>, k: Key)
    requires Legal(ops)
    ensures SessionView(RunOps(ops), k, Clock(ops), Calls(ops, k), Handles(ops, k))
    ensures SamePartition(Handles(ops, k), Starts(Calls(ops, k)))
  {
    if ops == [] {
      return;
    }
    var before, op := ops[..|ops| - 1], ops[|ops| - 1];
    var st, ts, hs := RunOps(before), Calls(before, k), Handles(before, k);
    RunsFollowCallTimes(before, k);
    EveryRunKeepsInv(before);
    if op.ResetOp? {
      return;
    }
    if op.EnsureOp? && op.key == k {
      OwnCallKeepsView(st, k, Clock(before), ts, hs, op.now, op.minted);
      return;
    }
    assert Calls(ops, k) == ts && Handles(ops, k) == hs;
    if op.EnsureOp? {
      OtherCallKeepsView(st, k, Clock(before), ts, hs, op.key, op.now, op.minted);
    } else if op.SweepOp? {
      SweepKeepsView(st, k, Clock(before), ts, hs, op.now);
    } else {
      UntimedOpKeepsView(st, k, Clock(before), ts, hs, op);
    }
  }

  // ---- Main results ----

  /** Two calls of a channel since the last reset get the same session exactly when the channel's own call
      times put them in one: whatever the other channels do, however often they sweep. */
  lemma PartitionFromOwnTimes(ops: seq<Op>, k: Key, i: nat, j: nat)
    requires Legal(ops) && i < |Calls(ops, k)| && j < |Calls(ops, k)|
    ensures |Handles(ops, k)| == |Calls(ops, k)|
    ensures Handles(ops, k)[i] == Handles(ops, k)[j] <==> Starts(Calls(ops, k))[i] == Starts(Calls(ops, k))[j]
  {
    RunsFollowCallTimes(ops, k);
  }

  /** A call keeps the previous call's session exactly when it comes within the idle timeout of that call
      and within the lifetime of the session's first call. */
  lemma CallDecision(ops: seq<Op>, k: Key, i: nat)
    requires Legal(ops) && 0 < i < |Calls(ops, k)|
    ensures |Handles(ops, k)| == |Calls(ops, k)|
    ensures
      var ts, hs := Calls(ops, k), Handles(ops, k);
      var start := ts[Starts(ts)[i - 1]];
      hs[i] == hs[i - 1] <==> ts[i] < ts[i - 1] + VIRTUAL_IDLE_TIMEOUT_MILLIS && ts[i] < start + VIRTUAL_LIFETIME_MILLIS
  {
    PartitionFromOwnTimes(ops, k, i, i - 1);
    StartsStep(Calls(ops, k), i);
  }

  /** Non-interference: two runs in which channel k calls at the same times partition its calls alike. */
  lemma NonInterference(ops: seq<Op>, ops': seq<Op>, k: Key, i: nat, j: nat)
    requires Legal(ops) && Legal(ops') && Calls(ops, k) == Calls(ops', k)
    requires i < |Calls(ops, k)| && j < |Calls(ops, k)|
    ensures |Handles(ops, k)| == |Handles(ops', k)| == |Calls(ops, k)|
    ensures Handles(ops, k)[i] == Handles(ops, k)[j] <==> Handles(ops', k)[i] == Handles(ops', k)[j]
  {
    PartitionFromOwnTimes(ops, k, i, j);
    PartitionFromOwnTimes(ops', k, i, j);
  }

  /** Between resets two channels never share a virtual session, not even one after the other. */
  lemma {:induction false} ChannelsNeverShare(ops: seq<Op>, k: Key, k': Key)
    requires Legal(ops) && k != k'
    ensures forall h :: h in Handles(ops, k) ==> h !in Handles(ops, k')
  {
    if ops == [] {
    } else {
      var before, op := ops[..|ops| - 1], ops[|ops| - 1];
      ChannelsNeverShare(before, k, k');
      RunsFollowCallTimes(before, k);
      RunsFollowCallTimes(before, k');
      EveryRunKeepsInv(before);
      if op.EnsureOp? && (op.key == k || op.key == k') {
        OldOrMinted(before, op.key, op.now, op.minted);
      }
    }
  }

  lemma OldOrMinted(ops: seq<Op>, k: Key, now: nat, minted: SessionHandle)
    requires Legal(ops) && Clock(ops) <= now && minted !in RunOps(ops).sessions
    ensures Ensure(RunOps(ops), k, now, minted).1 in Handles(ops, k) + [minted]
  {
    RunsFollowCallTimes(ops, k);
    EveryRunKeepsInv(ops);
    var ts, hs := Calls(ops, k), Handles(ops, k);
    if ts == [] {
      FirstEnsure(RunOps(ops), k, now, minted);
    } else {
      var n := |ts| - 1;
      OwnEnsure(RunOps(ops), k, Clock(ops), now, minted, hs[n], ts[Starts(ts)[n]], ts[n]);
    }
  }
}
