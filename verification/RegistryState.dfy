/** Channel bindings and virtual sessions as values, and what each registry operation does to them
    (crates/daemon/src/registry.rs). */
module RegistryState {
  import opened Basics
  import opened Wrappers

  const VIRTUAL_IDLE_TIMEOUT_MILLIS: nat := 120_000
  const VIRTUAL_LIFETIME_MILLIS: nat := 1_800_000
  const U64_MAX: nat := 0xFFFF_FFFF_FFFF_FFFF

  datatype Lease = Lease(expiresAt: nat)

  datatype SessionStatus = Active | Ended | Abandoned {
    predicate IsTerminal() {
      Ended? || Abandoned?
    }
  }

  datatype TaskOutcome = Success | Partial | Failure | TaskAbandoned

  /** The session fields this component reads or writes; the rest stay at their defaults. */
  datatype Session = Session(
    handle: SessionHandle,
    channelId: ChannelId,
    status: SessionStatus,
    outcome: Option<TaskOutcome>,
    memoriesRead: seq<string>,
    memoriesCreated: seq<string>,
    startedAt: nat,
    endedAt: Option<nat>,
    isVirtual: bool)
  {
    predicate Live() {
      isVirtual && !status.IsTerminal()
    }
  }

  datatype ChannelBinding = ChannelBinding(
    frontendId: FrontendId,
    channelId: ChannelId,
    session: Option<SessionHandle>,
    virtualSession: Option<SessionHandle>,
    virtualLease: Option<Lease>,
    lease: Option<Lease>,
    explicit: bool)

  datatype State = State(channels: map<Key, ChannelBinding>, sessions: map<SessionHandle, Session>)

  /** The clock leaves room for the idle timeout in a u64. */
  predicate ClockFits(now: nat) {
    now + VIRTUAL_IDLE_TIMEOUT_MILLIS <= U64_MAX
  }

  function SaturatingSub(a: nat, b: nat): nat {
    if a < b then 0 else a - b
  }

  // ---- The invariant ----

  predicate BoundTo(st: State, k: Key, h: SessionHandle) {
    k in st.channels && st.channels[k].virtualSession == Some(h)
  }

  /** Bound virtual handles and live stored sessions are in bijection, and every bound one has a lease. */
  ghost predicate Inv(st: State) {
    && (forall k :: k in st.channels ==> k == (st.channels[k].frontendId, st.channels[k].channelId))
    && (forall h :: h in st.sessions ==> st.sessions[h].handle == h && st.sessions[h].isVirtual)
    && (forall k, h :: BoundTo(st, k, h) ==> h in st.sessions && st.sessions[h].Live() && st.channels[k].virtualLease.Some?)
    && (forall k, k', h :: BoundTo(st, k, h) && BoundTo(st, k', h) ==> k == k')
    && (forall h :: h in st.sessions && st.sessions[h].Live() ==> exists k :: BoundTo(st, k, h))
  }

  function Empty(): State {
    State(map[], map[])
  }

  // ---- Expiry ----

  predicate Expired(st: State, k: Key, now: nat) {
    && k in st.channels && st.channels[k].virtualSession.Some?
    && var h := st.channels[k].virtualSession.value;
    && h in st.sessions && st.sessions[h].Live()
    && ((match st.channels[k].virtualLease case Some(l) => now >= l.expiresAt case None => true)
        || SaturatingSub(now, st.sessions[h].startedAt) >= VIRTUAL_LIFETIME_MILLIS)
  }

  /** A binding has expired if its session is stored, virtual and active, and the binding has no lease, or its lease has
      run out, or half an hour has passed since the session started. */
  lemma ExpiredIff(st: State, k: Key, now: nat)
    ensures Expired(st, k, now) <==>
      exists h :: BoundTo(st, k, h) && h in st.sessions && st.sessions[h].isVirtual && st.sessions[h].status == Active
        && (|| st.channels[k].virtualLease == None || st.channels[k].virtualLease.value.expiresAt <= now
            || st.sessions[h].startedAt + 30 * 60 * 1000 <= now)
  {
    if k in st.channels && st.channels[k].virtualSession.Some? {
      assert BoundTo(st, k, st.channels[k].virtualSession.value);
    }
  }

  function Abandon(s: Session, now: nat): Session {
    s.(status := Abandoned, outcome := Some(TaskAbandoned), endedAt := Some(now))
  }

  function ExpiredHandles(st: State, keys: set<Key>, now: nat): set<SessionHandle> {
    set k | k in keys && Expired(st, k, now) :: st.channels[k].virtualSession.value
  }

  /** The channels when those in `cleared` have lost their virtual binding. */
  function WithoutVirtual(channels: map<Key, ChannelBinding>, cleared: set<Key>): map<Key, ChannelBinding> {
    map k | k in channels :: if k in cleared then channels[k].(virtualSession := None, virtualLease := None) else channels[k]
  }

  function SweptSessions(sessions: map<SessionHandle, Session>, gone: set<SessionHandle>, now: nat): map<SessionHandle, Session> {
    map h | h in sessions :: if h in gone then Abandon(sessions[h], now) else sessions[h]
  }

  function ExpiredKeys(st: State, now: nat): set<Key> {
    set k | k in st.channels && Expired(st, k, now)
  }

  /** Every channel decided on the state before the sweep. */
  function Sweep(st: State, now: nat): State {
    SweptTo(st, st.channels.Keys, ExpiredKeys(st, now), now)
  }

  /** The state after visiting `done`, when those in `cleared` lost their binding. */
  function SweptTo(st: State, done: set<Key>, cleared: set<Key>, now: nat): State {
    State(WithoutVirtual(st.channels, cleared), SweptSessions(st.sessions, ExpiredHandles(st, done, now), now))
  }

  /** Of the channels in `done` that expire, `cleared` holds one per session. */
  ghost predicate OnePerSession(st: State, done: set<Key>, cleared: set<Key>, now: nat) {
    && (forall k :: k in cleared ==> k in done && Expired(st, k, now))
    && (forall k, k' :: k in cleared && k' in cleared && Clash(st, k, k', now) ==> k == k')
    && (forall k :: k in done && Expired(st, k, now) ==> exists k' :: k' in cleared && Clash(st, k, k', now))
  }

  /** Visiting one channel. */
  function SweepKey(s: State, k: Key, now: nat): State {
    if Expired(s, k, now) then
      var h := s.channels[k].virtualSession.value;
      State(s.channels[k := s.channels[k].(virtualSession := None, virtualLease := None)],
            s.sessions[h := Abandon(s.sessions[h], now)])
    else s
  }

  /** No two channels that expire are bound to one session. */
  ghost predicate NoClash(st: State, now: nat) {
    forall k, k' :: Clash(st, k, k', now) ==> k == k'
  }

  predicate Clash(st: State, k: Key, k': Key, now: nat) {
    Expired(st, k, now) && Expired(st, k', now) && st.channels[k].virtualSession == st.channels[k'].virtualSession
  }

  /** What a sweep may leave: every session that had expired ended, and one channel of each cleared. */
  ghost function SweepOutcomes(st: State, now: nat): iset<State> {
    iset cleared | OnePerSession(st, st.channels.Keys, cleared, now) :: SweptTo(st, st.channels.Keys, cleared, now)
  }

  lemma InvNoClash(st: State, now: nat)
    requires Inv(st)
    ensures NoClash(st, now)
  {
    forall k, k' | Clash(st, k, k', now) ensures k == k' {
      assert BoundTo(st, k, st.channels[k].virtualSession.value) && BoundTo(st, k', st.channels[k].virtualSession.value);
    }
  }

  /** A channel not yet visited is as it was; its turn finds it expired exactly when it was before the sweep and
      no earlier turn ended the same session. */
  lemma UnvisitedChannel(st: State, done: set<Key>, cleared: set<Key>, k: Key, now: nat)
    requires OnePerSession(st, done, cleared, now) && k in st.channels && k !in done
    ensures
      var s := SweptTo(st, done, cleared, now);
      && s.channels[k] == st.channels[k]
      && (Expired(s, k, now) <==>
            Expired(st, k, now) && st.channels[k].virtualSession.value !in ExpiredHandles(st, done, now))
  {
  }

  /** Each visit adds the session of its channel to those expired, if the channel expires, and no other. */
  lemma HandlesGrow(st: State, done: set<Key>, k: Key, now: nat)
    ensures
      ExpiredHandles(st, done + {k}, now)
        == ExpiredHandles(st, done, now) + (if Expired(st, k, now) then {st.channels[k].virtualSession.value} else {})
  {
    var gone, gone' := ExpiredHandles(st, done, now), ExpiredHandles(st, done + {k}, now);
    if Expired(st, k, now) {
      assert gone' == gone + {st.channels[k].virtualSession.value};
    } else {
      assert gone' == gone;
    }
  }

  /** The first channel of a session to be found expired is the one that loses its binding. */
  lemma FirstIsCleared(st: State, done: set<Key>, cleared: set<Key>, k: Key, now: nat)
    requires OnePerSession(st, done, cleared, now) && k in st.channels && k !in done
    ensures OnePerSession(st, done + {k}, if Expired(SweptTo(st, done, cleared, now), k, now) then cleared + {k} else cleared, now)
  {
    UnvisitedChannel(st, done, cleared, k, now);
    var gone := ExpiredHandles(st, done, now);
    if Expired(st, k, now) {
      var h := st.channels[k].virtualSession.value;
      if h in gone {
        var k' :| k' in done && Expired(st, k', now) && st.channels[k'].virtualSession.value == h;
        var first :| first in cleared && Clash(st, k', first, now);
        assert Clash(st, k, first, now);
      } else {
        assert Clash(st, k, k, now);
      }
    }
  }

  /** Visiting the channels one after another, in any order: exactly the sessions expired before the sweep end,
      and of the channels bound to one of them exactly one is cleared. */
  lemma SweepStep(st: State, done: set<Key>, cleared: set<Key>, k: Key, now: nat)
    requires OnePerSession(st, done, cleared, now) && k in st.channels && k !in done
    ensures
      var s := SweptTo(st, done, cleared, now);
      var cleared' := if Expired(s, k, now) then cleared + {k} else cleared;
      OnePerSession(st, done + {k}, cleared', now) && SweepKey(s, k, now) == SweptTo(st, done + {k}, cleared', now)
  {
    FirstIsCleared(st, done, cleared, k, now);
    UnvisitedChannel(st, done, cleared, k, now);
    HandlesGrow(st, done, k, now);
    var s := SweptTo(st, done, cleared, now);
    var t := SweptTo(st, done + {k}, if Expired(s, k, now) then cleared + {k} else cleared, now);
    assert SweepKey(s, k, now).channels == t.channels;
    assert SweepKey(s, k, now).sessions == t.sessions;
  }

  /** Unless two that expire share a session, every channel that expires is cleared, so the order is irrelevant. */
  lemma NoClashClearsAll(st: State, cleared: set<Key>, now: nat)
    requires NoClash(st, now) && OnePerSession(st, st.channels.Keys, cleared, now)
    ensures SweptTo(st, st.channels.Keys, cleared, now) == Sweep(st, now)
  {
    forall k | k in ExpiredKeys(st, now) ensures k in cleared {
      var k' :| k' in cleared && Clash(st, k, k', now);
    }
    assert cleared == ExpiredKeys(st, now);
  }

  /** Two channels can be visited in either order if and only if they are not an expiring pair that shares
      a session: of such a pair only the first visited would lose its binding. */
  lemma VisitsCommuteIff(st: State, k: Key, k': Key, now: nat)
    requires k != k'
    ensures SweepKey(SweepKey(st, k, now), k', now) == SweepKey(SweepKey(st, k', now), k, now) <==> !Clash(st, k, k', now)
  {
    var s, s' := SweepKey(st, k, now), SweepKey(st, k', now);
    assert k' in st.channels ==> s.channels[k'] == st.channels[k'];
    assert k in st.channels ==> s'.channels[k] == st.channels[k];
    if Clash(st, k, k', now) {
      assert !Expired(s, k', now) && !Expired(s', k, now);
      assert s.channels[k].virtualSession == None && s'.channels[k].virtualSession != None;
    } else {
      assert Expired(s, k', now) <==> Expired(st, k', now);
      assert Expired(s', k, now) <==> Expired(st, k, now);
      assert SweepKey(s, k', now).channels == SweepKey(s', k, now).channels;
      assert SweepKey(s, k', now).sessions == SweepKey(s', k, now).sessions;
    }
  }

  lemma SweepKeepsInv(st: State, now: nat)
    requires Inv(st)
    ensures Inv(Sweep(st, now))
  {
    var t := Sweep(st, now);
    forall h | h in t.sessions && t.sessions[h].Live() ensures exists k :: BoundTo(t, k, h) {
      var k :| BoundTo(st, k, h);
      assert BoundTo(t, k, h);
    }
    forall k, h | BoundTo(t, k, h) ensures h in t.sessions && t.sessions[h].Live() && t.channels[k].virtualLease.Some? {
      assert BoundTo(st, k, h);
      if h in ExpiredHandles(st, st.channels.Keys, now) {
        var k' :| k' in st.channels && Expired(st, k', now) && st.channels[k'].virtualSession.value == h;
        assert BoundTo(st, k', h);
      }
    }
    forall k, k', h | BoundTo(t, k, h) && BoundTo(t, k', h) ensures k == k' {
      assert BoundTo(st, k, h) && BoundTo(st, k', h);
    }
  }

  lemma SweepOutcome(st: State, t: State, now: nat)
    requires t in SweepOutcomes(st, now)
    ensures NoClash(st, now) ==> t == Sweep(st, now)
    ensures t.channels.Keys == st.channels.Keys && t.sessions.Keys == st.sessions.Keys
  {
    var cleared :| OnePerSession(st, st.channels.Keys, cleared, now) && t == SweptTo(st, st.channels.Keys, cleared, now);
    if NoClash(st, now) {
      NoClashClearsAll(st, cleared, now);
    }
  }

  /** What a sweep writes, from any state and in any order: the sessions expired before it are marked abandoned
      at the time of the sweep and otherwise as they were; no other session changes; and a channel changes
      only if it had expired, by losing its virtual session and virtual lease. */
  lemma SweepWrites(st: State, t: State, now: nat)
    requires t in SweepOutcomes(st, now)
    ensures t.sessions.Keys == st.sessions.Keys && t.channels.Keys == st.channels.Keys
    ensures forall h :: h in st.sessions ==>
      t.sessions[h] ==
        if h in ExpiredHandles(st, st.channels.Keys, now) then
          st.sessions[h].(status := Abandoned, outcome := Some(TaskAbandoned), endedAt := Some(now))
        else st.sessions[h]
    ensures forall k :: k in st.channels ==>
      || t.channels[k] == st.channels[k]
      || (Expired(st, k, now) && t.channels[k] == st.channels[k].(virtualSession := None, virtualLease := None))
  {
    var cleared :| OnePerSession(st, st.channels.Keys, cleared, now) && t == SweptTo(st, st.channels.Keys, cleared, now);
  }

  lemma SweptKeepsInv(st: State, t: State, now: nat)
    requires Inv(st) && (NoClash(st, now) ==> t == Sweep(st, now))
    ensures Inv(t)
  {
    InvNoClash(st, now);
    SweepKeepsInv(st, now);
  }

  // ---- Ensuring a session ----

  function LiveVirtual(st: State, k: Key): Option<SessionHandle> {
    if k in st.channels && st.channels[k].virtualSession.Some? then
      var h := st.channels[k].virtualSession.value;
      if h in st.sessions && st.sessions[h].Live() then Some(h) else None
    else None
  }

  function NewSession(h: SessionHandle, channel: ChannelId, now: nat): Session {
    Session(h, channel, Active, None, [], [], now, None, true)
  }

  function Unbound(k: Key): ChannelBinding {
    ChannelBinding(k.0, k.1, None, None, None, None, false)
  }

  function Touch(b: ChannelBinding, h: SessionHandle, now: nat): ChannelBinding {
    b.(virtualSession := Some(h), virtualLease := Some(Lease(now + VIRTUAL_IDLE_TIMEOUT_MILLIS)))
  }

  function Refresh(s: State, k: Key, h: SessionHandle, now: nat): State
    requires k in s.channels
  {
    s.(channels := s.channels[k := Touch(s.channels[k], h, now)])
  }

  function Create(s: State, k: Key, now: nat, minted: SessionHandle): State {
    var b := if k in s.channels then s.channels[k] else Unbound(k);
    State(s.channels[k := Touch(b, minted, now)], s.sessions[minted := NewSession(minted, k.1, now)])
  }

  /** What a call does after its sweep; `minted` is the handle a new session would get. */
  function EnsureSwept(s: State, k: Key, now: nat, minted: SessionHandle): (State, SessionHandle) {
    match LiveVirtual(s, k)
    case Some(h) => (Refresh(s, k, h, now), h)
    case None => (Create(s, k, now, minted), minted)
  }

  function Ensure(st: State, k: Key, now: nat, minted: SessionHandle): (State, SessionHandle) {
    EnsureSwept(Sweep(st, now), k, now, minted)
  }

  lemma RefreshKeepsInv(s: State, k: Key, h: SessionHandle, now: nat)
    requires Inv(s) && LiveVirtual(s, k) == Some(h)
    ensures Inv(Refresh(s, k, h, now)) && LiveVirtual(Refresh(s, k, h, now), k) == Some(h)
  {
    var t := Refresh(s, k, h, now);
    assert forall k', h' :: BoundTo(t, k', h') <==> BoundTo(s, k', h');
  }

  lemma CreateKeepsInv(s: State, k: Key, now: nat, minted: SessionHandle)
    requires Inv(s) && LiveVirtual(s, k) == None && minted !in s.sessions
    ensures Inv(Create(s, k, now, minted)) && LiveVirtual(Create(s, k, now, minted), k) == Some(minted)
  {
    var t := Create(s, k, now, minted);
    forall h' ensures !BoundTo(s, k, h') {}
    forall k', h' ensures BoundTo(t, k', h') <==> (if k' == k then h' == minted else BoundTo(s, k', h')) {}
    forall h' | h' in t.sessions && t.sessions[h'].Live() ensures exists k' :: BoundTo(t, k', h') {
      if h' == minted {
        assert BoundTo(t, k, h');
      } else {
        var k' :| BoundTo(s, k', h');
        assert BoundTo(t, k', h');
      }
    }
  }

  /** The channel is bound to h, which is stored, virtual and active, and good for the idle timeout from now. */
  predicate HoldsSession(st: State, k: Key, h: SessionHandle, now: nat) {
    && k in st.channels && st.channels[k].virtualSession == Some(h)
    && st.channels[k].virtualLease == Some(Lease(now + VIRTUAL_IDLE_TIMEOUT_MILLIS))
    && h in st.sessions && st.sessions[h].isVirtual && st.sessions[h].status == Active
  }

  /** Whatever state it starts from, the call leaves the channel with the live session it returns. */
  lemma EnsuredIsLive(s: State, k: Key, now: nat, minted: SessionHandle)
    ensures LiveVirtual(EnsureSwept(s, k, now, minted).0, k) == Some(EnsureSwept(s, k, now, minted).1)
    ensures HoldsSession(EnsureSwept(s, k, now, minted).0, k, EnsureSwept(s, k, now, minted).1, now)
  {
  }

  lemma EnsureSweptKeepsInv(s: State, k: Key, now: nat, minted: SessionHandle)
    requires Inv(s) && minted !in s.sessions
    ensures Inv(EnsureSwept(s, k, now, minted).0)
  {
    match LiveVirtual(s, k) {
      case Some(h) => RefreshKeepsInv(s, k, h, now);
      case None => CreateKeepsInv(s, k, now, minted);
    }
  }

  lemma EnsureKeepsInv(st: State, k: Key, now: nat, minted: SessionHandle)
    requires Inv(st) && minted !in st.sessions
    ensures Inv(Ensure(st, k, now, minted).0)
    ensures LiveVirtual(Ensure(st, k, now, minted).0, k) == Some(Ensure(st, k, now, minted).1)
  {
    SweepKeepsInv(st, now);
    EnsureSweptKeepsInv(Sweep(st, now), k, now, minted);
    EnsuredIsLive(Sweep(st, now), k, now, minted);
  }

  // ---- The remaining operations ----

  function Bind(st: State, k: Key, handle: SessionHandle, explicit: bool): State {
    var b := if k in st.channels then st.channels[k] else Unbound(k);
    st.(channels := st.channels[k := ChannelBinding(k.0, b.channelId, Some(handle), b.virtualSession, b.virtualLease, None, explicit)])
  }

  function SetLease(st: State, k: Key, lease: Lease): State {
    if k in st.channels then st.(channels := st.channels[k := st.channels[k].(lease := Some(lease))]) else st
  }

  /** Appending the ids not yet present, in order. */
  function AppendNew(have: seq<string>, ids: seq<string>): seq<string>
    decreases |ids|
  {
    if ids == [] then have
    else AppendNew(if ids[0] in have then have else have + [ids[0]], ids[1..])
  }

  /** Tracking keeps what was there, in place, and adds each new id once. */
  lemma {:induction false} AppendNewDeduplicates(have: seq<string>, ids: seq<string>)
    requires Distinct(have)
    ensures
      var all := AppendNew(have, ids);
      && have <= all && Distinct(all)
      && (forall x :: x in all <==> x in have || x in ids)
    decreases |ids|
  {
    if ids == [] {
    } else {
      assert ids == [ids[0]] + ids[1..];
      AppendNewDeduplicates(if ids[0] in have then have else have + [ids[0]], ids[1..]);
    }
  }

  function TrackCreated(st: State, h: SessionHandle, ids: seq<string>): State {
    if h in st.sessions then
      var s := st.sessions[h];
      st.(sessions := st.sessions[h := s.(memoriesCreated := AppendNew(s.memoriesCreated, ids))])
    else st
  }

  function TrackRead(st: State, h: SessionHandle, ids: seq<string>): State {
    if h in st.sessions then
      var s := st.sessions[h];
      st.(sessions := st.sessions[h := s.(memoriesRead := AppendNew(s.memoriesRead, ids))])
    else st
  }

  function ClearRoutes(b: ChannelBinding): ChannelBinding {
    b.(session := None, lease := None, virtualSession := None, virtualLease := None)
  }

  function Reset(st: State): State {
    State(map k | k in st.channels :: ClearRoutes(st.channels[k]), map[])
  }

  function ClearedKeys(channels: map<Key, ChannelBinding>, done: set<Key>): map<Key, ChannelBinding> {
    map k | k in channels :: if k in done then ClearRoutes(channels[k]) else channels[k]
  }

  function TracedRoutes(channels: map<Key, ChannelBinding>, keys: set<Key>): set<Key> {
    set k | k in keys && k in channels && channels[k].session.Some?
  }

  lemma ClearStep(channels: map<Key, ChannelBinding>, done: set<Key>, k: Key)
    requires k in channels && k !in done
    ensures ClearedKeys(channels, done)[k] == channels[k]
    ensures ClearedKeys(channels, done + {k}) == ClearedKeys(channels, done)[k := ClearRoutes(channels[k])]
    ensures |TracedRoutes(channels, done + {k})| == |TracedRoutes(channels, done)| + if channels[k].session.Some? then 1 else 0
  {
    if channels[k].session.Some? {
      assert TracedRoutes(channels, done + {k}) == TracedRoutes(channels, done) + {k};
    } else {
      assert TracedRoutes(channels, done + {k}) == TracedRoutes(channels, done);
    }
  }

  lemma SameRoutesKeepInv(st: State, t: State)
    requires Inv(st)
    requires forall k :: k in t.channels ==> k == (t.channels[k].frontendId, t.channels[k].channelId)
    requires forall k, h :: BoundTo(t, k, h) <==> BoundTo(st, k, h)
    requires forall k :: k in st.channels ==> k in t.channels && t.channels[k].virtualLease == st.channels[k].virtualLease
    requires t.sessions.Keys == st.sessions.Keys
    requires forall h :: h in st.sessions ==>
      && t.sessions[h].handle == st.sessions[h].handle && t.sessions[h].isVirtual == st.sessions[h].isVirtual
      && t.sessions[h].status == st.sessions[h].status
    ensures Inv(t)
  {
    forall h | h in t.sessions && t.sessions[h].Live() ensures exists k :: BoundTo(t, k, h) {
      var k :| BoundTo(st, k, h);
      assert BoundTo(t, k, h);
    }
  }

  /** Binding, leasing, tracking and resetting keep the bijection. */
  lemma BindKeepsInv(st: State, k: Key, h: SessionHandle, explicit: bool)
    requires Inv(st)
    ensures Inv(Bind(st, k, h, explicit))
  {
    SameRoutesKeepInv(st, Bind(st, k, h, explicit));
  }

  lemma SetLeaseKeepsInv(st: State, k: Key, lease: Lease)
    requires Inv(st)
    ensures Inv(SetLease(st, k, lease))
  {
    SameRoutesKeepInv(st, SetLease(st, k, lease));
  }

  lemma TrackKeepsInv(st: State, h: SessionHandle, ids: seq<string>)
    requires Inv(st)
    ensures Inv(TrackCreated(st, h, ids)) && Inv(TrackRead(st, h, ids))
  {
    SameRoutesKeepInv(st, TrackCreated(st, h, ids));
    SameRoutesKeepInv(st, TrackRead(st, h, ids));
  }

  lemma ResetKeepsInv(st: State)
    requires Inv(st)
    ensures Inv(Reset(st))
  {
    assert forall k, h :: !BoundTo(Reset(st), k, h);
  }

  // ---- Snapshots ----

  datatype ChannelEntry = ChannelEntry(frontendId: FrontendId, channelId: ChannelId, binding: ChannelBinding)

  datatype SessionEntry = SessionEntry(handle: SessionHandle, session: Session)

  datatype LegacyOpRecord = LegacyOpRecord(digest: string, session: SessionHandle)

  /** `sessions` and `opLog` occur only in files older than the canonical store. */
  datatype Snapshot = Snapshot(
    channels: seq<ChannelEntry>,
    virtualSessions: seq<SessionEntry>,
    sessions: seq<SessionEntry>,
    opLog: seq<(string, LegacyOpRecord)>)

  datatype LegacyPayload = LegacyPayload(sessions: seq<Session>, receipts: seq<(string, LegacyOpRecord)>)

  /** What persist may write: every binding and virtual session once, in any order, and nothing legacy. */
  ghost predicate SnapshotOf(st: State, snap: Snapshot) {
    && snap.sessions == [] && snap.opLog == []
    && (forall i :: 0 <= i < |snap.channels| ==>
          var e := snap.channels[i];
          (e.frontendId, e.channelId) in st.channels && st.channels[(e.frontendId, e.channelId)] == e.binding)
    && (forall k :: k in st.channels ==> ChannelEntry(k.0, k.1, st.channels[k]) in snap.channels)
    && (forall i :: 0 <= i < |snap.virtualSessions| ==>
          var e := snap.virtualSessions[i]; e.handle in st.sessions && st.sessions[e.handle] == e.session)
    && (forall h :: h in st.sessions ==> SessionEntry(h, st.sessions[h]) in snap.virtualSessions)
    && |snap.channels| == |st.channels| && |snap.virtualSessions| == |st.sessions|
  }

  function LoadChannels(es: seq<ChannelEntry>): map<Key, ChannelBinding> {
    if es == [] then map[]
    else var e := es[|es| - 1]; LoadChannels(es[..|es| - 1])[(e.frontendId, e.channelId) := e.binding]
  }

  function LoadSessions(es: seq<SessionEntry>): map<SessionHandle, Session> {
    if es == [] then map[] else var e := es[|es| - 1]; LoadSessions(es[..|es| - 1])[e.handle := e.session]
  }

  function VirtualOnly(es: seq<SessionEntry>): seq<SessionEntry> {
    if es == [] then []
    else VirtualOnly(es[..|es| - 1]) + if es[|es| - 1].session.isVirtual then [es[|es| - 1]] else []
  }

  function TracedOnly(es: seq<SessionEntry>): seq<Session> {
    if es == [] then []
    else TracedOnly(es[..|es| - 1]) + if es[|es| - 1].session.isVirtual then [] else [es[|es| - 1].session]
  }

  function LoadState(snap: Snapshot): (State, LegacyPayload) {
    (State(LoadChannels(snap.channels), LoadSessions(snap.virtualSessions + VirtualOnly(snap.sessions))),
     LegacyPayload(TracedOnly(snap.sessions), snap.opLog))
  }

  lemma {:induction false} LoadChannelsExact(es: seq<ChannelEntry>, m: map<Key, ChannelBinding>)
    requires forall i :: 0 <= i < |es| ==>
      (es[i].frontendId, es[i].channelId) in m && m[(es[i].frontendId, es[i].channelId)] == es[i].binding
    ensures forall k :: k in LoadChannels(es) <==> k in m && ChannelEntry(k.0, k.1, m[k]) in es
    ensures forall k :: k in LoadChannels(es) ==> LoadChannels(es)[k] == m[k]
  {
    if es == [] {
    } else {
      LoadChannelsExact(es[..|es| - 1], m);
      assert es == es[..|es| - 1] + [es[|es| - 1]];
    }
  }

  lemma {:induction false} LoadSessionsExact(es: seq<SessionEntry>, m: map<SessionHandle, Session>)
    requires forall i :: 0 <= i < |es| ==> es[i].handle in m && m[es[i].handle] == es[i].session
    ensures forall h :: h in LoadSessions(es) <==> h in m && SessionEntry(h, m[h]) in es
    ensures forall h :: h in LoadSessions(es) ==> LoadSessions(es)[h] == m[h]
  {
    if es == [] {
    } else {
      LoadSessionsExact(es[..|es| - 1], m);
      assert es == es[..|es| - 1] + [es[|es| - 1]];
    }
  }

  /** Loading what was persisted restores every binding and virtual session, whatever order they were
      written in, and yields nothing to import. */
  lemma PersistThenLoad(st: State, snap: Snapshot)
    requires SnapshotOf(st, snap)
    ensures LoadState(snap) == (st, LegacyPayload([], []))
  {
    assert snap.virtualSessions + VirtualOnly([]) == snap.virtualSessions;
    LoadChannelsExact(snap.channels, st.channels);
    LoadSessionsExact(snap.virtualSessions, st.sessions);
    assert LoadChannels(snap.channels) == st.channels;
    assert LoadSessions(snap.virtualSessions) == st.sessions;
  }

  lemma {:induction false} VirtualOnlyExact(es: seq<SessionEntry>, e: SessionEntry)
    ensures e in VirtualOnly(es) <==> e in es && e.session.isVirtual
  {
    if es == [] {
    } else {
      assert es == es[..|es| - 1] + [es[|es| - 1]];
      VirtualOnlyExact(es[..|es| - 1], e);
    }
  }

  ghost predicate TracedIn(es: seq<SessionEntry>, s: Session) {
    !s.isVirtual && exists h :: SessionEntry(h, s) in es
  }

  lemma {:induction false} TracedOnlyExact(es: seq<SessionEntry>, s: Session)
    ensures s in TracedOnly(es) <==> TracedIn(es, s)
  {
    if es == [] {
    } else {
      var init, last := es[..|es| - 1], es[|es| - 1];
      assert es == init + [last];
      TracedOnlyExact(init, s);
      if last.session == s {
        assert SessionEntry(last.handle, s) in es;
      }
    }
  }

  lemma {:induction false} NothingLost(es: seq<SessionEntry>)
    ensures |VirtualOnly(es)| + |TracedOnly(es)| == |es|
  {
    if es == [] {
    } else {
      NothingLost(es[..|es| - 1]);
    }
  }

  /** A pre-migration file loses nothing: each of its sessions ends up in exactly one place, the virtual
      ones in the table and the traced ones in the payload. */
  lemma LegacySessionsSplit(es: seq<SessionEntry>)
    ensures |VirtualOnly(es)| + |TracedOnly(es)| == |es|
    ensures forall e :: e in VirtualOnly(es) <==> e in es && e.session.isVirtual
    ensures forall s :: s in TracedOnly(es) <==> TracedIn(es, s)
  {
    NothingLost(es);
    forall e ensures e in VirtualOnly(es) <==> e in es && e.session.isVirtual {
      VirtualOnlyExact(es, e);
    }
    forall s ensures s in TracedOnly(es) <==> TracedIn(es, s) {
      TracedOnlyExact(es, s);
    }
  }
}
