/** The registry object: maps updated in place, swept in whatever order the hash map yields its keys
    (crates/daemon/src/registry.rs). */
module FrontendRegistry {
  import opened Basics
  import opened Wrappers
  import opened RegistryState

  /** `listed` holds the members of `gone`, each once. */
  ghost predicate Lists(listed: seq<SessionHandle>, gone: set<SessionHandle>) {
    Distinct(listed) && forall h :: h in listed <==> h in gone
  }

  lemma ListsAppend(listed: seq<SessionHandle>, gone: set<SessionHandle>, h: SessionHandle)
    requires Lists(listed, gone) && h !in gone
    ensures Lists(listed + [h], gone + {h})
  {
  }

  /** What the sweep of `done` has come to: state, cleared channels and handles listed, from the state before it. */
  ghost predicate SweptSoFar(st: State, s: State, done: set<Key>, cleared: set<Key>, finalized: seq<SessionHandle>, now: nat) {
    && OnePerSession(st, done, cleared, now)
    && s == SweptTo(st, done, cleared, now)
    && Lists(finalized, ExpiredHandles(st, done, now))
  }

  /** The sessions in `ended` are marked abandoned now and otherwise as they were; the others are untouched. */
  ghost predicate EndsOnly(before: map<SessionHandle, Session>, after: map<SessionHandle, Session>,
                           ended: seq<SessionHandle>, now: nat) {
    && after.Keys == before.Keys
    && forall h :: h in before ==>
         after[h] == if h in ended then before[h].(status := Abandoned, outcome := Some(TaskAbandoned), endedAt := Some(now))
                     else before[h]
  }

  lemma SweepEnds(st: State, t: State, finalized: seq<SessionHandle>, now: nat)
    requires t in SweepOutcomes(st, now) && Lists(finalized, ExpiredHandles(st, st.channels.Keys, now))
    ensures EndsOnly(st.sessions, t.sessions, finalized, now)
  {
    SweepWrites(st, t, now);
  }

  /** One more visit. */
  lemma VisitTracks(st: State, s: State, done: set<Key>, cleared: set<Key>, finalized: seq<SessionHandle>, k: Key, now: nat)
    requires SweptSoFar(st, s, done, cleared, finalized, now) && k in st.channels && k !in done
    ensures
      if Expired(s, k, now) then
        SweptSoFar(st, SweepKey(s, k, now), done + {k}, cleared + {k}, finalized + [s.channels[k].virtualSession.value], now)
      else SweptSoFar(st, SweepKey(s, k, now), done + {k}, cleared, finalized, now)
  {
    UnvisitedChannel(st, done, cleared, k, now);
    HandlesGrow(st, done, k, now);
    SweepStep(st, done, cleared, k, now);
    if Expired(s, k, now) {
      ListsAppend(finalized, ExpiredHandles(st, done, now), s.channels[k].virtualSession.value);
    }
  }

  /** The loop shared by the two tracking operations. */
  method PushMissing(have: seq<string>, ids: seq<string>) returns (all: seq<string>)
    ensures all == AppendNew(have, ids)
  {
    all := have;
    for i := 0 to |ids|
      invariant AppendNew(all, ids[i..]) == AppendNew(have, ids)
    {
      assert ids[i..][0] == ids[i] && ids[i..][1..] == ids[i + 1..];
      if ids[i] !in all {
        all := all + [ids[i]];
      }
    }
    assert ids[|ids|..] == [];
  }

  class FrontendRegistry {
    var channels: map<Key, ChannelBinding>
    var virtualSessions: map<SessionHandle, Session>

    ghost function Abs(): State
      reads this
    {
      State(channels, virtualSessions)
    }

    ghost predicate Valid()
      reads this
    {
      Inv(Abs())
    }

    constructor ()
      ensures Valid() && Abs() == Empty()
    {
      channels, virtualSessions := map[], map[];
    }

    method BindSession(frontend: FrontendId, channel: ChannelId, handle: SessionHandle, explicit: bool)
      modifies this
      ensures Abs() == Bind(old(Abs()), (frontend, channel), handle, explicit)
      ensures old(Valid()) ==> Valid()
    {
      if Valid() {
        BindKeepsInv(Abs(), (frontend, channel), handle, explicit);
      }
      var k := (frontend, channel);
      var existing := if k in channels then channels[k].channelId else channel;
      var virtualSession := if k in channels then channels[k].virtualSession else None;
      var virtualLease := if k in channels then channels[k].virtualLease else None;
      channels := channels[k := ChannelBinding(frontend, existing, Some(handle), virtualSession, virtualLease, None, explicit)];
    }

    method SetChannelLease(frontend: FrontendId, channel: ChannelId, lease: Lease)
      modifies this
      ensures Abs() == SetLease(old(Abs()), (frontend, channel), lease)
      ensures old(Valid()) ==> Valid()
    {
      if Valid() {
        SetLeaseKeepsInv(Abs(), (frontend, channel), lease);
      }
      var k := (frontend, channel);
      if k in channels {
        channels := channels[k := channels[k].(lease := Some(lease))];
      }
    }

    /** A session that is stored, virtual and still active. */
    predicate Usable(h: SessionHandle)
      reads this
    {
      h in virtualSessions && virtualSessions[h].isVirtual && virtualSessions[h].status == Active
    }

    /** In a registry that satisfies the invariant every bound handle is live, so this is just the binding. */
    method VirtualSession(frontend: FrontendId, channel: ChannelId) returns (r: Option<SessionHandle>)
      ensures r == LiveVirtual(Abs(), (frontend, channel))
      ensures
        var k := (frontend, channel);
        r.Some? <==> k in channels && channels[k].virtualSession.Some? && Usable(channels[k].virtualSession.value)
      ensures r.Some? ==> channels[(frontend, channel)].virtualSession == r
      ensures Valid() ==> r == if (frontend, channel) in channels then channels[(frontend, channel)].virtualSession else None
    {
      var k := (frontend, channel);
      if k !in channels || channels[k].virtualSession == None {
        return None;
      }
      var handle := channels[k].virtualSession.value;
      assert BoundTo(Abs(), k, handle);
      if handle !in virtualSessions {
        return None;
      }
      var session := virtualSessions[handle];
      return if session.isVirtual && !session.status.IsTerminal() then Some(handle) else None;
    }

    /** One channel's turn in a sweep. */
    method SweepChannel(k: Key, now: nat) returns (finalized: Option<SessionHandle>)
      requires k in channels
      modifies this
      ensures Abs() == SweepKey(old(Abs()), k, now)
      ensures finalized == if Expired(old(Abs()), k, now) then old(channels)[k].virtualSession else None
    {
      if channels[k].virtualSession == None {
        return None;
      }
      var handle := channels[k].virtualSession.value;
      var expired := false;
      if handle in virtualSessions && virtualSessions[handle].isVirtual && !virtualSessions[handle].status.IsTerminal() {
        var idle := match channels[k].virtualLease case Some(l) => now >= l.expiresAt case None => true;
        var aged := SaturatingSub(now, virtualSessions[handle].startedAt) >= VIRTUAL_LIFETIME_MILLIS;
        expired := idle || aged;
      }
      if !expired {
        return None;
      }
      virtualSessions := virtualSessions[handle :=
        virtualSessions[handle].(status := Abandoned, outcome := Some(TaskAbandoned), endedAt := Some(now))];
      channels := channels[k := channels[k].(virtualSession := None, virtualLease := None)];
      return Some(handle);
    }

    /** Whatever the state and the order of the visits: exactly the handles expired before the sweep are
        returned, each once, their sessions end and no other, and of the channels bound to one of them exactly
        one is cleared. Unless two that expire share a session, that leaves one final state. */
    method SweepVirtualSessions(now: nat) returns (finalized: seq<SessionHandle>)
      modifies this
      ensures Abs() in SweepOutcomes(old(Abs()), now)
      ensures Lists(finalized, ExpiredHandles(old(Abs()), old(channels.Keys), now))
      ensures EndsOnly(old(virtualSessions), virtualSessions, finalized, now)
      ensures NoClash(old(Abs()), now) ==> Abs() == Sweep(old(Abs()), now)
      ensures channels.Keys == old(channels.Keys) && virtualSessions.Keys == old(virtualSessions.Keys)
      ensures old(Valid()) ==> Valid()
    {
      ghost var st := Abs();
      finalized := [];
      var keys := channels.Keys;
      ghost var done: set<Key>, cleared: set<Key> := {}, {};
      assert SweptTo(st, {}, {}, now) == st;
      while keys != {}
        invariant done + keys == st.channels.Keys && done !! keys
        invariant SweptSoFar(st, Abs(), done, cleared, finalized, now)
        decreases keys
      {
        var k :| k in keys;
        keys := keys - {k};
        VisitTracks(st, Abs(), done, cleared, finalized, k, now);
        var expired := SweepChannel(k, now);
        if expired.Some? {
          finalized, cleared := finalized + [expired.value], cleared + {k};
        }
        done := done + {k};
      }
      assert done == st.channels.Keys;
      SweepOutcome(st, Abs(), now);
      SweepEnds(st, Abs(), finalized, now);
      if Inv(st) {
        SweptKeepsInv(st, Abs(), now);
      }
    }

    /** The part of a call after its sweep. */
    method RefreshOrCreate(frontend: FrontendId, channel: ChannelId, now: nat, minted: SessionHandle) returns (handle: SessionHandle)
      requires ClockFits(now)
      modifies this
      ensures (Abs(), handle) == EnsureSwept(old(Abs()), (frontend, channel), now, minted)
    {
      ghost var swept := Abs();
      var k := (frontend, channel);
      if k in channels && channels[k].virtualSession.Some? {
        var bound := channels[k].virtualSession.value;
        if bound in virtualSessions && virtualSessions[bound].isVirtual && !virtualSessions[bound].status.IsTerminal() {
          channels := channels[k := channels[k].(virtualLease := Some(Lease(now + VIRTUAL_IDLE_TIMEOUT_MILLIS)))];
          assert Abs() == Refresh(swept, k, bound, now);
          return bound;
        }
      }
      virtualSessions := virtualSessions[minted := Session(minted, channel, Active, None, [], [], now, None, true)];
      var b := if k in channels then channels[k] else ChannelBinding(frontend, channel, None, None, None, None, false);
      channels := channels[k := b.(virtualSession := Some(minted), virtualLease := Some(Lease(now + VIRTUAL_IDLE_TIMEOUT_MILLIS)))];
      assert Abs() == Create(swept, k, now, minted);
      return minted;
    }

    /** The channel's session for a call made now; `minted` is what a fresh UUID would be. */
    method EnsureVirtualSession(frontend: FrontendId, channel: ChannelId, now: nat, minted: SessionHandle) returns (handle: SessionHandle)
      requires ClockFits(now) && minted !in virtualSessions
      modifies this
      ensures exists swept | swept in SweepOutcomes(old(Abs()), now) ::
        (Abs(), handle) == EnsureSwept(swept, (frontend, channel), now, minted)
      ensures NoClash(old(Abs()), now) ==> (Abs(), handle) == Ensure(old(Abs()), (frontend, channel), now, minted)
      ensures HoldsSession(Abs(), (frontend, channel), handle, now)
      ensures old(Valid()) ==> Valid()
    {
      var _ := SweepVirtualSessions(now);
      ghost var swept := Abs();
      if Inv(swept) {
        EnsureSweptKeepsInv(swept, (frontend, channel), now, minted);
      }
      EnsuredIsLive(swept, (frontend, channel), now, minted);
      handle := RefreshOrCreate(frontend, channel, now, minted);
    }

    method TrackVirtualCreated(handle: SessionHandle, ids: seq<string>)
      modifies this
      ensures Abs() == TrackCreated(old(Abs()), handle, ids)
      ensures old(Valid()) ==> Valid()
    {
      if Valid() {
        TrackKeepsInv(Abs(), handle, ids);
      }
      if handle in virtualSessions {
        var created := PushMissing(virtualSessions[handle].memoriesCreated, ids);
        virtualSessions := virtualSessions[handle := virtualSessions[handle].(memoriesCreated := created)];
      }
    }

    method TrackVirtualRead(handle: SessionHandle, ids: seq<string>)
      modifies this
      ensures Abs() == TrackRead(old(Abs()), handle, ids)
      ensures old(Valid()) ==> Valid()
    {
      if Valid() {
        TrackKeepsInv(Abs(), handle, ids);
      }
      if handle in virtualSessions {
        var read := PushMissing(virtualSessions[handle].memoriesRead, ids);
        virtualSessions := virtualSessions[handle := virtualSessions[handle].(memoriesRead := read)];
      }
    }

    /** Clearing every channel's routes; counts the traced routes dropped. */
    method ClearAllRoutes() returns (dropped: nat)
      modifies this`channels
      ensures channels == ClearedKeys(old(channels), old(channels.Keys))
      ensures dropped == |TracedRoutes(old(channels), old(channels.Keys))|
    {
      ghost var before := channels;
      dropped := 0;
      var keys := channels.Keys;
      ghost var done: set<Key> := {};
      assert ClearedKeys(before, {}) == before;
      while keys != {}
        invariant done + keys == before.Keys && done !! keys
        invariant channels == ClearedKeys(before, done)
        invariant dropped == |TracedRoutes(before, done)|
        decreases keys
      {
        var k :| k in keys;
        keys := keys - {k};
        ClearStep(before, done, k);
        var b := channels[k];
        if b.session.Some? {
          dropped := dropped + 1;
        }
        channels := channels[k := ClearRoutes(b)];
        done := done + {k};
      }
      assert done == before.Keys;
    }

    /** The number of traced routes dropped is the number of channels that had one. */
    method ResetExecutionContexts() returns (dropped: nat)
      modifies this
      ensures Abs() == Reset(old(Abs()))
      ensures old(Valid()) ==> Valid()
      ensures dropped == |TracedRoutes(old(channels), old(channels.Keys))|
    {
      if Valid() {
        ResetKeepsInv(Abs());
      }
      dropped := ClearAllRoutes();
      virtualSessions := map[];
      assert Abs() == Reset(old(Abs()));
    }

    /** What is written, whatever order the maps are read in. */
    method Persist() returns (snap: Snapshot)
      ensures SnapshotOf(Abs(), snap)
    {
      var entries: seq<ChannelEntry> := [];
      var keys := channels.Keys;
      while keys != {}
        invariant keys <= channels.Keys && |entries| + |keys| == |channels|
        invariant forall k :: k in channels && k !in keys ==> ChannelEntry(k.0, k.1, channels[k]) in entries
        invariant forall i :: 0 <= i < |entries| ==>
          var e := entries[i]; (e.frontendId, e.channelId) in channels && channels[(e.frontendId, e.channelId)] == e.binding
        decreases keys
      {
        var k :| k in keys;
        keys := keys - {k};
        entries := entries + [ChannelEntry(k.0, k.1, channels[k])];
      }
      var records: seq<SessionEntry> := [];
      var handles := virtualSessions.Keys;
      while handles != {}
        invariant handles <= virtualSessions.Keys && |records| + |handles| == |virtualSessions|
        invariant forall h :: h in virtualSessions && h !in handles ==> SessionEntry(h, virtualSessions[h]) in records
        invariant forall i :: 0 <= i < |records| ==>
          var e := records[i]; e.handle in virtualSessions && virtualSessions[e.handle] == e.session
        decreases handles
      {
        var h :| h in handles;
        handles := handles - {h};
        records := records + [SessionEntry(h, virtualSessions[h])];
      }
      return Snapshot(entries, records, [], []);
    }

    constructor From(channels: map<Key, ChannelBinding>, virtualSessions: map<SessionHandle, Session>)
      ensures Abs() == State(channels, virtualSessions)
    {
      this.channels, this.virtualSessions := channels, virtualSessions;
    }
  }

  method ReadChannels(es: seq<ChannelEntry>) returns (m: map<Key, ChannelBinding>)
    ensures m == LoadChannels(es)
  {
    m := map[];
    for i := 0 to |es|
      invariant m == LoadChannels(es[..i])
    {
      assert es[..i + 1][..i] == es[..i];
      m := m[(es[i].frontendId, es[i].channelId) := es[i].binding];
    }
    assert es[..|es|] == es;
  }

  /** The virtual table: current entries first, then the virtual ones of a pre-migration list. */
  method ReadSessions(own: seq<SessionEntry>, shared: seq<SessionEntry>)
    returns (m: map<SessionHandle, Session>, traced: seq<Session>)
    ensures m == LoadSessions(own + VirtualOnly(shared)) && traced == TracedOnly(shared)
  {
    m, traced := map[], [];
    for i := 0 to |own|
      invariant m == LoadSessions(own[..i])
    {
      assert own[..i + 1][..i] == own[..i];
      m := m[own[i].handle := own[i].session];
    }
    assert own[..|own|] == own == own + VirtualOnly(shared[..0]);
    for i := 0 to |shared|
      invariant m == LoadSessions(own + VirtualOnly(shared[..i])) && traced == TracedOnly(shared[..i])
    {
      var e := shared[i];
      ghost var merged := own + VirtualOnly(shared[..i]);
      assert shared[..i + 1][..i] == shared[..i];
      if e.session.isVirtual {
        assert own + VirtualOnly(shared[..i + 1]) == merged + [e];
        assert (merged + [e])[..|merged|] == merged;
        m := m[e.handle := e.session];
      } else {
        traced := traced + [e.session];
        assert own + VirtualOnly(shared[..i + 1]) == merged;
      }
    }
    assert shared[..|shared|] == shared;
  }

  /** Reading a file, possibly one written before traced sessions moved to the canonical store. */
  method Load(snap: Snapshot) returns (r: FrontendRegistry, legacy: LegacyPayload)
    ensures fresh(r) && (r.Abs(), legacy) == LoadState(snap)
  {
    var channels := ReadChannels(snap.channels);
    var sessions, traced := ReadSessions(snap.virtualSessions, snap.sessions);
    r := new FrontendRegistry.From(channels, sessions);
    legacy := LegacyPayload(traced, snap.opLog);
  }

  /** A restart: loading whatever a registry persists gives back its state, and the invariant with it. */
  method Restart(r: FrontendRegistry) returns (r': FrontendRegistry)
    requires r.Valid()
    ensures fresh(r') && r'.Valid() && r'.Abs() == r.Abs()
  {
    var snap := r.Persist();
    PersistThenLoad(r.Abs(), snap);
    var legacy;
    r', legacy := Load(snap);
  }
}
