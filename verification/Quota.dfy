/** Connection, queue and storage quotas (crates/daemon/src/limits.rs). */
module Quota {
  import opened Basics
  import opened Wrappers

  datatype ResourceLimits = ResourceLimits(
    maxClients: nat,
    maxQueuedPerClient: nat,
    maxInFlightStorage: nat,
    maxResponseBytes: nat)

  datatype QuotaError = TooManyClients | ClientQueueFull | StorageBusy

  // ---- The multiset of live connections ----

  function Slots(held: multiset<Key>): set<Key> {
    set k | k in held
  }

  /** A connection on a key already held always gets in; a new key needs a free slot. */
  function Admit(held: multiset<Key>, k: Key, maxClients: nat): (multiset<Key>, Result<(), QuotaError>) {
    if k in held || |Slots(held)| < maxClients then (held + multiset{k}, Ok(())) else (held, Err(TooManyClients))
  }

  /** A slot is freed exactly when the last connection on its key leaves; leaving unheld is a no-op. */
  lemma SlotFreedByLastHolder(held: multiset<Key>, k: Key)
    ensures Slots(held - multiset{k}) == if held[k] == 1 then Slots(held) - {k} else Slots(held)
    ensures |held - multiset{k}| == if k in held then |held| - 1 else |held|
  {
    var after := held - multiset{k};
    assert forall x :: x in after <==> x in held && !(x == k && held[k] == 1);
    if k !in held {
      assert after == held;
    } else {
      assert held == after + multiset{k};
    }
  }

  datatype ConnectionEvent = Connect(key: Key) | Disconnect(key: Key)

  function HeldAfter(es: seq<ConnectionEvent>, maxClients: nat): multiset<Key> {
    if es == [] then multiset{}
    else
      var held := HeldAfter(es[..|es| - 1], maxClients);
      match es[|es| - 1]
      case Connect(k) => Admit(held, k, maxClients).0
      case Disconnect(k) => held - multiset{k}
  }

  /** Over any run the held keys never outnumber the slots, while the connections may. */
  lemma {:induction false} SlotsBounded(es: seq<ConnectionEvent>, maxClients: nat)
    ensures |Slots(HeldAfter(es, maxClients))| <= maxClients
  {
    if es != [] {
      var held := HeldAfter(es[..|es| - 1], maxClients);
      SlotsBounded(es[..|es| - 1], maxClients);
      match es[|es| - 1] {
        case Connect(k) =>
          if k in held {
            assert Slots(held + multiset{k}) == Slots(held);
          } else {
            assert Slots(held + multiset{k}) == Slots(held) + {k};
          }
        case Disconnect(k) => SlotFreedByLastHolder(held, k);
      }
    } else {
      assert Slots(multiset{}) == {};
    }
  }

  /** After any run, a connection is refused, and then nothing changes, exactly if its key has no connection and other
      keys hold all the slots; otherwise there is one connection more on its key. */
  lemma RefusedExactly(es: seq<ConnectionEvent>, maxClients: nat, k: Key)
    ensures
      var held := HeldAfter(es, maxClients);
      var (after, r) := Admit(held, k, maxClients);
      if held[k] == 0 && |set x | x in held| == maxClients then r == Err(TooManyClients) && after == held
      else r == Ok(()) && after == held[k := held[k] + 1]
    ensures HeldAfter(es + [Connect(k)], maxClients) == Admit(HeldAfter(es, maxClients), k, maxClients).0
    ensures HeldAfter(es + [Disconnect(k)], maxClients) == HeldAfter(es, maxClients) - multiset{k}
  {
    SlotsBounded(es, maxClients);
    assert Slots(HeldAfter(es, maxClients)) == set x | x in HeldAfter(es, maxClients);
    assert (es + [Connect(k)])[..|es|] == es && (es + [Disconnect(k)])[..|es|] == es;
  }

  // ---- The tracker ----

  /** Holder counts are multiplicities, and no zero count is stored. */
  ghost predicate Counts(clients: map<Key, nat>, held: multiset<Key>) {
    forall k :: (k in clients <==> k in held) && (k in clients ==> clients[k] == held[k])
  }

  lemma CountsSlots(clients: map<Key, nat>, held: multiset<Key>)
    requires Counts(clients, held)
    ensures |clients| == |Slots(held)|
  {
    assert clients.Keys == Slots(held);
  }

  lemma CountOneMore(clients: map<Key, nat>, held: multiset<Key>, k: Key)
    requires Counts(clients, held)
    ensures Counts(clients[k := (if k in clients then clients[k] else 0) + 1], held + multiset{k})
    ensures Slots(held + multiset{k}) == Slots(held) + {k}
    ensures k in clients ==> Slots(held) + {k} == Slots(held)
  {
  }

  class QuotaTracker {
    const limits: ResourceLimits
    var queued: map<FrontendId, nat>
    var clients: map<Key, nat>
    var inFlight: nat
    /** The live connections, one element each. */
    ghost var held: multiset<Key>

    ghost predicate Valid()
      reads this
    {
      && Counts(clients, held) && |Slots(held)| <= limits.maxClients
      && (forall f :: f in queued ==> queued[f] <= limits.maxQueuedPerClient && (queued[f] == 0 ==> limits.maxQueuedPerClient == 0))
      && inFlight <= limits.maxInFlightStorage
    }

    ghost function Queued(f: FrontendId): nat
      reads this
    {
      if f in queued then queued[f] else 0
    }

    constructor (limits: ResourceLimits)
      ensures Valid() && held == multiset{} && queued == map[] && inFlight == 0 && this.limits == limits
    {
      this.limits := limits;
      queued, clients, inFlight, held := map[], map[], 0, multiset{};
      new;
      assert Slots(held) == {};
    }

    method RegisterClient(frontend: FrontendId, channel: ChannelId) returns (r: Result<(), QuotaError>)
      requires Valid()
      modifies this`clients, this`held
      ensures Valid()
      ensures (held, r) == Admit(old(held), (frontend, channel), limits.maxClients)
    {
      var key := (frontend, channel);
      CountsSlots(clients, held);
      CountOneMore(clients, held, key);
      if key in clients {
        clients := clients[key := clients[key] + 1];
        held := held + multiset{key};
        return Ok(());
      }
      if |clients| >= limits.maxClients {
        return Err(TooManyClients);
      }
      clients := clients[key := 1];
      held := held + multiset{key};
      return Ok(());
    }

    method UnregisterClient(frontend: FrontendId, channel: ChannelId)
      requires Valid()
      modifies this`clients, this`held
      ensures Valid() && held == old(held) - multiset{(frontend, channel)}
    {
      var key := (frontend, channel);
      SlotFreedByLastHolder(held, key);
      if key in clients {
        var holders := clients[key] - 1;
        clients := clients[key := holders];
        if holders == 0 {
          clients := clients - {key};
        }
      }
      held := held - multiset{key};
    }

    /** The entry is created before the check, so with a limit of zero a zero entry stays behind. */
    method TryEnqueue(frontend: FrontendId) returns (r: Result<(), QuotaError>)
      requires Valid()
      modifies this`queued
      ensures Valid()
      ensures r == if old(Queued(frontend)) < limits.maxQueuedPerClient then Ok(()) else Err(ClientQueueFull)
      ensures Queued(frontend) == old(Queued(frontend)) + if r.Ok? then 1 else 0
      ensures frontend in queued && (queued[frontend] == 0 <==> limits.maxQueuedPerClient == 0)
      ensures frontend !in old(queued) && r.Ok? ==> queued[frontend] == 1
      ensures frontend in old(queued) && r.Ok? ==> queued[frontend] == old(queued)[frontend] + 1
      ensures forall f :: f != frontend ==> Queued(f) == old(Queued(f)) && (f in queued <==> f in old(queued))
    {
      if frontend !in queued {
        queued := queued[frontend := 0];
      }
      if queued[frontend] >= limits.maxQueuedPerClient {
        return Err(ClientQueueFull);
      }
      queued := queued[frontend := queued[frontend] + 1];
      return Ok(());
    }

    method Dequeue(frontend: FrontendId)
      requires Valid()
      modifies this`queued
      ensures Valid()
      ensures Queued(frontend) == if old(Queued(frontend)) == 0 then 0 else old(Queued(frontend)) - 1
      ensures Queued(frontend) == 0 ==> frontend !in queued
      ensures frontend in queued <==> frontend in old(queued) && old(queued)[frontend] > 1
      ensures frontend in queued ==> queued[frontend] == old(queued)[frontend] - 1
      ensures forall f :: f != frontend ==> Queued(f) == old(Queued(f)) && (f in queued <==> f in old(queued))
    {
      if frontend in queued {
        var count := if queued[frontend] == 0 then 0 else queued[frontend] - 1;
        queued := queued[frontend := count];
        if count == 0 {
          queued := queued - {frontend};
        }
      }
    }

    method TryStartStorage() returns (r: Result<(), QuotaError>)
      requires Valid()
      modifies this`inFlight
      ensures Valid()
      ensures r == if old(inFlight) < limits.maxInFlightStorage then Ok(()) else Err(StorageBusy)
      ensures inFlight == old(inFlight) + if r.Ok? then 1 else 0
    {
      if inFlight >= limits.maxInFlightStorage {
        return Err(StorageBusy);
      }
      inFlight := inFlight + 1;
      return Ok(());
    }

    method FinishStorage()
      requires Valid()
      modifies this`inFlight
      ensures Valid() && inFlight == if old(inFlight) == 0 then 0 else old(inFlight) - 1
    {
      inFlight := if inFlight == 0 then 0 else inFlight - 1;
    }

    /** Summing the holder counts, in whatever order, counts every live connection. */
    method ClientCount() returns (n: nat)
      requires Valid()
      ensures n == |held|
    {
      n := 0;
      var keys := clients.Keys;
      ghost var rest := held;
      while keys != {}
        invariant keys <= clients.Keys && n + |rest| == |held|
        invariant forall k :: rest[k] == if k in keys then held[k] else 0
        decreases keys
      {
        var k :| k in keys;
        keys := keys - {k};
        n := n + clients[k];
        assert rest == rest[k := 0] + multiset{}[k := held[k]];
        rest := rest[k := 0];
      }
      assert rest == multiset{};
    }
  }
}
