/** Edge admission and the supersession cycle check (crates/domain/src/graph.rs). */
module SupersessionGraph {
  import opened Basics
  import opened Wrappers
  import opened Relations

  datatype DomainError = SelfSupersession | NotFound | DuplicateEdge | SupersessionCycle

  datatype GraphValidation = Accept | Reject(code: DomainError)

  type Edges = set<(EntityId, EntityId)>

  // ---- Paths and cycles in a finite edge set ----

  ghost predicate IsPath(E: Edges, p: seq<EntityId>) {
    p != [] && forall i :: 0 <= i < |p| - 1 ==> (p[i], p[i + 1]) in E
  }

  ghost predicate Connects(E: Edges, p: seq<EntityId>, a: EntityId, b: EntityId) {
    IsPath(E, p) && p[0] == a && p[|p| - 1] == b
  }

  /** b can be reached from a by zero or more edges. */
  ghost predicate Reaches(E: Edges, a: EntityId, b: EntityId) {
    exists p :: Connects(E, p, a, b)
  }

  ghost predicate Acyclic(E: Edges) {
    forall a, b :: (a, b) in E ==> !Reaches(E, b, a)
  }

  lemma ReachesSelf(E: Edges, a: EntityId)
    ensures Reaches(E, a, a)
  {
    assert Connects(E, [a], a, a);
  }

  lemma ReachesTransitive(E: Edges, a: EntityId, b: EntityId, c: EntityId)
    requires Reaches(E, a, b) && Reaches(E, b, c)
    ensures Reaches(E, a, c)
  {
    var p :| Connects(E, p, a, b);
    var q :| Connects(E, q, b, c);
    assert Connects(E, p + q[1..], a, c);
  }

  lemma ReachesEdge(E: Edges, a: EntityId, b: EntityId)
    requires (a, b) in E
    ensures Reaches(E, a, b)
  {
    assert Connects(E, [a, b], a, b);
  }

  lemma ReachesMonotone(E: Edges, F: Edges, a: EntityId, b: EntityId)
    requires E <= F && Reaches(E, a, b)
    ensures Reaches(F, a, b)
  {
    var p :| Connects(E, p, a, b);
    assert Connects(F, p, a, b);
  }

  /** A set that is closed under the edges, except perhaps out of `wall`, contains every node
      reachable without having to leave `wall`. */
  lemma {:induction false} ClosedSetTrapsPath(E: Edges, closed: set<EntityId>, wall: EntityId, p: seq<EntityId>)
    requires IsPath(E, p) && p[0] in closed && wall !in closed
    requires forall a, b :: a in closed && (a, b) in E ==> b in closed || a == wall
    ensures p[|p| - 1] in closed
  {
    if |p| > 1 {
      assert (p[0], p[0 + 1]) in E;
      assert IsPath(E, p[1..]) by {
        forall i | 0 <= i < |p[1..]| - 1 ensures (p[1..][i], p[1..][i + 1]) in E {
          assert (p[i + 1], p[i + 1 + 1]) in E;
        }
      }
      ClosedSetTrapsPath(E, closed, wall, p[1..]);
    }
  }

  /** A path that may use the extra edge (s, t) either avoids it or visits s before and t after. */
  lemma {:induction false} PathThroughNewEdge(E: Edges, s: EntityId, t: EntityId, p: seq<EntityId>)
    requires IsPath(E + {(s, t)}, p)
    ensures Reaches(E, p[0], p[|p| - 1]) || (Reaches(E, p[0], s) && Reaches(E, t, p[|p| - 1]))
  {
    var z := p[|p| - 1];
    if |p| == 1 {
      ReachesSelf(E, z);
    } else {
      var q := p[1..];
      assert IsPath(E + {(s, t)}, q) by {
        forall i | 0 <= i < |q| - 1 ensures (q[i], q[i + 1]) in E + {(s, t)} {
          assert (p[i + 1], p[i + 1 + 1]) in E + {(s, t)};
        }
      }
      PathThroughNewEdge(E, s, t, q);
      assert (p[0], p[0 + 1]) in E + {(s, t)};
      if (p[0], p[1]) in E {
        ReachesEdge(E, p[0], p[1]);
        if Reaches(E, q[0], z) {
          ReachesTransitive(E, p[0], p[1], z);
        } else {
          ReachesTransitive(E, p[0], p[1], s);
        }
      } else {
        ReachesSelf(E, s);
      }
    }
  }

  /** Inserting an edge keeps a graph acyclic exactly when its target does not already reach its source. */
  lemma AcyclicAfterInsert(E: Edges, s: EntityId, t: EntityId)
    ensures Acyclic(E + {(s, t)}) <==> Acyclic(E) && !Reaches(E, t, s)
  {
    var F := E + {(s, t)};
    if Acyclic(E) && !Reaches(E, t, s) {
      forall a, b | (a, b) in F ensures !Reaches(F, b, a) {
        if Reaches(F, b, a) {
          var p :| Connects(F, p, b, a);
          PathThroughNewEdge(E, s, t, p);
          if (a, b) in E {
            ReachesEdge(E, a, b);
            ReachesTransitive(E, t, a, b);
            ReachesTransitive(E, t, b, s);
          }
        }
      }
    }
    if Acyclic(F) {
      assert (s, t) in F;
      if Reaches(E, t, s) {
        ReachesMonotone(E, F, t, s);
      }
      forall a, b | (a, b) in E ensures !Reaches(E, b, a) {
        assert (a, b) in F;
        if Reaches(E, b, a) {
          ReachesMonotone(E, F, b, a);
        }
      }
    }
  }

  lemma AcyclicSubset(E: Edges, F: Edges)
    requires E <= F && Acyclic(F)
    ensures Acyclic(E)
  {
    forall a, b | (a, b) in E ensures !Reaches(E, b, a) {
      assert (a, b) in F;
      if Reaches(E, b, a) {
        ReachesMonotone(E, F, b, a);
      }
    }
  }

  lemma LastEdge(E: Edges, p: seq<EntityId>)
    requires IsPath(E, p) && |p| > 1
    ensures (p[|p| - 2], p[|p| - 1]) in E
  {
    var i := |p| - 2;
    assert (p[i], p[i + 1]) in E;
  }

  lemma NothingPointsAt(E: Edges, a: EntityId, b: EntityId)
    requires forall c :: (c, b) !in E
    ensures Reaches(E, a, b) <==> a == b
  {
    if Reaches(E, a, b) {
      var p :| Connects(E, p, a, b);
      if |p| > 1 {
        LastEdge(E, p);
      }
    }
    ReachesSelf(E, b);
  }

  // ---- The cycle check ----

  /** Raw source-to-target pairs of both supersession kinds: what the code checks. */
  function RawEdges(rs: seq<Relation>): Edges {
    set r | r in rs && r.relationType.IsSupersession() :: (r.source, r.target)
  }

  /** (newer, older) pairs: SupersededBy edges read backwards. The code does not check these. */
  function NormalisedEdges(rs: seq<Relation>): Edges {
    set r | r in rs && r.relationType.IsSupersession() :: NormalisedEnds(r)
  }

  function NormalisedEnds(r: Relation): (EntityId, EntityId) {
    if r.relationType.SupersededBy? then (r.target, r.source) else (r.source, r.target)
  }

  type Adjacency = map<EntityId, seq<EntityId>>

  ghost predicate Represents(adj: Adjacency, E: Edges) {
    forall a, b :: (a, b) in E <==> a in adj && b in adj[a]
  }

  function PushEdge(adj: Adjacency, a: EntityId, b: EntityId): Adjacency {
    adj[a := (if a in adj then adj[a] else []) + [b]]
  }

  method BuildAdjacency(existing: seq<Relation>) returns (adj: Adjacency)
    ensures Represents(adj, RawEdges(existing))
  {
    adj := map[];
    for i := 0 to |existing|
      invariant Represents(adj, RawEdges(existing[..i]))
    {
      var e := existing[i];
      assert existing[..i + 1] == existing[..i] + [e];
      if e.relationType.IsSupersession() {
        assert RawEdges(existing[..i + 1]) == RawEdges(existing[..i]) + {(e.source, e.target)};
        adj := PushEdge(adj, e.source, e.target);
      } else {
        assert RawEdges(existing[..i + 1]) == RawEdges(existing[..i]);
      }
    }
    assert existing[..|existing|] == existing;
  }

  /** Every node that can ever be on the search stack. */
  ghost function SearchNodes(E: Edges, start: EntityId): set<EntityId> {
    {start} + set e | e in E :: e.1
  }

  /** Depth-first search with a stack on which a node may sit several times. */
  method FormsSupersessionCycle(added: Relation, existing: seq<Relation>) returns (cycle: bool)
    ensures cycle <==> Reaches(RawEdges(existing), added.target, added.source)
  {
    ghost var E := RawEdges(existing);
    var adj := BuildAdjacency(existing);
    adj := PushEdge(adj, added.source, added.target);
    ghost var F := E + {(added.source, added.target)};
    assert Represents(adj, F);
    ghost var nodes := SearchNodes(F, added.target);

    var visited: set<EntityId> := {};
    var stack := [added.target];
    ReachesSelf(E, added.target);
    while stack != []
      invariant visited <= nodes && added.source !in visited
      invariant forall n :: n in stack ==> n in nodes && Reaches(E, added.target, n)
      invariant forall n :: n in visited ==> Reaches(E, added.target, n)
      invariant added.target in visited || added.target in stack
      invariant forall a, b :: a in visited && (a, b) in E ==> b in visited || b in stack
      decreases nodes - visited, |stack|
    {
      var node := stack[|stack| - 1];
      ghost var before := stack;
      stack := stack[..|stack| - 1];
      assert before == stack + [node];
      if node == added.source {
        return true;
      }
      if node in visited {
        continue;
      }
      visited := visited + {node};
      if node in adj {
        var nexts := adj[node];
        forall n | n in nexts ensures n in nodes && Reaches(E, added.target, n) {
          assert (node, n) in F;
          ReachesEdge(E, node, n);
          ReachesTransitive(E, added.target, node, n);
        }
        stack := stack + nexts;
      }
      assert forall b :: (node, b) in E ==> (node, b) in F && b in stack;
    }
    if Reaches(E, added.target, added.source) {
      var p :| Connects(E, p, added.target, added.source);
      ClosedSetTrapsPath(E, visited, added.source, p);
      assert false;
    }
    return false;
  }

  // ---- Admission ----

  predicate SameEdge(e: Relation, r: Relation) {
    e.source == r.source && e.target == r.target && e.relationType == r.relationType
  }

  predicate ReversedSymmetric(e: Relation, r: Relation) {
    r.relationType.IsSymmetric() && e.source == r.target && e.target == r.source && e.relationType == r.relationType
  }

  /** The verdict, with the order in which the code reports errors. */
  ghost function Verdict(r: Relation, existing: seq<Relation>, live: EntityId -> bool): GraphValidation {
    if r.source == r.target && r.relationType.IsSupersession() then Reject(SelfSupersession)
    else if !live(r.source) || !live(r.target) then Reject(NotFound)
    else if exists e :: e in existing && (SameEdge(e, r) || ReversedSymmetric(e, r)) then Reject(DuplicateEdge)
    else if r.relationType.IsSupersession() && Reaches(RawEdges(existing), r.target, r.source) then Reject(SupersessionCycle)
    else Accept
  }

  // The four reasons to refuse an edge, in terms of endpoints and kinds.

  predicate SupersedesItself(r: Relation) {
    r.source == r.target && (r.relationType == Supersedes || r.relationType == SupersededBy)
  }

  predicate DeadEnd(r: Relation, live: EntityId -> bool) {
    !(live(r.source) && live(r.target))
  }

  predicate Repeats(e: Relation, r: Relation) {
    && e.relationType == r.relationType
    && (|| (e.source == r.source && e.target == r.target)
        || (e.source == r.target && e.target == r.source
            && (r.relationType == Supports || r.relationType == Contradicts || r.relationType == RelatedTo)))
  }

  ghost predicate SupersessionStep(existing: seq<Relation>, a: EntityId, b: EntityId) {
    exists e :: e in existing && (e.relationType == Supersedes || e.relationType == SupersededBy) && e.source == a && e.target == b
  }

  /** Stored supersession edges lead from the target of r, by way of p, to its source. */
  ghost predicate LeadsBack(r: Relation, existing: seq<Relation>, p: seq<EntityId>) {
    && p != [] && p[0] == r.target && p[|p| - 1] == r.source
    && forall i :: 0 <= i < |p| - 1 ==> SupersessionStep(existing, p[i], p[i + 1])
  }

  ghost predicate ClosesCycle(r: Relation, existing: seq<Relation>) {
    (r.relationType == Supersedes || r.relationType == SupersededBy) && exists p :: LeadsBack(r, existing, p)
  }

  lemma StepsAreRawEdges(existing: seq<Relation>, a: EntityId, b: EntityId)
    ensures SupersessionStep(existing, a, b) <==> (a, b) in RawEdges(existing)
  {
    if (a, b) in RawEdges(existing) {
      var e :| e in existing && e.relationType.IsSupersession() && (e.source, e.target) == (a, b);
    }
  }

  lemma LeadsBackIff(r: Relation, existing: seq<Relation>, p: seq<EntityId>)
    ensures LeadsBack(r, existing, p) <==> Connects(RawEdges(existing), p, r.target, r.source)
  {
    forall a: EntityId, b: EntityId ensures SupersessionStep(existing, a, b) <==> (a, b) in RawEdges(existing) {
      StepsAreRawEdges(existing, a, b);
    }
  }

  lemma ClosesCycleIff(r: Relation, existing: seq<Relation>)
    ensures ClosesCycle(r, existing) <==> r.relationType.IsSupersession() && Reaches(RawEdges(existing), r.target, r.source)
  {
    if p :| LeadsBack(r, existing, p) {
      LeadsBackIff(r, existing, p);
    }
    if p :| Connects(RawEdges(existing), p, r.target, r.source) {
      LeadsBackIff(r, existing, p);
    }
  }

  lemma RepeatsIff(e: Relation, r: Relation)
    ensures Repeats(e, r) <==> SameEdge(e, r) || ReversedSymmetric(e, r)
  {
  }

  /** Each error is reported exactly when its reason holds and no reason before it does. */
  lemma VerdictExact(r: Relation, existing: seq<Relation>, live: EntityId -> bool)
    ensures
      var v := Verdict(r, existing, live);
      var repeated := exists e :: e in existing && Repeats(e, r);
      && (v == Reject(SelfSupersession) <==> SupersedesItself(r))
      && (v == Reject(NotFound) <==> !SupersedesItself(r) && DeadEnd(r, live))
      && (v == Reject(DuplicateEdge) <==> !SupersedesItself(r) && !DeadEnd(r, live) && repeated)
      && (v == Reject(SupersessionCycle) <==>
            !SupersedesItself(r) && !DeadEnd(r, live) && !repeated && ClosesCycle(r, existing))
      && (v == Accept <==> !SupersedesItself(r) && !DeadEnd(r, live) && !repeated && !ClosesCycle(r, existing))
  {
    forall e ensures Repeats(e, r) <==> SameEdge(e, r) || ReversedSymmetric(e, r) {
      RepeatsIff(e, r);
    }
    ClosesCycleIff(r, existing);
  }

  method ValidateNewEdge(r: Relation, existing: seq<Relation>, live: EntityId -> bool) returns (v: GraphValidation)
    ensures v == Verdict(r, existing, live)
  {
    if r.source == r.target && r.relationType.IsSupersession() {
      return Reject(SelfSupersession);
    }
    if !live(r.source) || !live(r.target) {
      return Reject(NotFound);
    }
    for i := 0 to |existing|
      invariant forall j :: 0 <= j < i ==> !SameEdge(existing[j], r) && !ReversedSymmetric(existing[j], r)
    {
      if SameEdge(existing[i], r) || ReversedSymmetric(existing[i], r) {
        return Reject(DuplicateEdge);
      }
    }
    if r.relationType.IsSupersession() {
      var cycle := FormsSupersessionCycle(r, existing);
      if cycle {
        return Reject(SupersessionCycle);
      }
    }
    return Accept;
  }

  // ---- What every store of admitted edges satisfies ----

  /** Stated without reference to the admission code. */
  ghost predicate WellFormed(store: seq<Relation>) {
    && Acyclic(RawEdges(store))
    && (forall i, j :: 0 <= i < j < |store| ==> !SameEdge(store[i], store[j]))
    && (forall i, j :: 0 <= i < j < |store| ==> !ReversedSymmetric(store[i], store[j]))
  }

  /** Admission is exact: on a well-formed store an edge is accepted if and only if its endpoints are
      live and the store stays well formed with it. */
  lemma AcceptedIffStaysWellFormed(r: Relation, store: seq<Relation>, live: EntityId -> bool)
    requires WellFormed(store)
    ensures Verdict(r, store, live).Accept? <==> live(r.source) && live(r.target) && WellFormed(store + [r])
  {
    var E := RawEdges(store);
    var next := store + [r];
    if r.relationType.IsSupersession() {
      assert RawEdges(next) == E + {(r.source, r.target)};
      AcyclicAfterInsert(E, r.source, r.target);
      ReachesSelf(E, r.source);
    } else {
      assert RawEdges(next) == E;
    }
    if exists e :: e in store && (SameEdge(e, r) || ReversedSymmetric(e, r)) {
      var i :| 0 <= i < |store| && (SameEdge(store[i], r) || ReversedSymmetric(store[i], r));
      assert next[i] == store[i] && next[|store|] == r;
    } else {
      assert forall i :: 0 <= i < |store| ==> next[i] in store;
    }
  }

  datatype Change = Add(r: Relation, live: EntityId -> bool) | Remove(index: nat)

  ghost function Apply(store: seq<Relation>, c: Change): seq<Relation> {
    match c
    case Add(r, live) => if Verdict(r, store, live).Accept? then store + [r] else store
    case Remove(k) => if k < |store| then store[..k] + store[k + 1..] else store
  }

  ghost function RunChanges(cs: seq<Change>): seq<Relation> {
    if cs == [] then [] else Apply(RunChanges(cs[..|cs| - 1]), cs[|cs| - 1])
  }

  lemma RemovalKeepsWellFormed(store: seq<Relation>, k: nat)
    requires WellFormed(store) && k < |store|
    ensures WellFormed(store[..k] + store[k + 1..])
  {
    var next := store[..k] + store[k + 1..];
    assert forall r :: r in next ==> r in store;
    AcyclicSubset(RawEdges(next), RawEdges(store));
    forall i, j | 0 <= i < j < |next|
      ensures !SameEdge(next[i], next[j]) && !ReversedSymmetric(next[i], next[j])
    {
      var i', j' := if i < k then i else i + 1, if j < k then j else j + 1;
      assert next[i] == store[i'] && next[j] == store[j'];
    }
  }

  /** Starting empty, any run of attempted additions (with any liveness at each) and removals leaves
      the raw graph acyclic and free of duplicates. */
  lemma {:induction false} EveryRunWellFormed(cs: seq<Change>)
    ensures WellFormed(RunChanges(cs))
  {
    if cs == [] {
      assert RawEdges([]) == {};
    } else {
      var store, c := RunChanges(cs[..|cs| - 1]), cs[|cs| - 1];
      EveryRunWellFormed(cs[..|cs| - 1]);
      match c {
        case Add(r, live) => AcceptedIffStaysWellFormed(r, store, live);
        case Remove(k) => if k < |store| { RemovalKeepsWellFormed(store, k); }
      }
    }
  }

  // ---- The normalised graph is not protected ----

  /** Two admissible edges that together say each of two memories supersedes the other. */
  lemma NormalisedCycleIsAdmitted(live: EntityId -> bool)
    requires live(1) && live(2)
    ensures
      var forward := Relation(10, 1, 2, Supersedes, None, 1);
      var backward := Relation(11, 1, 2, SupersededBy, None, 1);
      && RunChanges([Add(forward, live), Add(backward, live)]) == [forward, backward]
      && !Acyclic(NormalisedEdges([forward, backward]))
  {
    var forward := Relation(10, 1, 2, Supersedes, None, 1);
    var backward := Relation(11, 1, 2, SupersededBy, None, 1);
    assert RawEdges([]) == {};
    NothingPointsAt({}, 2, 1);
    assert Verdict(forward, [], live).Accept?;
    assert RunChanges([Add(forward, live)]) == [forward] by {
      assert [Add(forward, live)][..0] == [];
    }
    assert RawEdges([forward]) == {(1, 2)};
    AcyclicAfterInsert({}, 1, 2);
    assert {} + {(1, 2)} == {(1, 2)};
    assert Verdict(backward, [forward], live).Accept? by {
      assert Acyclic({(1, 2)});
      assert (1, 2) in {(1, 2)};
    }
    assert [Add(forward, live), Add(backward, live)][..1] == [Add(forward, live)];
    var N := NormalisedEdges([forward, backward]);
    assert NormalisedEnds(forward) == (1, 2) && NormalisedEnds(backward) == (2, 1);
    assert forward in [forward, backward] && backward in [forward, backward];
    assert (1, 2) in N && (2, 1) in N;
    ReachesEdge(N, 2, 1);
  }

  /** Exactly when an accepted supersession edge keeps the normalised graph acyclic: when the older
      memory does not already supersede the newer one, both read in normalised direction. */
  lemma NormalisedAcyclicIff(r: Relation, store: seq<Relation>)
    requires r.relationType.IsSupersession()
    ensures Acyclic(NormalisedEdges(store + [r])) <==>
              && Acyclic(NormalisedEdges(store))
              && !Reaches(NormalisedEdges(store), NormalisedEnds(r).1, NormalisedEnds(r).0)
  {
    var (newer, older) := NormalisedEnds(r);
    assert NormalisedEdges(store + [r]) == NormalisedEdges(store) + {(newer, older)};
    AcyclicAfterInsert(NormalisedEdges(store), newer, older);
  }

  // ---- Merges ----

  /** A merge records one consolidation edge per source, in order, and fails at the first rejection. */
  ghost function Merge(mint: (EntityId, EntityId) -> EntityId, store: seq<Relation>, result: EntityId,
                       sources: seq<EntityId>, live: EntityId -> bool, now: nat): Option<seq<Relation>>
    decreases |sources|
  {
    if sources == [] then Some(store)
    else
      var e := ConsolidationEdge(mint, result, sources[0], now);
      if Verdict(e, store, live).Accept? then Merge(mint, store + [e], result, sources[1..], live, now) else None
  }

  /** One edge from the result to each source, in order. */
  function MergeEdges(mint: (EntityId, EntityId) -> EntityId, result: EntityId, sources: seq<EntityId>, now: nat): seq<Relation> {
    seq(|sources|, i requires 0 <= i < |sources| =>
      Relation(mint(result, sources[i]), result, sources[i], Supersedes, Some("consolidated"), now))
  }

  /** The result of a merge is new: nothing points at it, and it points only at `done`. */
  ghost predicate FreshResult(store: seq<Relation>, result: EntityId, done: set<EntityId>) {
    && (forall r :: r in store ==> r.target != result)
    && (forall r :: r in store && r.source == result ==> r.relationType == Supersedes && r.target in done)
    && (forall x :: x in done ==> exists r :: r in store && r.source == result && r.target == x && r.relationType == Supersedes)
  }

  ghost predicate MergeableSources(result: EntityId, sources: seq<EntityId>, done: set<EntityId>, live: EntityId -> bool) {
    && (forall i :: 0 <= i < |sources| ==> live(result) && live(sources[i]) && sources[i] != result && sources[i] !in done)
    && (forall i, j :: 0 <= i < j < |sources| ==> sources[i] != sources[j])
  }

  /** Into a result nothing refers to yet, a merge succeeds if and only if the result and its sources are
      live, and the sources are distinct and different from the result and from those merged already. */
  lemma {:induction false} MergeSucceedsIff(mint: (EntityId, EntityId) -> EntityId, store: seq<Relation>, result: EntityId,
                                            sources: seq<EntityId>, live: EntityId -> bool, now: nat, done: set<EntityId>)
    requires FreshResult(store, result, done)
    ensures Merge(mint, store, result, sources, live, now).Some? <==> MergeableSources(result, sources, done, live)
    ensures
      var merged := Merge(mint, store, result, sources, live, now);
      merged.Some? ==> merged.value == store + MergeEdges(mint, result, sources, now)
    decreases |sources|
  {
    if sources == [] {
    } else {
      var x := sources[0];
      var e := ConsolidationEdge(mint, result, x, now);
      NothingPointsAt(RawEdges(store), x, result);
      if x in done {
        var r :| r in store && r.source == result && r.target == x && r.relationType == Supersedes;
        assert SameEdge(r, e);
      }
      if Verdict(e, store, live).Accept? {
        assert x != result && x !in done;
        assert e in store + [e];
        assert FreshResult(store + [e], result, done + {x});
        MergeSucceedsIff(mint, store + [e], result, sources[1..], live, now, done + {x});
        assert sources == [x] + sources[1..];
        MergeableCons(result, x, sources[1..], done, live);
      }
    }
  }

  lemma MergeableCons(result: EntityId, x: EntityId, rest: seq<EntityId>, done: set<EntityId>, live: EntityId -> bool)
    requires live(result) && live(x) && x != result && x !in done
    ensures MergeableSources(result, [x] + rest, done, live) <==> MergeableSources(result, rest, done + {x}, live)
  {
    var all := [x] + rest;
    assert forall i :: 0 <= i < |rest| ==> all[i + 1] == rest[i];
    if MergeableSources(result, all, done, live) {
      forall i | 0 <= i < |rest| ensures rest[i] != x && live(rest[i]) && rest[i] != result && rest[i] !in done {
        assert all[0] != all[i + 1];
      }
      forall i, j | 0 <= i < j < |rest| ensures rest[i] != rest[j] {
        assert all[i + 1] != all[j + 1];
      }
    }
  }
}
