/** Typed edges between memories (crates/domain/src/relation.rs). */
module Relations {
  import opened Basics
  import opened Wrappers

  datatype RelationType = Supports | Contradicts | Supersedes | SupersededBy | RelatedTo {

    predicate IsSymmetric() {
      Supports? || Contradicts? || RelatedTo?
    }

    predicate IsSupersession() {
      Supersedes? || SupersededBy?
    }

    function Inverse(): RelationType {
      match this
      case Supersedes => SupersededBy
      case SupersededBy => Supersedes
      case other => other
    }
  }

  datatype Relation = Relation(
    id: EntityId,
    source: EntityId,
    target: EntityId,
    relationType: RelationType,
    note: Option<string>,
    createdAt: nat)
  {
    function Reverse(): Relation {
      Relation(id, target, source, relationType.Inverse(), note, createdAt)
    }

    /** The fact an edge records, read from either end: (newer, older) for both supersession kinds,
        the unordered pair of endpoints and the kind for the symmetric kinds. */
    ghost function Meaning(): (set<(EntityId, EntityId)>, Option<RelationType>) {
      match relationType
      case Supersedes => ({(source, target)}, None)
      case SupersededBy => ({(target, source)}, None)
      case kind => ({(source, target), (target, source)}, Some(kind))
    }
  }

  /** The edge recorded by a merge. The identifier is a name-based UUID of the two endpoints, here `mint`. */
  function ConsolidationEdge(mint: (EntityId, EntityId) -> EntityId, result: EntityId, source: EntityId, now: nat): Relation {
    Relation(mint(result, source), result, source, Supersedes, Some("consolidated"), now)
  }

  /** Viewing an edge from its other end exchanges the ends, is an involution, and never changes what the edge says. */
  lemma ReverseKeepsMeaning(r: Relation)
    ensures r.Reverse().Reverse() == r
    ensures r.Reverse().Meaning() == r.Meaning()
    ensures r.Reverse().source == r.target && r.Reverse().target == r.source
    ensures r.Reverse() == r <==> r.source == r.target && r.relationType !in {Supersedes, SupersededBy}
    ensures r.Reverse().(source := r.source, target := r.target, relationType := r.relationType) == r
  {
    assert {(r.source, r.target), (r.target, r.source)} == {(r.target, r.source), (r.source, r.target)};
    match r.relationType
    case Supports =>
    case Contradicts =>
    case Supersedes =>
    case SupersededBy =>
    case RelatedTo =>
  }
}
