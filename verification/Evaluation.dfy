/** Corpus validation and the aggregation of case scores over a split (src/bench/quality.rs). */
module Evaluation {
  import opened Basics
  import opened Ndcg

  const CORPUS_VERSION: nat := 1

  datatype Split = Dev | Heldout

  datatype CaseKind = Exact | Paraphrase | CrossLanguage | NoAnswer | Obsolete | Conflict | ScopeTrap | TimeFilter

  /** `labels` are the ids and the budget a case is scored by. */
  datatype Case = Case(id: string, kind: CaseKind, topic: string, project: string, split: Split, labels: QueryCase)

  /** Of a document only its id is read here. */
  datatype Corpus = Corpus(version: nat, documents: seq<DocId>, cases: seq<Case>)

  // ---- Validation ----

  /** One per message. */
  datatype Violation =
    | WrongVersion
    | DuplicateDocument(doc: DocId)
    | UnknownId(citing: string, cited: DocId)
    | NoCases
    | DuplicateCase(caseId: string)
    | ZeroTopK(caseId: string)
    | SharedTopic(topic: string)
    | SharedProject(project: string)

  function Cited(c: Case): seq<DocId> {
    c.labels.relevant + c.labels.mustInclude + c.labels.mustExclude + c.labels.obsoleteIds
  }

  /** Any of the four lists of the case names the id. */
  predicate Cites(c: Case, x: DocId) {
    x in c.labels.relevant || x in c.labels.mustInclude || x in c.labels.mustExclude || x in c.labels.obsoleteIds
  }

  lemma CitedIff(c: Case, x: DocId)
    ensures x in Cited(c) <==> Cites(c, x)
  {
  }

  ghost predicate RepeatedDocument(docs: seq<DocId>, x: DocId) {
    exists i, j :: 0 <= i < j < |docs| && docs[i] == docs[j] == x
  }

  ghost predicate RepeatedCase(cases: seq<Case>, x: string) {
    exists i, j :: 0 <= i < j < |cases| && cases[i].id == cases[j].id == x
  }

  ghost predicate TopicIn(cases: seq<Case>, t: string, s: Split) {
    exists i :: 0 <= i < |cases| && cases[i].topic == t && cases[i].split == s
  }

  ghost predicate ProjectIn(cases: seq<Case>, p: string, s: Split) {
    exists i :: 0 <= i < |cases| && cases[i].project == p && cases[i].split == s
  }

  /** What a message says of the corpus. */
  ghost predicate Violates(c: Corpus, v: Violation) {
    match v
    case WrongVersion => c.version != CORPUS_VERSION
    case DuplicateDocument(x) => RepeatedDocument(c.documents, x)
    case UnknownId(id, x) => x !in c.documents && exists i :: 0 <= i < |c.cases| && c.cases[i].id == id && Cites(c.cases[i], x)
    case NoCases => c.cases == []
    case DuplicateCase(x) => RepeatedCase(c.cases, x)
    case ZeroTopK(id) => exists i :: 0 <= i < |c.cases| && c.cases[i].id == id && c.cases[i].labels.topK == 0
    case SharedTopic(t) => TopicIn(c.cases, t, Dev) && TopicIn(c.cases, t, Heldout)
    case SharedProject(p) => ProjectIn(c.cases, p, Dev) && ProjectIn(c.cases, p, Heldout)
  }

  function DocumentMessages(docs: seq<DocId>): seq<Violation> {
    if docs == [] then []
    else
      var init, last := docs[..|docs| - 1], docs[|docs| - 1];
      DocumentMessages(init) + if last in init then [DuplicateDocument(last)] else []
  }

  method CheckDocuments(docs: seq<DocId>) returns (errors: seq<Violation>)
    ensures errors == DocumentMessages(docs)
  {
    errors := [];
    var seen: set<DocId> := {};
    for n := 0 to |docs|
      invariant forall x :: x in seen <==> x in docs[..n]
      invariant errors == DocumentMessages(docs[..n])
    {
      var doc := docs[n];
      assert docs[..n + 1] == docs[..n] + [doc];
      if doc in seen {
        errors := errors + [DuplicateDocument(doc)];
      }
      seen := seen + {doc};
    }
    assert docs[..|docs|] == docs;
  }

  lemma OneMoreDocument(docs: seq<DocId>, doc: DocId)
    ensures forall x :: RepeatedDocument(docs + [doc], x) <==> RepeatedDocument(docs, x) || (x == doc && doc in docs)
  {
    var all := docs + [doc];
    forall x ensures RepeatedDocument(all, x) <==> RepeatedDocument(docs, x) || (x == doc && doc in docs) {
      if RepeatedDocument(docs, x) {
        var i, j :| 0 <= i < j < |docs| && docs[i] == docs[j] == x;
        assert all[i] == all[j] == x;
      }
      if x == doc && doc in docs {
        var i :| 0 <= i < |docs| && docs[i] == doc;
        assert all[i] == all[|docs|] == x;
      }
    }
  }

  lemma {:induction false} DocumentMessagesExact(docs: seq<DocId>, v: Violation)
    ensures v in DocumentMessages(docs) <==> v.DuplicateDocument? && RepeatedDocument(docs, v.doc)
  {
    if docs == [] {
    } else {
      var init, last := docs[..|docs| - 1], docs[|docs| - 1];
      assert docs == init + [last];
      DocumentMessagesExact(init, v);
      OneMoreDocument(init, last);
    }
  }

  ghost predicate CitesUnknown(cases: seq<Case>, docs: seq<DocId>, id: string, x: DocId) {
    x !in docs && exists i :: 0 <= i < |cases| && cases[i].id == id && Cites(cases[i], x)
  }

  function UnknownMessages(id: string, cited: seq<DocId>, docs: seq<DocId>): seq<Violation> {
    if cited == [] then []
    else
      var init, last := cited[..|cited| - 1], cited[|cited| - 1];
      UnknownMessages(id, init, docs) + if last in docs then [] else [UnknownId(id, last)]
  }

  function CitationMessages(cases: seq<Case>, docs: seq<DocId>): seq<Violation> {
    if cases == [] then []
    else
      var init, last := cases[..|cases| - 1], cases[|cases| - 1];
      CitationMessages(init, docs) + UnknownMessages(last.id, Cited(last), docs)
  }

  method CheckCited(id: string, cited: seq<DocId>, docs: seq<DocId>) returns (errors: seq<Violation>)
    ensures errors == UnknownMessages(id, cited, docs)
  {
    errors := [];
    for m := 0 to |cited|
      invariant errors == UnknownMessages(id, cited[..m], docs)
    {
      assert cited[..m + 1] == cited[..m] + [cited[m]];
      if cited[m] !in docs {
        errors := errors + [UnknownId(id, cited[m])];
      }
    }
    assert cited[..|cited|] == cited;
  }

  method CheckCitations(cases: seq<Case>, docs: seq<DocId>) returns (errors: seq<Violation>)
    ensures errors == CitationMessages(cases, docs)
  {
    errors := [];
    for n := 0 to |cases|
      invariant errors == CitationMessages(cases[..n], docs)
    {
      var more := CheckCited(cases[n].id, Cited(cases[n]), docs);
      assert cases[..n + 1] == cases[..n] + [cases[n]];
      errors := errors + more;
    }
    assert cases[..|cases|] == cases;
  }

  lemma {:induction false} UnknownMessagesExact(id: string, cited: seq<DocId>, docs: seq<DocId>, v: Violation)
    ensures v in UnknownMessages(id, cited, docs) <==> v.UnknownId? && v.citing == id && v.cited !in docs && v.cited in cited
  {
    if cited == [] {
    } else {
      assert cited == cited[..|cited| - 1] + [cited[|cited| - 1]];
      UnknownMessagesExact(id, cited[..|cited| - 1], docs, v);
    }
  }

  lemma {:induction false} CitationMessagesExact(cases: seq<Case>, docs: seq<DocId>, v: Violation)
    ensures v in CitationMessages(cases, docs) <==> v.UnknownId? && CitesUnknown(cases, docs, v.citing, v.cited)
  {
    if cases == [] {
    } else {
      var init, last := cases[..|cases| - 1], cases[|cases| - 1];
      assert cases == init + [last];
      CitationMessagesExact(init, docs, v);
      UnknownMessagesExact(last.id, Cited(last), docs, v);
      OneMoreCiting(init, last, docs);
      if v.UnknownId? {
        CitedIff(last, v.cited);
      }
    }
  }

  lemma OneMoreCiting(cases: seq<Case>, c: Case, docs: seq<DocId>)
    ensures forall id, x :: CitesUnknown(cases + [c], docs, id, x) <==>
      CitesUnknown(cases, docs, id, x) || (x !in docs && id == c.id && Cites(c, x))
  {
    var all := cases + [c];
    forall id, x
      ensures CitesUnknown(all, docs, id, x) <==> CitesUnknown(cases, docs, id, x) || (x !in docs && id == c.id && Cites(c, x))
    {
      if CitesUnknown(cases, docs, id, x) {
        var i :| 0 <= i < |cases| && cases[i].id == id && Cites(cases[i], x);
        assert all[i] == cases[i];
      }
      assert all[|cases|] == c;
    }
  }

  predicate HasCase(cases: seq<Case>, x: string) {
    exists i :: 0 <= i < |cases| && cases[i].id == x
  }

  ghost predicate IsCaseViolation(cases: seq<Case>, v: Violation) {
    match v
    case DuplicateCase(x) => RepeatedCase(cases, x)
    case ZeroTopK(id) => exists i :: 0 <= i < |cases| && cases[i].id == id && cases[i].labels.topK == 0
    case _ => false
  }

  lemma OneMoreCase(cases: seq<Case>, c: Case)
    ensures forall v :: IsCaseViolation(cases + [c], v) <==>
      || IsCaseViolation(cases, v)
      || (v == DuplicateCase(c.id) && HasCase(cases, c.id))
      || (v == ZeroTopK(c.id) && c.labels.topK == 0)
  {
    var all := cases + [c];
    forall v
      ensures IsCaseViolation(all, v) <==>
        || IsCaseViolation(cases, v)
        || (v == DuplicateCase(c.id) && HasCase(cases, c.id))
        || (v == ZeroTopK(c.id) && c.labels.topK == 0)
    {
      assert all[|cases|] == c && forall i :: 0 <= i < |cases| ==> all[i] == cases[i];
      if v.DuplicateCase? {
        if RepeatedCase(cases, v.caseId) {
          var i, j :| 0 <= i < j < |cases| && cases[i].id == cases[j].id == v.caseId;
          assert all[i].id == all[j].id == v.caseId;
        }
        if v.caseId == c.id && HasCase(cases, c.id) {
          var i :| 0 <= i < |cases| && cases[i].id == c.id;
          assert all[i].id == all[|cases|].id == v.caseId;
        }
      }
    }
  }

  function CaseMessages(cases: seq<Case>): seq<Violation> {
    if cases == [] then []
    else
      var init, last := cases[..|cases| - 1], cases[|cases| - 1];
      CaseMessages(init)
      + (if HasCase(init, last.id) then [DuplicateCase(last.id)] else [])
      + (if last.labels.topK == 0 then [ZeroTopK(last.id)] else [])
  }

  method CheckCases(cases: seq<Case>) returns (errors: seq<Violation>)
    ensures errors == CaseMessages(cases)
  {
    errors := [];
    var seen: set<string> := {};
    for n := 0 to |cases|
      invariant forall x :: x in seen <==> HasCase(cases[..n], x)
      invariant errors == CaseMessages(cases[..n])
    {
      var c, init := cases[n], cases[..n];
      assert cases[..n + 1] == init + [c];
      if c.id in seen {
        errors := errors + [DuplicateCase(c.id)];
      }
      SeenGrows(init, c);
      seen := seen + {c.id};
      if c.labels.topK == 0 {
        errors := errors + [ZeroTopK(c.id)];
      }
    }
    assert cases[..|cases|] == cases;
  }

  lemma SeenGrows(init: seq<Case>, c: Case)
    ensures forall x :: HasCase(init + [c], x) <==> x == c.id || HasCase(init, x)
  {
    var all := init + [c];
    assert all[|init|] == c && forall i :: 0 <= i < |init| ==> all[i] == init[i];
  }

  lemma {:induction false} CaseMessagesExact(cases: seq<Case>, v: Violation)
    ensures v in CaseMessages(cases) <==> IsCaseViolation(cases, v)
  {
    if cases == [] {
    } else {
      var init, last := cases[..|cases| - 1], cases[|cases| - 1];
      assert cases == init + [last];
      CaseMessagesExact(init, v);
      OneMoreCase(init, last);
    }
  }

  type SplitsOf = map<string, set<Split>>

  function AddSplit(m: SplitsOf, name: string, s: Split): SplitsOf {
    m[name := (if name in m then m[name] else {}) + {s}]
  }

  method CollectSplits(cases: seq<Case>) returns (topics: SplitsOf, projects: SplitsOf)
    ensures forall t, s :: (t in topics && s in topics[t]) <==> TopicIn(cases, t, s)
    ensures forall p, s :: (p in projects && s in projects[p]) <==> ProjectIn(cases, p, s)
  {
    topics, projects := map[], map[];
    for n := 0 to |cases|
      invariant forall t, s :: (t in topics && s in topics[t]) <==> TopicIn(cases[..n], t, s)
      invariant forall p, s :: (p in projects && s in projects[p]) <==> ProjectIn(cases[..n], p, s)
    {
      OneMoreSplit(cases[..n], cases[n]);
      assert cases[..n + 1] == cases[..n] + [cases[n]];
      topics := AddSplit(topics, cases[n].topic, cases[n].split);
      projects := AddSplit(projects, cases[n].project, cases[n].split);
    }
    assert cases[..|cases|] == cases;
  }

  lemma OneMoreSplit(cases: seq<Case>, c: Case)
    ensures forall t, s :: TopicIn(cases + [c], t, s) <==> TopicIn(cases, t, s) || (t == c.topic && s == c.split)
    ensures forall p, s :: ProjectIn(cases + [c], p, s) <==> ProjectIn(cases, p, s) || (p == c.project && s == c.split)
  {
    var all := cases + [c];
    assert all[|cases|] == c && forall i :: 0 <= i < |cases| ==> all[i] == cases[i];
  }

  /** Two splits, so more than one means both. */
  lemma BothSplits(ss: set<Split>)
    ensures |ss| > 1 <==> Dev in ss && Heldout in ss
  {
    var dev, heldout := if Dev in ss then {Dev} else {}, if Heldout in ss then {Heldout} else {};
    forall s: Split ensures s in ss <==> s in dev + heldout {
      match s
      case Dev =>
      case Heldout =>
    }
    assert ss == dev + heldout;
  }

  ghost predicate Least(k: string, names: set<string>) {
    k in names && forall x :: x in names ==> NameLe(k, x)
  }

  lemma LeastExists(names: set<string>)
    requires names != {}
    ensures exists k :: Least(k, names)
    decreases |names|
  {
    var x :| x in names;
    NameLeTotal(x, x);
    var rest := names - {x};
    assert names == rest + {x};
    if rest == {} {
      assert Least(x, names);
    } else {
      LeastExists(rest);
      var y :| Least(y, rest);
      NameLeTotal(x, y);
      if NameLe(y, x) {
        assert Least(y, names);
      } else {
        forall z | z in rest ensures NameLe(x, z) {
          NameLeTransitive(x, y, z);
        }
        assert Least(x, names);
      }
    }
  }

  /** The names in ascending order, as a sorted map yields them. */
  ghost function Ascending(names: set<string>): seq<string>
    decreases |names|
  {
    if names == {} then []
    else
      LeastExists(names);
      var k :| Least(k, names);
      [k] + Ascending(names - {k})
  }

  lemma AscendingFrom(names: set<string>, k: string)
    requires Least(k, names)
    ensures Ascending(names) == [k] + Ascending(names - {k})
  {
    forall k' | Least(k', names) ensures k' == k {
      NameLeTotal(k, k');
    }
  }

  /** Every name once, smaller ones first. */
  lemma {:induction false} AscendingExact(names: set<string>)
    ensures forall x :: x in Ascending(names) <==> x in names
    ensures forall i, j :: 0 <= i < j < |Ascending(names)| ==>
      Ascending(names)[i] != Ascending(names)[j] && NameLe(Ascending(names)[i], Ascending(names)[j])
    decreases |names|
  {
    if names == {} {
    } else {
      LeastExists(names);
      var k :| Least(k, names);
      AscendingFrom(names, k);
      AscendingExact(names - {k});
    }
  }

  ghost function SharedNames(m: SplitsOf, keys: set<string>): set<string> {
    set x | x in keys && x in m && Dev in m[x] && Heldout in m[x]
  }

  lemma VisitLeast(m: SplitsOf, keys: set<string>, k: string)
    requires Least(k, keys) && k in m
    ensures
      Ascending(SharedNames(m, keys)) ==
        (if Dev in m[k] && Heldout in m[k] then [k] else []) + Ascending(SharedNames(m, keys - {k}))
  {
    if Dev in m[k] && Heldout in m[k] {
      AscendingFrom(SharedNames(m, keys), k);
      assert SharedNames(m, keys) - {k} == SharedNames(m, keys - {k});
    } else {
      assert SharedNames(m, keys) == SharedNames(m, keys - {k});
    }
  }

  /** The names with more than one split, in ascending order. */
  method Shared(m: SplitsOf) returns (names: seq<string>)
    ensures names == Ascending(SharedNames(m, m.Keys))
  {
    names := [];
    var keys := m.Keys;
    while keys != {}
      invariant keys <= m.Keys
      invariant names + Ascending(SharedNames(m, keys)) == Ascending(SharedNames(m, m.Keys))
      decreases keys
    {
      assert exists k :: k in keys && forall x :: x in keys ==> NameLe(k, x) by {
        LeastExists(keys);
        var least :| Least(least, keys);
      }
      var k :| k in keys && forall x :: x in keys ==> NameLe(k, x);
      BothSplits(m[k]);
      VisitLeast(m, keys, k);
      Assoc(names, if Dev in m[k] && Heldout in m[k] then [k] else [], Ascending(SharedNames(m, keys - {k})));
      keys := keys - {k};
      if |m[k]| > 1 {
        names := names + [k];
      }
    }
  }

  function Topics(names: seq<string>): (vs: seq<Violation>)
    ensures forall v :: v in vs <==> v.SharedTopic? && v.topic in names
  {
    if names == [] then [] else [SharedTopic(names[0])] + Topics(names[1..])
  }

  function Projects(names: seq<string>): (vs: seq<Violation>)
    ensures forall v :: v in vs <==> v.SharedProject? && v.project in names
  {
    if names == [] then [] else [SharedProject(names[0])] + Projects(names[1..])
  }

  /** One message per name, in the order of the names. */
  lemma {:induction false} SplitMessagesInOrder(names: seq<string>, i: nat)
    requires i < |names|
    ensures |Topics(names)| == |names| && Topics(names)[i] == SharedTopic(names[i])
    ensures |Projects(names)| == |names| && Projects(names)[i] == SharedProject(names[i])
  {
    if |names| > 1 {
      SplitMessagesInOrder(names[1..], if i == 0 then 0 else i - 1);
    }
  }

  ghost function SharedTopics(cases: seq<Case>): set<string> {
    set i | 0 <= i < |cases| && TopicIn(cases, cases[i].topic, Dev) && TopicIn(cases, cases[i].topic, Heldout) :: cases[i].topic
  }

  ghost function SharedProjects(cases: seq<Case>): set<string> {
    set i | 0 <= i < |cases| && ProjectIn(cases, cases[i].project, Dev) && ProjectIn(cases, cases[i].project, Heldout) ::
      cases[i].project
  }

  /** All messages, in the order given. */
  ghost function Messages(c: Corpus): seq<Violation> {
    (if c.version != CORPUS_VERSION then [WrongVersion] else [])
    + DocumentMessages(c.documents) + CitationMessages(c.cases, c.documents)
    + (if c.cases == [] then [NoCases] else [])
    + CaseMessages(c.cases) + Topics(Ascending(SharedTopics(c.cases))) + Projects(Ascending(SharedProjects(c.cases)))
  }

  /** Topics and projects in both splits, each in ascending order. */
  method CheckSplits(cases: seq<Case>) returns (topics: seq<string>, projects: seq<string>)
    ensures topics == Ascending(SharedTopics(cases)) && projects == Ascending(SharedProjects(cases))
  {
    var byTopic, byProject := CollectSplits(cases);
    topics := Shared(byTopic);
    projects := Shared(byProject);
    assert SharedNames(byTopic, byTopic.Keys) == SharedTopics(cases);
    assert SharedNames(byProject, byProject.Keys) == SharedProjects(cases);
  }

  lemma SplitMessagesExact(cases: seq<Case>, v: Violation)
    ensures v in Topics(Ascending(SharedTopics(cases))) <==>
      v.SharedTopic? && TopicIn(cases, v.topic, Dev) && TopicIn(cases, v.topic, Heldout)
    ensures v in Projects(Ascending(SharedProjects(cases))) <==>
      v.SharedProject? && ProjectIn(cases, v.project, Dev) && ProjectIn(cases, v.project, Heldout)
  {
    AscendingExact(SharedTopics(cases));
    AscendingExact(SharedProjects(cases));
  }

  lemma InSeven<T>(a: seq<T>, b: seq<T>, c: seq<T>, d: seq<T>, e: seq<T>, f: seq<T>, g: seq<T>, x: T)
    ensures x in a + b + c + d + e + f + g <==> x in a || x in b || x in c || x in d || x in e || x in f || x in g
  {
  }

  /** A message is given exactly if what it says is so. */
  lemma MessagesExact(c: Corpus, v: Violation)
    ensures v in Messages(c) <==> Violates(c, v)
  {
    InSeven(if c.version != CORPUS_VERSION then [WrongVersion] else [], DocumentMessages(c.documents),
            CitationMessages(c.cases, c.documents), if c.cases == [] then [NoCases] else [], CaseMessages(c.cases),
            Topics(Ascending(SharedTopics(c.cases))), Projects(Ascending(SharedProjects(c.cases))), v);
    DocumentMessagesExact(c.documents, v);
    CitationMessagesExact(c.cases, c.documents, v);
    CaseMessagesExact(c.cases, v);
    SplitMessagesExact(c.cases, v);
  }

  /** Where the kind of a message stands among the messages. */
  function Rank(v: Violation): nat {
    match v
    case WrongVersion => 0
    case DuplicateDocument(_) => 1
    case UnknownId(_, _) => 2
    case NoCases => 3
    case DuplicateCase(_) => 4
    case ZeroTopK(_) => 4
    case SharedTopic(_) => 5
    case SharedProject(_) => 6
  }

  /** Messages whose ranks rise, from `lo` at the lowest to `hi` at the highest. */
  ghost function Rising(lo: nat, hi: nat): iset<seq<Violation>> {
    iset vs: seq<Violation> |
      && (forall i, j :: 0 <= i < j < |vs| ==> Rank(vs[i]) <= Rank(vs[j]))
      && forall i :: 0 <= i < |vs| ==> lo <= Rank(vs[i]) <= hi
  }

  lemma RankedConcat(xs: seq<Violation>, ys: seq<Violation>, lo: nat, mid: nat, hi: nat)
    requires xs in Rising(lo, mid) && ys in Rising(mid, hi) && lo <= mid <= hi
    ensures xs + ys in Rising(lo, hi)
  {
  }

  lemma RankedKind(vs: seq<Violation>, rank: nat)
    requires forall v :: v in vs ==> Rank(v) == rank
    ensures vs in Rising(rank, rank)
  {
    forall i | 0 <= i < |vs| ensures Rank(vs[i]) == rank {
      assert vs[i] in vs;
    }
  }

  lemma DocumentsRanked(docs: seq<DocId>)
    ensures DocumentMessages(docs) in Rising(1, 1)
  {
    forall v | v in DocumentMessages(docs) ensures Rank(v) == 1 {
      DocumentMessagesExact(docs, v);
    }
    RankedKind(DocumentMessages(docs), 1);
  }

  lemma CitationsRanked(cases: seq<Case>, docs: seq<DocId>)
    ensures CitationMessages(cases, docs) in Rising(2, 2)
  {
    forall v | v in CitationMessages(cases, docs) ensures Rank(v) == 2 {
      CitationMessagesExact(cases, docs, v);
    }
    RankedKind(CitationMessages(cases, docs), 2);
  }

  lemma CasesRanked(cases: seq<Case>)
    ensures CaseMessages(cases) in Rising(4, 4)
  {
    forall v | v in CaseMessages(cases) ensures Rank(v) == 4 {
      CaseMessagesExact(cases, v);
    }
    RankedKind(CaseMessages(cases), 4);
  }

  lemma SplitsRanked(names: seq<string>)
    ensures Topics(names) in Rising(5, 5) && Projects(names) in Rising(6, 6)
  {
    RankedKind(Topics(names), 5);
    RankedKind(Projects(names), 6);
  }

  lemma OneOrNone(v: Violation)
    ensures [v] in Rising(Rank(v), Rank(v)) && [] in Rising(Rank(v), Rank(v))
  {
  }

  lemma SevenRanked(a: seq<Violation>, b: seq<Violation>, c: seq<Violation>, d: seq<Violation>,
                    e: seq<Violation>, f: seq<Violation>, g: seq<Violation>)
    requires a in Rising(0, 0) && b in Rising(1, 1) && c in Rising(2, 2) && d in Rising(3, 3)
    requires e in Rising(4, 4) && f in Rising(5, 5) && g in Rising(6, 6)
    ensures a + b + c + d + e + f + g in Rising(0, 6)
  {
    RankedConcat(a, b, 0, 1, 1);
    RankedConcat(a + b, c, 0, 2, 2);
    RankedConcat(a + b + c, d, 0, 3, 3);
    RankedConcat(a + b + c + d, e, 0, 4, 4);
    RankedConcat(a + b + c + d + e, f, 0, 5, 5);
    RankedConcat(a + b + c + d + e + f, g, 0, 6, 6);
  }

  lemma MessagesRise(c: Corpus)
    ensures Messages(c) in Rising(0, 6)
  {
    var topics, projects := Ascending(SharedTopics(c.cases)), Ascending(SharedProjects(c.cases));
    OneOrNone(WrongVersion);
    DocumentsRanked(c.documents);
    CitationsRanked(c.cases, c.documents);
    OneOrNone(NoCases);
    CasesRanked(c.cases);
    SplitsRanked(topics);
    SplitsRanked(projects);
    SevenRanked(if c.version != CORPUS_VERSION then [WrongVersion] else [], DocumentMessages(c.documents),
                CitationMessages(c.cases, c.documents), if c.cases == [] then [NoCases] else [], CaseMessages(c.cases),
                Topics(topics), Projects(projects));
  }

  /** The messages come kind after kind: version, documents, citations, a missing case, the cases, topics, projects. */
  lemma MessagesRanked(c: Corpus, i: nat, j: nat)
    requires i < j < |Messages(c)|
    ensures Rank(Messages(c)[i]) <= Rank(Messages(c)[j])
  {
    MessagesRise(c);
  }

  /** A repeated document is reported once for each time after its first, and an unknown id once for each time it is
      cited. */
  lemma {:induction false} DocumentRepeats(docs: seq<DocId>, x: DocId)
    ensures multiset(DocumentMessages(docs))[DuplicateDocument(x)] == if x in docs then multiset(docs)[x] - 1 else 0
  {
    if docs == [] {
    } else {
      var init, last := docs[..|docs| - 1], docs[|docs| - 1];
      assert docs == init + [last];
      DocumentRepeats(init, x);
    }
  }

  lemma {:induction false} CitationRepeats(id: string, cited: seq<DocId>, docs: seq<DocId>, x: DocId)
    ensures multiset(UnknownMessages(id, cited, docs))[UnknownId(id, x)] == if x in docs then 0 else multiset(cited)[x]
  {
    if cited == [] {
    } else {
      var init, last := cited[..|cited| - 1], cited[|cited| - 1];
      assert cited == init + [last];
      CitationRepeats(id, init, docs, x);
    }
  }

  /** The messages in their order. */
  method ValidateCorpus(c: Corpus) returns (errors: seq<Violation>)
    ensures errors == Messages(c)
    ensures errors == [] <==> Sound(c)
  {
    errors := if c.version != CORPUS_VERSION then [WrongVersion] else [];
    var docs := CheckDocuments(c.documents);
    var citations := CheckCitations(c.cases, c.documents);
    errors := errors + docs + citations;
    errors := errors + if c.cases == [] then [NoCases] else [];
    var perCase := CheckCases(c.cases);
    var topics, projects := CheckSplits(c.cases);
    errors := errors + perCase + Topics(topics) + Projects(projects);
    NoMessageIffSound(c);
  }

  lemma NoMessageIffSound(c: Corpus)
    ensures Messages(c) == [] <==> Sound(c)
  {
    forall v ensures v in Messages(c) <==> Violates(c, v) {
      MessagesExact(c, v);
    }
    assert Messages(c) != [] ==> Messages(c)[0] in Messages(c);
    NoViolationIffSound(c);
  }

  /** A corpus fit for use, said directly. */
  ghost predicate Sound(c: Corpus) {
    && c.version == CORPUS_VERSION && c.cases != []
    && Distinct(c.documents)
    && (forall i, j :: 0 <= i < j < |c.cases| ==> c.cases[i].id != c.cases[j].id)
    && (forall i, x :: 0 <= i < |c.cases| && Cites(c.cases[i], x) ==> x in c.documents)
    && (forall i :: 0 <= i < |c.cases| ==> c.cases[i].labels.topK > 0)
    && (forall i, j :: 0 <= i < |c.cases| && 0 <= j < |c.cases| && c.cases[i].split != c.cases[j].split ==>
          c.cases[i].topic != c.cases[j].topic && c.cases[i].project != c.cases[j].project)
  }

  /** No message means exactly that the corpus is sound: in particular that no topic and no project occurs
      in both splits, so nothing held out is ever tuned on. */
  lemma NoViolationIffSound(c: Corpus)
    ensures (forall v :: !Violates(c, v)) <==> Sound(c)
  {
    if forall v :: !Violates(c, v) {
      NoViolationSound(c);
    }
    if Sound(c) {
      forall v ensures !Violates(c, v) {
        SoundNoViolation(c, v);
      }
    }
  }

  lemma NoViolationSound(c: Corpus)
    requires forall v :: !Violates(c, v)
    ensures Sound(c)
  {
    assert !Violates(c, WrongVersion) && !Violates(c, NoCases);
    forall i, j | 0 <= i < j < |c.documents| ensures c.documents[i] != c.documents[j] {
      assert !Violates(c, DuplicateDocument(c.documents[i]));
    }
    forall i, j | 0 <= i < j < |c.cases| ensures c.cases[i].id != c.cases[j].id {
      assert !Violates(c, DuplicateCase(c.cases[i].id));
    }
    forall i, x | 0 <= i < |c.cases| && Cites(c.cases[i], x) ensures x in c.documents {
      assert !Violates(c, UnknownId(c.cases[i].id, x));
    }
    forall i | 0 <= i < |c.cases| ensures c.cases[i].labels.topK > 0 {
      assert !Violates(c, ZeroTopK(c.cases[i].id));
    }
    forall i, j | 0 <= i < |c.cases| && 0 <= j < |c.cases| && c.cases[i].split != c.cases[j].split
      ensures c.cases[i].topic != c.cases[j].topic && c.cases[i].project != c.cases[j].project
    {
      assert !Violates(c, SharedTopic(c.cases[i].topic));
      assert !Violates(c, SharedProject(c.cases[i].project));
    }
  }

  lemma SoundNoViolation(c: Corpus, v: Violation)
    requires Sound(c)
    ensures !Violates(c, v)
  {
  }

  // ---- Aggregation ----

  datatype AblationReport = AblationReport(
    cases: nat,
    recallAtK: real,
    mrr: real,
    ndcgAtK: real,
    noAnswerFpRate: real,
    noAnswerN: nat,
    obsoleteRate: real,
    obsoleteN: nat,
    conflictCoverage: real,
    conflictN: nat,
    leakageTotal: nat)

  function InSplit(cases: seq<Case>, s: Split): seq<Case> {
    if cases == [] then []
    else InSplit(cases[..|cases| - 1], s) + if cases[|cases| - 1].split == s then [cases[|cases| - 1]] else []
  }

  function Total<T>(xs: seq<T>, f: T -> real): real {
    if xs == [] then 0.0 else Total(xs[..|xs| - 1], f) + f(xs[|xs| - 1])
  }

  function Count<T>(xs: seq<T>, p: T -> bool): nat {
    if xs == [] then 0 else Count(xs[..|xs| - 1], p) + if p(xs[|xs| - 1]) then 1 else 0
  }

  function Sum<T>(xs: seq<T>, f: T -> nat): nat {
    if xs == [] then 0 else Sum(xs[..|xs| - 1], f) + f(xs[|xs| - 1])
  }

  /** An empty average is zero. */
  function Per(x: real, n: nat): real {
    x / (if n == 0 then 1.0 else n as real)
  }

  predicate ExpectsNoAnswer(c: Case) {
    c.labels.noAnswer
  }

  predicate HasObsolete(c: Case) {
    c.labels.obsoleteIds != []
  }

  predicate IsConflict(c: Case) {
    c.kind.Conflict?
  }

  /** A retrieval leg and the discount its lists are scored with. */
  datatype Leg = Leg(retrieve: Case -> seq<DocId>, d: Discount) {
    function Score(c: Case): CaseMetrics {
      ScoreCase(c.labels, retrieve(c), d)
    }

    function RecallOf(c: Case): real {
      Score(c).recallAtK
    }

    function ReciprocalOf(c: Case): real {
      Score(c).reciprocalRank
    }

    function NdcgOf(c: Case): real {
      Score(c).ndcgAtK
    }

    predicate FalsePositive(c: Case) {
      ExpectsNoAnswer(c) && Score(c).noAnswerFp
    }

    predicate ShowsObsolete(c: Case) {
      HasObsolete(c) && Score(c).obsoleteHit
    }

    predicate CoversConflict(c: Case) {
      IsConflict(c) && Score(c).mustIncludeCovered
    }

    function LeaksOf(c: Case): nat {
      Score(c).leakageCount
    }
  }

  /** What a pass over the cases adds up. */
  datatype Totals = Totals(
    recall: real,
    mrr: real,
    ndcg: real,
    fp: nat,
    noAnswerN: nat,
    obsoleteHits: nat,
    obsoleteN: nat,
    conflictCovered: nat,
    conflictN: nat,
    leakage: nat)

  function TotalsOn(cases: seq<Case>, leg: Leg): Totals {
    Totals(
      Total(cases, leg.RecallOf),
      Total(cases, leg.ReciprocalOf),
      Total(cases, leg.NdcgOf),
      Count(cases, leg.FalsePositive),
      Count(cases, ExpectsNoAnswer),
      Count(cases, leg.ShowsObsolete),
      Count(cases, HasObsolete),
      Count(cases, leg.CoversConflict),
      Count(cases, IsConflict),
      Sum(cases, leg.LeaksOf))
  }

  function ReportFrom(t: Totals, n: nat): AblationReport {
    AblationReport(n, Per(t.recall, n), Per(t.mrr, n), Per(t.ndcg, n),
                   Per(t.fp as real, t.noAnswerN), t.noAnswerN,
                   Per(t.obsoleteHits as real, t.obsoleteN), t.obsoleteN,
                   Per(t.conflictCovered as real, t.conflictN), t.conflictN,
                   t.leakage)
  }

  /** The report of a leg on a split: of its cases only. */
  function ReportOn(c: Corpus, s: Split, leg: Leg): AblationReport {
    var own := InSplit(c.cases, s);
    ReportFrom(TotalsOn(own, leg), |own|)
  }

  method CasesOf(cases: seq<Case>, s: Split) returns (own: seq<Case>)
    ensures own == InSplit(cases, s)
  {
    own := [];
    for n := 0 to |cases|
      invariant own == InSplit(cases[..n], s)
    {
      assert cases[..n + 1][..n] == cases[..n];
      if cases[n].split == s {
        own := own + [cases[n]];
      }
    }
    assert cases[..|cases|] == cases;
  }

  /** One case more, scored by m. */
  function AddCase(t: Totals, c: Case, m: CaseMetrics): Totals {
    Totals(
      t.recall + m.recallAtK,
      t.mrr + m.reciprocalRank,
      t.ndcg + m.ndcgAtK,
      t.fp + (if c.labels.noAnswer && m.noAnswerFp then 1 else 0),
      t.noAnswerN + (if c.labels.noAnswer then 1 else 0),
      t.obsoleteHits + (if HasObsolete(c) && m.obsoleteHit then 1 else 0),
      t.obsoleteN + (if HasObsolete(c) then 1 else 0),
      t.conflictCovered + (if IsConflict(c) && m.mustIncludeCovered then 1 else 0),
      t.conflictN + (if IsConflict(c) then 1 else 0),
      t.leakage + m.leakageCount)
  }

  lemma TotalsStep(cases: seq<Case>, n: nat, leg: Leg)
    requires n < |cases|
    ensures TotalsOn(cases[..n + 1], leg) == AddCase(TotalsOn(cases[..n], leg), cases[n], leg.Score(cases[n]))
  {
    assert cases[..n + 1][..n] == cases[..n] && cases[..n + 1][n] == cases[n];
  }

  method CountCase(t: Totals, query: Case, m: CaseMetrics) returns (u: Totals)
    ensures u == AddCase(t, query, m)
  {
    u := t.(recall := t.recall + m.recallAtK, mrr := t.mrr + m.reciprocalRank, ndcg := t.ndcg + m.ndcgAtK);
    if ExpectsNoAnswer(query) {
      u := u.(noAnswerN := u.noAnswerN + 1, fp := u.fp + if m.noAnswerFp then 1 else 0);
    }
    if HasObsolete(query) {
      u := u.(obsoleteN := u.obsoleteN + 1, obsoleteHits := u.obsoleteHits + if m.obsoleteHit then 1 else 0);
    }
    if IsConflict(query) {
      u := u.(conflictN := u.conflictN + 1, conflictCovered := u.conflictCovered + if m.mustIncludeCovered then 1 else 0);
    }
    u := u.(leakage := u.leakage + m.leakageCount);
  }

  method Evaluate(c: Corpus, s: Split, leg: Leg) returns (report: AblationReport)
    ensures report == ReportOn(c, s, leg)
  {
    var cases := CasesOf(c.cases, s);
    var t := Totals(0.0, 0.0, 0.0, 0, 0, 0, 0, 0, 0, 0);
    for n := 0 to |cases|
      invariant t == TotalsOn(cases[..n], leg)
    {
      TotalsStep(cases, n, leg);
      t := CountCase(t, cases[n], leg.Score(cases[n]));
    }
    assert cases[..|cases|] == cases;
    report := ReportFrom(t, |cases|);
  }

  // ---- What the aggregates mean ----

  lemma {:induction false} InSplitExact(cases: seq<Case>, s: Split, c: Case)
    ensures c in InSplit(cases, s) <==> c in cases && c.split == s
  {
    if cases == [] {
    } else {
      assert cases == cases[..|cases| - 1] + [cases[|cases| - 1]];
      InSplitExact(cases[..|cases| - 1], s, c);
    }
  }

  /** A sum of terms between zero and one is full exactly when every term is one. */
  lemma {:induction false} TotalBounds<T>(xs: seq<T>, f: T -> real)
    requires forall x :: x in xs ==> 0.0 <= f(x) <= 1.0
    ensures 0.0 <= Total(xs, f) <= |xs| as real
    ensures Total(xs, f) == |xs| as real <==> forall x :: x in xs ==> f(x) == 1.0
  {
    if xs == [] {
    } else {
      var init, last := xs[..|xs| - 1], xs[|xs| - 1];
      assert xs == init + [last];
      TotalBounds(init, f);
    }
  }

  /** p picks among those q picks: never more, none only if there is none, all only if all. */
  lemma {:induction false} CountWithin<T>(xs: seq<T>, p: T -> bool, q: T -> bool)
    requires forall x :: x in xs && p(x) ==> q(x)
    ensures Count(xs, p) <= Count(xs, q)
    ensures Count(xs, p) == 0 <==> forall x :: x in xs ==> !p(x)
    ensures Count(xs, p) == Count(xs, q) <==> forall x :: x in xs && q(x) ==> p(x)
  {
    if xs == [] {
    } else {
      var init, last := xs[..|xs| - 1], xs[|xs| - 1];
      assert xs == init + [last];
      CountWithin(init, p, q);
    }
  }

  lemma {:induction false} SumZero<T>(xs: seq<T>, f: T -> nat)
    ensures Sum(xs, f) == 0 <==> forall x :: x in xs ==> f(x) == 0
  {
    if xs == [] {
    } else {
      var init, last := xs[..|xs| - 1], xs[|xs| - 1];
      assert xs == init + [last];
      SumZero(init, f);
    }
  }

  lemma PerBounds(x: real, n: nat)
    requires 0.0 <= x <= n as real
    ensures 0.0 <= Per(x, n) <= 1.0
    ensures Per(x, n) == 1.0 <==> n > 0 && x == n as real
    ensures Per(x, n) == 0.0 <==> x == 0.0
  {
    if n > 0 {
      QuotientBounds(x, n as real);
      if Per(x, n) == 0.0 {
        assert x == Per(x, n) * n as real;
      }
    }
  }

  /** Every list the leg returns on the split is free of duplicates as far as it is scored. */
  ghost predicate DistinctLists(c: Corpus, s: Split, leg: Leg) {
    forall x :: x in c.cases && x.split == s ==> Distinct(Top(leg.retrieve(x), Cutoff(x.labels)))
  }

  lemma CaseBounds(x: Case, leg: Leg)
    requires Discounting(leg.d) && Distinct(Top(leg.retrieve(x), Cutoff(x.labels)))
    ensures 0.0 <= leg.RecallOf(x) <= 1.0 && 0.0 <= leg.NdcgOf(x) <= 1.0 && 0.0 <= leg.ReciprocalOf(x) <= 1.0
  {
    ScoresBounded(x.labels, leg.retrieve(x), leg.d);
    ReciprocalRankBounds(Top(leg.retrieve(x), Cutoff(x.labels)), Members(x.labels.relevant), 0);
  }

  /** Averages lie between 0 and 1, and are 1 exactly when the split has cases and every one scores 1. */
  lemma AveragesExact(c: Corpus, s: Split, leg: Leg)
    requires Discounting(leg.d) && DistinctLists(c, s, leg)
    ensures
      var r := ReportOn(c, s, leg);
      && 0.0 <= r.recallAtK <= 1.0 && 0.0 <= r.mrr <= 1.0 && 0.0 <= r.ndcgAtK <= 1.0
      && (r.ndcgAtK == 1.0 <==> r.cases > 0 && forall x :: x in c.cases && x.split == s ==> leg.NdcgOf(x) == 1.0)
      && (r.recallAtK == 1.0 <==> r.cases > 0 && forall x :: x in c.cases && x.split == s ==> leg.RecallOf(x) == 1.0)
      && (r.mrr == 1.0 <==> r.cases > 0 && forall x :: x in c.cases && x.split == s ==> leg.ReciprocalOf(x) == 1.0)
  {
    var own := InSplit(c.cases, s);
    forall x ensures x in own <==> x in c.cases && x.split == s {
      InSplitExact(c.cases, s, x);
    }
    forall x | x in own
      ensures 0.0 <= leg.RecallOf(x) <= 1.0 && 0.0 <= leg.NdcgOf(x) <= 1.0 && 0.0 <= leg.ReciprocalOf(x) <= 1.0
    {
      CaseBounds(x, leg);
    }
    TotalBounds(own, leg.RecallOf);
    TotalBounds(own, leg.ReciprocalOf);
    TotalBounds(own, leg.NdcgOf);
    PerBounds(Total(own, leg.RecallOf), |own|);
    PerBounds(Total(own, leg.ReciprocalOf), |own|);
    PerBounds(Total(own, leg.NdcgOf), |own|);
  }

  /** The list shows, within the case's budget, one of the ids. */
  ghost predicate Shows(x: Case, leg: Leg, ids: seq<DocId>) {
    exists id :: id in ids && Shown(x.labels, leg.retrieve(x), id)
  }

  ghost predicate ShowsAll(x: Case, leg: Leg, ids: seq<DocId>) {
    forall id :: id in ids ==> Shown(x.labels, leg.retrieve(x), id)
  }

  lemma {:induction false} CountInZero(xs: seq<DocId>, s: set<DocId>)
    ensures CountIn(xs, s) == 0 <==> forall x :: x in xs ==> x !in s
  {
    if xs == [] {
    } else {
      assert xs == [xs[0]] + xs[1..];
      CountInZero(xs[1..], s);
    }
  }

  lemma LeaksExact(x: Case, leg: Leg)
    ensures leg.LeaksOf(x) == 0 <==> !Shows(x, leg, x.labels.mustExclude)
  {
    CountInZero(x.labels.mustExclude, Members(Top(leg.retrieve(x), Cutoff(x.labels))));
    forall id ensures id in Top(leg.retrieve(x), Cutoff(x.labels)) <==> Shown(x.labels, leg.retrieve(x), id) {
      ShownIff(x.labels, leg.retrieve(x), id);
    }
  }

  lemma ShowsObsoleteExact(x: Case, leg: Leg)
    ensures leg.ShowsObsolete(x) <==> Shows(x, leg, x.labels.obsoleteIds)
  {
    SafetyExact(x.labels, leg.retrieve(x), leg.d);
    assert x.labels.obsoleteIds != [] ==> x.labels.obsoleteIds[0] in x.labels.obsoleteIds;
  }

  lemma LeaksTogether(own: seq<Case>, leg: Leg)
    ensures Sum(own, leg.LeaksOf) == 0 <==> forall x :: x in own ==> !Shows(x, leg, x.labels.mustExclude)
  {
    SumZero(own, leg.LeaksOf);
    forall x ensures leg.LeaksOf(x) == 0 <==> !Shows(x, leg, x.labels.mustExclude) {
      LeaksExact(x, leg);
    }
  }

  lemma ObsoleteTogether(own: seq<Case>, leg: Leg)
    ensures Count(own, leg.ShowsObsolete) <= Count(own, HasObsolete)
    ensures Count(own, leg.ShowsObsolete) == 0 <==> forall x :: x in own ==> !Shows(x, leg, x.labels.obsoleteIds)
  {
    CountWithin(own, leg.ShowsObsolete, HasObsolete);
    forall x ensures leg.ShowsObsolete(x) <==> Shows(x, leg, x.labels.obsoleteIds) {
      ShowsObsoleteExact(x, leg);
    }
  }

  lemma FalsePositivesTogether(own: seq<Case>, leg: Leg)
    ensures Count(own, leg.FalsePositive) <= Count(own, ExpectsNoAnswer)
    ensures Count(own, leg.FalsePositive) == 0 <==> forall x :: x in own && x.labels.noAnswer ==> leg.retrieve(x) == []
  {
    CountWithin(own, leg.FalsePositive, ExpectsNoAnswer);
  }

  /** Zero tolerance: no average hides a single failure. The leakage total is zero exactly when no case of
      the split shows an excluded document, the obsolete rate when none shows superseded advice, and the
      false-positive rate when every case without an answer gets an empty list. */
  lemma ZeroTolerance(c: Corpus, s: Split, leg: Leg)
    ensures
      var r := ReportOn(c, s, leg);
      && (r.leakageTotal == 0 <==> forall x :: x in c.cases && x.split == s ==> !Shows(x, leg, x.labels.mustExclude))
      && (r.obsoleteRate == 0.0 <==> forall x :: x in c.cases && x.split == s ==> !Shows(x, leg, x.labels.obsoleteIds))
      && (r.noAnswerFpRate == 0.0 <==>
            forall x :: x in c.cases && x.split == s && x.labels.noAnswer ==> leg.retrieve(x) == [])
      && 0.0 <= r.obsoleteRate <= 1.0 && 0.0 <= r.noAnswerFpRate <= 1.0 && 0.0 <= r.conflictCoverage <= 1.0
  {
    var own := InSplit(c.cases, s);
    forall x ensures x in own <==> x in c.cases && x.split == s {
      InSplitExact(c.cases, s, x);
    }
    LeaksTogether(own, leg);
    ObsoleteTogether(own, leg);
    FalsePositivesTogether(own, leg);
    CountWithin(own, leg.CoversConflict, IsConflict);
    PerBounds(Count(own, leg.ShowsObsolete) as real, Count(own, HasObsolete));
    PerBounds(Count(own, leg.FalsePositive) as real, Count(own, ExpectsNoAnswer));
    PerBounds(Count(own, leg.CoversConflict) as real, Count(own, IsConflict));
  }

  // ---- The rates as fractions of the split's own cases ----

  /** The positions of the split's cases that p picks. */
  ghost function Picked(cases: seq<Case>, s: Split, p: Case -> bool): set<nat> {
    set i: nat | i < |cases| && cases[i].split == s && p(cases[i])
  }

  lemma PickedSnoc(init: seq<Case>, last: Case, s: Split, p: Case -> bool)
    ensures |Picked(init + [last], s, p)| == |Picked(init, s, p)| + if last.split == s && p(last) then 1 else 0
  {
    assert Picked(init + [last], s, p) == Picked(init, s, p) + if last.split == s && p(last) then {|init|} else {};
  }

  lemma {:induction false} CountInSplit(cases: seq<Case>, s: Split, p: Case -> bool)
    ensures Count(InSplit(cases, s), p) == |Picked(cases, s, p)|
  {
    if cases == [] {
      assert Picked(cases, s, p) == {};
    } else {
      var init, last := cases[..|cases| - 1], cases[|cases| - 1];
      assert cases == init + [last];
      CountInSplit(init, s, p);
      CountAppend(InSplit(init, s), last, p);
      PickedSnoc(init, last, s, p);
    }
  }

  lemma CountOf(cases: seq<Case>, s: Split, p: Case -> bool, picked: set<nat>)
    requires forall i: nat :: i in picked <==> i < |cases| && cases[i].split == s && p(cases[i])
    ensures Count(InSplit(cases, s), p) == |picked|
  {
    CountInSplit(cases, s, p);
    assert picked == Picked(cases, s, p);
  }

  lemma CountAppend(xs: seq<Case>, x: Case, p: Case -> bool)
    ensures Count(xs + [x], p) == Count(xs, p) + if p(x) then 1 else 0
    ensures xs + [] == xs
  {
    assert (xs + [x])[..|xs|] == xs;
  }

  lemma {:induction false} CountAll(xs: seq<Case>)
    ensures Count(xs, x => true) == |xs|
  {
    if xs == [] {
    } else {
      CountAll(xs[..|xs| - 1]);
    }
  }

  lemma SplitSize(cases: seq<Case>, s: Split)
    ensures |InSplit(cases, s)| == |set i: nat | i < |cases| && cases[i].split == s|
  {
    CountOf(cases, s, x => true, set i: nat | i < |cases| && cases[i].split == s);
    CountAll(InSplit(cases, s));
  }

  // The cases of the split each rate is about, and those among them that count against it or for it.

  ghost function WithoutAnswer(c: Corpus, s: Split): set<nat> {
    set i: nat | i < |c.cases| && c.cases[i].split == s && c.cases[i].labels.noAnswer
  }

  ghost function WithObsolete(c: Corpus, s: Split): set<nat> {
    set i: nat | i < |c.cases| && c.cases[i].split == s && c.cases[i].labels.obsoleteIds != []
  }

  ghost function Conflicts(c: Corpus, s: Split): set<nat> {
    set i: nat | i < |c.cases| && c.cases[i].split == s && c.cases[i].kind == Conflict
  }

  ghost function Answered(c: Corpus, s: Split, leg: Leg): set<nat> {
    set i | i in WithoutAnswer(c, s) && leg.retrieve(c.cases[i]) != []
  }

  ghost function Outdated(c: Corpus, s: Split, leg: Leg): set<nat> {
    set i | i in WithObsolete(c, s) && Shows(c.cases[i], leg, c.cases[i].labels.obsoleteIds)
  }

  ghost function Covered(c: Corpus, s: Split, leg: Leg): set<nat> {
    set i | i in Conflicts(c, s) && ShowsAll(c.cases[i], leg, c.cases[i].labels.mustInclude)
  }

  /** The share of `part`, or zero of nothing. */
  ghost predicate IsShare(rate: real, part: set<nat>, whole: set<nat>) {
    part <= whole && rate == if whole == {} then 0.0 else |part| as real / |whole| as real
  }

  lemma ShareOf(part: set<nat>, whole: set<nat>)
    requires part <= whole
    ensures IsShare(Per(|part| as real, |whole|), part, whole)
  {
    if whole == {} {
      assert part == {};
    }
  }

  lemma AnsweredCounted(c: Corpus, s: Split, leg: Leg)
    ensures Count(InSplit(c.cases, s), ExpectsNoAnswer) == |WithoutAnswer(c, s)|
    ensures Count(InSplit(c.cases, s), leg.FalsePositive) == |Answered(c, s, leg)|
  {
    CountOf(c.cases, s, ExpectsNoAnswer, WithoutAnswer(c, s));
    CountOf(c.cases, s, leg.FalsePositive, Answered(c, s, leg));
  }

  lemma OutdatedCounted(c: Corpus, s: Split, leg: Leg)
    ensures Count(InSplit(c.cases, s), HasObsolete) == |WithObsolete(c, s)|
    ensures Count(InSplit(c.cases, s), leg.ShowsObsolete) == |Outdated(c, s, leg)|
  {
    CountOf(c.cases, s, HasObsolete, WithObsolete(c, s));
    forall x: Case ensures leg.ShowsObsolete(x) <==> x.labels.obsoleteIds != [] && Shows(x, leg, x.labels.obsoleteIds) {
      ShowsObsoleteExact(x, leg);
    }
    CountOf(c.cases, s, leg.ShowsObsolete, Outdated(c, s, leg));
  }

  lemma CoversExact(x: Case, leg: Leg)
    ensures leg.CoversConflict(x) <==> x.kind == Conflict && ShowsAll(x, leg, x.labels.mustInclude)
  {
    SafetyExact(x.labels, leg.retrieve(x), leg.d);
  }

  lemma CoveredCounted(c: Corpus, s: Split, leg: Leg)
    ensures Count(InSplit(c.cases, s), IsConflict) == |Conflicts(c, s)|
    ensures Count(InSplit(c.cases, s), leg.CoversConflict) == |Covered(c, s, leg)|
  {
    CountOf(c.cases, s, IsConflict, Conflicts(c, s));
    forall x: Case ensures leg.CoversConflict(x) <==> x.kind == Conflict && ShowsAll(x, leg, x.labels.mustInclude) {
      CoversExact(x, leg);
    }
    CountOf(c.cases, s, leg.CoversConflict, Covered(c, s, leg));
  }

  /** The sizes and rates of a report: how many cases of the split each rate is about, and the share of them that got
      an answer where none is expected, were shown obsolete advice, and were shown everything required. */
  lemma RatesExact(c: Corpus, s: Split, leg: Leg)
    ensures
      var r := ReportOn(c, s, leg);
      && r.cases == |set i: nat | i < |c.cases| && c.cases[i].split == s|
      && r.noAnswerN == |WithoutAnswer(c, s)| && IsShare(r.noAnswerFpRate, Answered(c, s, leg), WithoutAnswer(c, s))
      && r.obsoleteN == |WithObsolete(c, s)| && IsShare(r.obsoleteRate, Outdated(c, s, leg), WithObsolete(c, s))
      && r.conflictN == |Conflicts(c, s)| && IsShare(r.conflictCoverage, Covered(c, s, leg), Conflicts(c, s))
  {
    SplitSize(c.cases, s);
    AnsweredCounted(c, s, leg);
    OutdatedCounted(c, s, leg);
    CoveredCounted(c, s, leg);
    ShareOf(Answered(c, s, leg), WithoutAnswer(c, s));
    ShareOf(Outdated(c, s, leg), WithObsolete(c, s));
    ShareOf(Covered(c, s, leg), Conflicts(c, s));
  }

  lemma ShareExtremes(rate: real, part: set<nat>, whole: set<nat>)
    requires IsShare(rate, part, whole)
    ensures rate == 1.0 <==> whole != {} && part == whole
    ensures rate == 0.0 <==> part == {}
  {
    if whole != {} {
      SmallerPart(part, whole);
      PerBounds(|part| as real, |whole|);
    }
  }

  lemma SmallerPart(part: set<nat>, whole: set<nat>)
    requires part <= whole
    ensures |part| <= |whole| && (|part| == |whole| ==> part == whole)
  {
    assert |whole| == |part| + |whole - part| by {
      assert whole == part + (whole - part);
    }
    if |part| == |whole| {
      assert whole - part == {};
    }
  }

  /** Conflict coverage is full if and only if the split has conflict cases and each shows every document it
      requires, and zero if and only if none does. */
  lemma ConflictCoverageExact(c: Corpus, s: Split, leg: Leg)
    ensures
      var coverage := ReportOn(c, s, leg).conflictCoverage;
      && (coverage == 1.0 <==>
            && (exists x :: x in c.cases && x.split == s && x.kind == Conflict)
            && (forall x :: x in c.cases && x.split == s && x.kind == Conflict ==> ShowsAll(x, leg, x.labels.mustInclude)))
      && (coverage == 0.0 <==>
            forall x :: x in c.cases && x.split == s && x.kind == Conflict ==> !ShowsAll(x, leg, x.labels.mustInclude))
  {
    var whole, part := Conflicts(c, s), Covered(c, s, leg);
    RatesExact(c, s, leg);
    ShareExtremes(ReportOn(c, s, leg).conflictCoverage, part, whole);
    forall x | x in c.cases && x.split == s && x.kind == Conflict
      ensures exists i :: i in whole && c.cases[i] == x
    {
      var i :| 0 <= i < |c.cases| && c.cases[i] == x;
      assert i in whole;
    }
    forall i | i in whole ensures c.cases[i] in c.cases && (i in part <==> ShowsAll(c.cases[i], leg, c.cases[i].labels.mustInclude)) {
    }
  }

  // ---- One case more ----

  /** The sum an average over n cases stands for. */
  function SumBehind(average: real, n: nat): real {
    average * n as real
  }

  lemma PerTimes(x: real, n: nat)
    requires n == 0 ==> x == 0.0
    ensures SumBehind(Per(x, n), n) == x
  {
  }

  lemma TotalAppend(xs: seq<Case>, x: Case, f: Case -> real)
    ensures Total(xs + [x], f) == Total(xs, f) + f(x)
  {
    assert (xs + [x])[..|xs|] == xs;
  }

  lemma LeaksAppend(xs: seq<Case>, x: Case, leg: Leg)
    ensures Sum(xs + [x], leg.LeaksOf) == Sum(xs, leg.LeaksOf) + leg.LeaksOf(x)
  {
    assert (xs + [x])[..|xs|] == xs;
  }

  lemma SplitAppend(cases: seq<Case>, x: Case, s: Split)
    ensures InSplit(cases + [x], s) == if x.split == s then InSplit(cases, s) + [x] else InSplit(cases, s)
  {
    assert (cases + [x])[..|cases|] == cases;
  }

  lemma AverageGrows(own: seq<Case>, x: Case, f: Case -> real)
    ensures SumBehind(Per(Total(own + [x], f), |own| + 1), |own| + 1) == SumBehind(Per(Total(own, f), |own|), |own|) + f(x)
  {
    TotalAppend(own, x, f);
    PerTimes(Total(own, f), |own|);
    PerTimes(Total(own + [x], f), |own| + 1);
  }

  /** A case of the other split changes nothing; a case of this one enters each average with its own score and the
      leakage total with its own leaks. Without cases everything is zero. */
  lemma OneCaseMore(c: Corpus, s: Split, leg: Leg, x: Case)
    ensures
      var r, r' := ReportOn(c, s, leg), ReportOn(c.(cases := c.cases + [x]), s, leg);
      var m := ScoreCase(x.labels, leg.retrieve(x), leg.d);
      if x.split != s then r' == r
      else
        && r'.cases == r.cases + 1 && r'.leakageTotal == r.leakageTotal + m.leakageCount
        && SumBehind(r'.recallAtK, r'.cases) == SumBehind(r.recallAtK, r.cases) + m.recallAtK
        && SumBehind(r'.mrr, r'.cases) == SumBehind(r.mrr, r.cases) + m.reciprocalRank
        && SumBehind(r'.ndcgAtK, r'.cases) == SumBehind(r.ndcgAtK, r.cases) + m.ndcgAtK
    ensures c.cases == [] ==> ReportOn(c, s, leg) == AblationReport(0, 0.0, 0.0, 0.0, 0.0, 0, 0.0, 0, 0.0, 0, 0)
  {
    SplitAppend(c.cases, x, s);
    if x.split == s {
      var own := InSplit(c.cases, s);
      AverageGrows(own, x, leg.RecallOf);
      AverageGrows(own, x, leg.ReciprocalOf);
      AverageGrows(own, x, leg.NdcgOf);
      LeaksAppend(own, x, leg);
    }
  }
}
