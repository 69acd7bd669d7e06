/** Scoring of one ranked list (src/bench/quality.rs), over the reals and for any positive, strictly
    decreasing position discount; the program's is 1 / log2(position + 2). */
module Ndcg {
  import opened Basics

  type DocId = string

  type Discount = nat -> real

  /** The labels of a case that the score depends on. */
  datatype QueryCase = QueryCase(
    relevant: seq<DocId>,
    mustInclude: seq<DocId>,
    mustExclude: seq<DocId>,
    obsoleteIds: seq<DocId>,
    topK: nat,
    noAnswer: bool)

  datatype CaseMetrics = CaseMetrics(
    recallAtK: real,
    reciprocalRank: real,
    ndcgAtK: real,
    noAnswerFp: bool,
    obsoleteHit: bool,
    mustIncludeCovered: bool,
    leakageCount: nat)

  ghost predicate Discounting(d: Discount) {
    (forall p: nat :: d(p) > 0.0) && (forall p: nat, q: nat :: p < q ==> d(p) > d(q))
  }

  // ---- The score ----

  /** A cut-off of zero counts as one. */
  function Cutoff(c: QueryCase): nat {
    if c.topK == 0 then 1 else c.topK
  }

  function Top(ranked: seq<DocId>, k: nat): seq<DocId> {
    ranked[..Min(|ranked|, k)]
  }

  function Members(xs: seq<DocId>): set<DocId> {
    set x | x in xs
  }

  function Hits(xs: seq<DocId>, rel: set<DocId>): nat {
    if xs == [] then 0 else Hits(xs[..|xs| - 1], rel) + if xs[|xs| - 1] in rel then 1 else 0
  }

  /** Sum of w over the positions of xs that hold a relevant document. */
  function Dcg(xs: seq<DocId>, rel: set<DocId>, w: Discount): real {
    if xs == [] then 0.0 else Dcg(xs[..|xs| - 1], rel, w) + if xs[|xs| - 1] in rel then w(|xs| - 1) else 0.0
  }

  /** Sum of d over the first n positions. */
  function Ideal(n: nat, d: Discount): real {
    if n == 0 then 0.0 else Ideal(n - 1, d) + d(n - 1)
  }

  function Recall(top: seq<DocId>, rel: set<DocId>): real {
    if rel == {} then 1.0 else Hits(top, rel) as real / |rel| as real
  }

  function NdcgAt(top: seq<DocId>, rel: set<DocId>, k: nat, d: Discount): real {
    var idcg := Ideal(Min(|rel|, k), d);
    if idcg == 0.0 then 1.0 else Dcg(top, rel, d) / idcg
  }

  /** 1 / (1 + position of the first relevant document), or zero. */
  function ReciprocalRank(top: seq<DocId>, rel: set<DocId>, from: nat): real {
    if top == [] then 0.0
    else if top[0] in rel then 1.0 / (from as real + 1.0)
    else ReciprocalRank(top[1..], rel, from + 1)
  }

  function CountIn(xs: seq<DocId>, s: set<DocId>): nat {
    if xs == [] then 0 else (if xs[0] in s then 1 else 0) + CountIn(xs[1..], s)
  }

  function ScoreCase(c: QueryCase, ranked: seq<DocId>, d: Discount): CaseMetrics {
    var k := Cutoff(c);
    var top := Top(ranked, k);
    var rel := Members(c.relevant);
    var topSet := Members(top);
    CaseMetrics(
      Recall(top, rel),
      ReciprocalRank(top, rel, 0),
      NdcgAt(top, rel, k, d),
      c.noAnswer && ranked != [],
      exists x :: x in c.obsoleteIds && x in topSet,
      forall x :: x in c.mustInclude ==> x in topSet,
      CountIn(c.mustExclude, topSet))
  }

  // ---- Hits ----

  lemma OneMoreMember(init: seq<DocId>, last: DocId, rel: set<DocId>)
    requires last !in init
    ensures |Members(init + [last]) * rel| == |Members(init) * rel| + if last in rel then 1 else 0
  {
    if last in rel {
      assert Members(init + [last]) * rel == Members(init) * rel + {last};
    } else {
      assert Members(init + [last]) * rel == Members(init) * rel;
    }
  }

  lemma {:induction false} HitsCount(xs: seq<DocId>, rel: set<DocId>)
    requires Distinct(xs)
    ensures Hits(xs, rel) == |Members(xs) * rel|
  {
    if xs == [] {
      assert Members(xs) * rel == {};
    } else {
      var init, last := xs[..|xs| - 1], xs[|xs| - 1];
      HitsCount(init, rel);
      assert xs == init + [last];
      OneMoreMember(init, last, rel);
    }
  }

  lemma HitsBound(xs: seq<DocId>, rel: set<DocId>)
    requires Distinct(xs)
    ensures Hits(xs, rel) <= |rel|
  {
    HitsCount(xs, rel);
    SubsetSize(Members(xs) * rel, rel);
  }

  lemma SubsetSize(a: set<DocId>, b: set<DocId>)
    requires a <= b
    ensures |a| <= |b|
  {
    assert b == a + (b - a);
  }

  lemma {:induction false} HitsLength(xs: seq<DocId>, rel: set<DocId>)
    ensures Hits(xs, rel) <= |xs|
    ensures Hits(xs, rel) == |xs| <==> forall i :: 0 <= i < |xs| ==> xs[i] in rel
  {
    if xs == [] {
    } else {
      HitsLength(xs[..|xs| - 1], rel);
      if Hits(xs, rel) == |xs| {
        forall i | 0 <= i < |xs| ensures xs[i] in rel {
          if i < |xs| - 1 {
            assert xs[i] == xs[..|xs| - 1][i];
          }
        }
      }
    }
  }

  /** It is the reciprocal of the first relevant position, counted from one. */
  lemma {:induction false} ReciprocalRankExact(top: seq<DocId>, rel: set<DocId>, from: nat, p: nat)
    requires p < |top| && top[p] in rel && forall q :: 0 <= q < p ==> top[q] !in rel
    ensures ReciprocalRank(top, rel, from) == 1.0 / ((from + p) as real + 1.0)
    decreases p
  {
    if p == 0 {
    } else {
      assert top[0] !in rel;
      forall q | 0 <= q < p - 1 ensures top[1..][q] !in rel {
        assert top[1..][q] == top[q + 1];
      }
      ReciprocalRankExact(top[1..], rel, from + 1, p - 1);
    }
  }

  /** It lies between 0 and 1, and is zero exactly when no position is relevant. */
  lemma {:induction false} ReciprocalRankBounds(top: seq<DocId>, rel: set<DocId>, from: nat)
    ensures 0.0 <= ReciprocalRank(top, rel, from) <= 1.0
    ensures ReciprocalRank(top, rel, from) == 0.0 <==> forall x :: x in top ==> x !in rel
    decreases |top|
  {
    ReciprocalPositive(from as real + 1.0);
    if top == [] {
    } else {
      assert top == [top[0]] + top[1..];
      ReciprocalRankBounds(top[1..], rel, from + 1);
    }
  }

  lemma ReciprocalPositive(x: real)
    requires x >= 1.0
    ensures 0.0 < 1.0 / x <= 1.0
  {
  }

  // ---- What each figure says of the list ----

  /** The document stands among the positions that count: the first `topK`, and always the first. */
  ghost predicate ShownAt(c: QueryCase, ranked: seq<DocId>, p: nat) {
    p < |ranked| && (p < c.topK || p == 0)
  }

  ghost predicate Shown(c: QueryCase, ranked: seq<DocId>, id: DocId) {
    exists p: nat :: ShownAt(c, ranked, p) && ranked[p] == id
  }

  lemma ShownIff(c: QueryCase, ranked: seq<DocId>, id: DocId)
    ensures id in Top(ranked, Cutoff(c)) <==> Shown(c, ranked, id)
  {
    var top := Top(ranked, Cutoff(c));
    if id in top {
      var p :| 0 <= p < |top| && top[p] == id;
      assert ShownAt(c, ranked, p);
    }
    if Shown(c, ranked, id) {
      var p: nat :| ShownAt(c, ranked, p) && ranked[p] == id;
      assert top[p] == id;
    }
  }

  /** The positions of xs that hold a member of s. */
  ghost function PositionsIn(xs: seq<DocId>, s: set<DocId>): set<nat> {
    set p: nat | p < |xs| && xs[p] in s
  }

  lemma {:induction false} HitsArePositions(xs: seq<DocId>, rel: set<DocId>)
    ensures Hits(xs, rel) == |PositionsIn(xs, rel)|
  {
    if xs == [] {
    } else {
      var n := |xs| - 1;
      HitsArePositions(xs[..n], rel);
      assert PositionsIn(xs, rel) == PositionsIn(xs[..n], rel) + if xs[n] in rel then {n} else {};
    }
  }

  lemma CountInSnoc(xs: seq<DocId>, x: DocId, s: set<DocId>)
    ensures CountIn(xs + [x], s) == CountIn(xs, s) + if x in s then 1 else 0
    decreases |xs|
  {
    if xs == [] {
      assert xs + [x] == [x];
    } else {
      assert (xs + [x])[1..] == xs[1..] + [x];
      CountInSnoc(xs[1..], x, s);
    }
  }

  lemma {:induction false} CountArePositions(xs: seq<DocId>, s: set<DocId>)
    ensures CountIn(xs, s) == |PositionsIn(xs, s)|
  {
    if xs == [] {
    } else {
      var n := |xs| - 1;
      CountArePositions(xs[..n], s);
      assert xs == xs[..n] + [xs[n]];
      CountInSnoc(xs[..n], xs[n], s);
      assert PositionsIn(xs, s) == PositionsIn(xs[..n], s) + if xs[n] in s then {n} else {};
    }
  }

  /** Recall is the share of the relevant documents that the shown positions hold, positions counted; it is 1
      without relevant documents. */
  lemma RecallExact(c: QueryCase, ranked: seq<DocId>, d: Discount)
    ensures
      var recall, rel := ScoreCase(c, ranked, d).recallAtK, set x | x in c.relevant;
      if rel == {} then recall == 1.0
      else recall == |set p: nat | p < |ranked| && ShownAt(c, ranked, p) && ranked[p] in rel| as real / |rel| as real
  {
    var top, rel := Top(ranked, Cutoff(c)), Members(c.relevant);
    HitsArePositions(top, rel);
    assert PositionsIn(top, rel) == set p: nat | p < |ranked| && ShownAt(c, ranked, p) && ranked[p] in rel;
    assert rel == set x | x in c.relevant;
  }

  /** The reciprocal rank is that of the first position shown that holds a relevant document, or zero. */
  lemma FirstRelevantExact(c: QueryCase, ranked: seq<DocId>, d: Discount, p: nat)
    ensures
      var first := ShownAt(c, ranked, p) && ranked[p] in c.relevant && forall q: nat :: q < p ==> ranked[q] !in c.relevant;
      first ==> ScoreCase(c, ranked, d).reciprocalRank == 1.0 / (p as real + 1.0)
    ensures ScoreCase(c, ranked, d).reciprocalRank == 0.0 <==> forall id :: id in c.relevant ==> !Shown(c, ranked, id)
  {
    var top, rel := Top(ranked, Cutoff(c)), Members(c.relevant);
    if ShownAt(c, ranked, p) && ranked[p] in c.relevant && forall q: nat :: q < p ==> ranked[q] !in c.relevant {
      assert top[p] == ranked[p];
      ReciprocalRankExact(top, rel, 0, p);
    }
    ReciprocalRankBounds(top, rel, 0);
    forall id ensures id in top <==> Shown(c, ranked, id) {
      ShownIff(c, ranked, id);
    }
  }

  /** The four safety figures: an answer where none is expected; some obsolete document shown; every required
      document shown; and how many entries of the forbidden list are shown. */
  lemma SafetyExact(c: QueryCase, ranked: seq<DocId>, d: Discount)
    ensures
      var m := ScoreCase(c, ranked, d);
      && (m.noAnswerFp <==> c.noAnswer && ranked != [])
      && (m.obsoleteHit <==> exists id :: id in c.obsoleteIds && Shown(c, ranked, id))
      && (m.mustIncludeCovered <==> forall id :: id in c.mustInclude ==> Shown(c, ranked, id))
      && m.leakageCount == |set p: nat | p < |c.mustExclude| && Shown(c, ranked, c.mustExclude[p])|
  {
    var top := Top(ranked, Cutoff(c));
    forall id ensures id in Members(top) <==> Shown(c, ranked, id) {
      ShownIff(c, ranked, id);
    }
    CountArePositions(c.mustExclude, Members(top));
    assert PositionsIn(c.mustExclude, Members(top)) == set p: nat | p < |c.mustExclude| && Shown(c, ranked, c.mustExclude[p]);
  }

  // ---- DCG against its ideal ----

  lemma {:induction false} IdealMonotone(m: nat, n: nat, d: Discount)
    requires Discounting(d) && m <= n
    ensures 0.0 <= Ideal(m, d) <= Ideal(n, d) && (m < n ==> Ideal(m, d) < Ideal(n, d))
    decreases n
  {
    if m < n {
      IdealMonotone(m, n - 1, d);
    } else if n > 0 {
      IdealMonotone(m - 1, n - 1, d);
    }
  }

  /** The h hits of a list weigh at most as much as the first h positions. */
  lemma {:induction false} DcgBound(xs: seq<DocId>, rel: set<DocId>, d: Discount)
    requires Discounting(d)
    ensures 0.0 <= Dcg(xs, rel, d) <= Ideal(Hits(xs, rel), d)
  {
    if xs == [] {
    } else {
      DcgBound(xs[..|xs| - 1], rel, d);
      HitsLength(xs[..|xs| - 1], rel);
    }
  }

  /** They weigh exactly as much only if they are the first h positions. */
  lemma {:induction false} DcgTight(xs: seq<DocId>, rel: set<DocId>, d: Discount)
    requires Discounting(d) && Dcg(xs, rel, d) == Ideal(Hits(xs, rel), d)
    ensures Hits(xs, rel) <= |xs| && forall i :: 0 <= i < Hits(xs, rel) ==> xs[i] in rel
  {
    if xs == [] {
    } else {
      var init := xs[..|xs| - 1];
      DcgBound(init, rel, d);
      HitsLength(init, rel);
      if xs[|xs| - 1] in rel {
        assert Hits(init, rel) == |init|;
        forall i | 0 <= i < |init| ensures xs[i] in rel {
          assert xs[i] == init[i];
        }
      } else {
        DcgTight(init, rel, d);
        forall i | 0 <= i < Hits(xs, rel) ensures xs[i] in rel {
          assert xs[i] == init[i];
        }
      }
    }
  }

  lemma {:induction false} DcgOfRelevantPrefix(xs: seq<DocId>, rel: set<DocId>, d: Discount, n: nat)
    requires Discounting(d) && n <= |xs| && forall i :: 0 <= i < n ==> xs[i] in rel
    ensures Dcg(xs, rel, d) >= Ideal(n, d)
    decreases |xs|
  {
    if xs == [] {
    } else {
      var init := xs[..|xs| - 1];
      if n == |xs| {
        DcgOfRelevantPrefix(init, rel, d, n - 1);
      } else {
        DcgOfRelevantPrefix(init, rel, d, n);
      }
    }
  }

  lemma QuotientBounds(a: real, b: real)
    requires 0.0 <= a <= b && b > 0.0
    ensures 0.0 <= a / b <= 1.0 && (a / b == 1.0 <==> a == b)
  {
  }

  // ---- Main results ----

  lemma TopFacts(ranked: seq<DocId>, k: nat, rel: set<DocId>)
    requires Distinct(Top(ranked, k))
    ensures |Top(ranked, k)| <= k && Hits(Top(ranked, k), rel) <= Min(|rel|, k)
  {
    HitsBound(Top(ranked, k), rel);
    HitsLength(Top(ranked, k), rel);
  }

  /** For a ranking without duplicates in its first k: recall and nDCG lie between 0 and 1. */
  lemma ScoresBounded(c: QueryCase, ranked: seq<DocId>, d: Discount)
    requires Discounting(d) && Distinct(Top(ranked, Cutoff(c)))
    ensures
      var m := ScoreCase(c, ranked, d);
      0.0 <= m.recallAtK <= 1.0 && 0.0 <= m.ndcgAtK <= 1.0
  {
    var k := Cutoff(c);
    var top, rel := Top(ranked, k), Members(c.relevant);
    TopFacts(ranked, k, rel);
    DcgBound(top, rel, d);
    IdealMonotone(Hits(top, rel), Min(|rel|, k), d);
    if rel != {} {
      IdealMonotone(0, Min(|rel|, k), d);
      QuotientBounds(Dcg(top, rel, d), Ideal(Min(|rel|, k), d));
      QuotientBounds(Hits(top, rel) as real, |rel| as real);
    }
  }

  /** nDCG is 1 exactly when the first min(|relevant|, k) positions are there and all hold relevant documents. */
  lemma NdcgOptimum(c: QueryCase, ranked: seq<DocId>, d: Discount)
    requires Discounting(d) && Distinct(Top(ranked, Cutoff(c)))
    ensures
      var n := Min(|Members(c.relevant)|, Cutoff(c));
      ScoreCase(c, ranked, d).ndcgAtK == 1.0 <==> n <= |ranked| && forall i :: 0 <= i < n ==> ranked[i] in c.relevant
  {
    var k := Cutoff(c);
    var top, rel := Top(ranked, k), Members(c.relevant);
    var n := Min(|rel|, k);
    TopFacts(ranked, k, rel);
    DcgBound(top, rel, d);
    IdealMonotone(Hits(top, rel), n, d);
    if n > 0 {
      IdealMonotone(0, n, d);
      QuotientBounds(Dcg(top, rel, d), Ideal(n, d));
      if Dcg(top, rel, d) == Ideal(n, d) {
        DcgTight(top, rel, d);
      }
      if n <= |ranked| && forall i :: 0 <= i < n ==> ranked[i] in c.relevant {
        DcgOfRelevantPrefix(top, rel, d, n);
      }
    }
  }

  // ---- Moving a relevant document up ----

  /** The document at j is taken out and put in at i. */
  function MoveUp(xs: seq<DocId>, i: nat, j: nat): seq<DocId>
    requires i <= j < |xs|
  {
    xs[..i] + [xs[j]] + xs[i..j] + xs[j + 1..]
  }

  function SwapAt(xs: seq<DocId>, p: nat): seq<DocId>
    requires p + 1 < |xs|
  {
    xs[..p] + [xs[p + 1], xs[p]] + xs[p + 2..]
  }

  ghost predicate NonIncreasing(w: Discount) {
    forall p: nat, q: nat :: p <= q ==> w(p) >= w(q)
  }

  lemma {:induction false} SwapRaisesDcg(xs: seq<DocId>, rel: set<DocId>, w: Discount, p: nat)
    requires NonIncreasing(w) && p + 1 < |xs| && xs[p + 1] in rel
    ensures Dcg(SwapAt(xs, p), rel, w) >= Dcg(xs, rel, w)
    decreases |xs|
  {
    var ys := SwapAt(xs, p);
    var n := |xs| - 1;
    if p + 1 == n {
      assert xs[..n][..p] == xs[..p] == ys[..n][..p];
      assert xs[..n][p] == xs[p] && ys[..n][p] == xs[p + 1];
    } else {
      assert ys[..n] == SwapAt(xs[..n], p) && ys[n] == xs[n];
      SwapRaisesDcg(xs[..n], rel, w, p);
    }
  }

  /** Moving up is swapping with each predecessor in turn. */
  lemma SwapThenMove(xs: seq<DocId>, i: nat, j: nat)
    requires i < j < |xs|
    ensures |SwapAt(xs, j - 1)| == |xs| && SwapAt(xs, j - 1)[j - 1] == xs[j]
    ensures MoveUp(SwapAt(xs, j - 1), i, j - 1) == MoveUp(xs, i, j)
  {
  }

  lemma {:induction false} MoveUpRaisesDcg(xs: seq<DocId>, rel: set<DocId>, w: Discount, i: nat, j: nat)
    requires NonIncreasing(w) && i <= j < |xs| && xs[j] in rel
    ensures Dcg(MoveUp(xs, i, j), rel, w) >= Dcg(xs, rel, w)
    decreases j
  {
    if i == j {
      assert MoveUp(xs, i, j) == xs;
    } else {
      var ys := SwapAt(xs, j - 1);
      SwapThenMove(xs, i, j);
      SwapRaisesDcg(xs, rel, w, j - 1);
      MoveUpRaisesDcg(ys, rel, w, i, j - 1);
    }
  }

  /** The discount cut off at k. */
  function CutAt(d: Discount, k: nat): Discount {
    (p: nat) => if p < k then d(p) else 0.0
  }

  lemma {:induction false} CutDcg(xs: seq<DocId>, rel: set<DocId>, d: Discount, k: nat)
    ensures Dcg(xs, rel, CutAt(d, k)) == Dcg(Top(xs, k), rel, d)
    decreases |xs|
  {
    if |xs| == 0 {
    } else {
      var init := xs[..|xs| - 1];
      CutDcg(init, rel, d, k);
      if |xs| <= k {
        assert Top(xs, k) == xs && Top(init, k) == init;
      } else {
        assert Top(xs, k) == Top(init, k);
      }
    }
  }

  /** Moving a relevant document to an earlier position, from inside or outside the first k, never lowers nDCG. */
  lemma MovingUpNeverLowers(c: QueryCase, ranked: seq<DocId>, d: Discount, i: nat, j: nat)
    requires Discounting(d) && i <= j < |ranked| && ranked[j] in c.relevant
    ensures ScoreCase(c, MoveUp(ranked, i, j), d).ndcgAtK >= ScoreCase(c, ranked, d).ndcgAtK
  {
    var k := Cutoff(c);
    var rel := Members(c.relevant);
    var idcg := Ideal(Min(|rel|, k), d);
    MoveUpRaisesDcg(ranked, rel, CutAt(d, k), i, j);
    CutDcg(ranked, rel, d, k);
    CutDcg(MoveUp(ranked, i, j), rel, d, k);
    IdealMonotone(0, Min(|rel|, k), d);
    if idcg != 0.0 {
      DivideMonotone(Dcg(Top(ranked, k), rel, d), Dcg(Top(MoveUp(ranked, i, j), k), rel, d), idcg);
    }
  }

  lemma DivideMonotone(a: real, b: real, m: real)
    requires a <= b && m > 0.0
    ensures a / m <= b / m
  {
  }

  // ---- Duplicates ----

  lemma {:induction false} DistinctMembers(xs: seq<DocId>)
    ensures |Members(xs)| <= |xs|
    ensures |Members(xs)| == |xs| <==> Distinct(xs)
  {
    if xs == [] {
    } else {
      var init, last := xs[..|xs| - 1], xs[|xs| - 1];
      DistinctMembers(init);
      assert xs == init + [last];
      assert Members(xs) == Members(init) + {last};
      if last in init {
        var i :| 0 <= i < |init| && init[i] == last;
        assert xs[i] == xs[|xs| - 1];
      } else {
        DistinctSnoc(init, last);
      }
    }
  }

  lemma DistinctSnoc(init: seq<DocId>, last: DocId)
    requires last !in init
    ensures Distinct(init + [last]) <==> Distinct(init)
  {
    var xs := init + [last];
    if Distinct(xs) {
      forall i, j | 0 <= i < j < |init| ensures init[i] != init[j] {
        assert xs[i] != xs[j];
      }
    }
  }

  /** If a document is repeated, the labels that call every listed document relevant score above 1. */
  lemma RepeatedExceeds(top: seq<DocId>, k: nat, d: Discount)
    requires Discounting(d) && |top| <= k && !Distinct(top)
    ensures Recall(top, Members(top)) > 1.0 && NdcgAt(top, Members(top), k, d) > 1.0
  {
    var rel := Members(top);
    DistinctMembers(top);
    HitsLength(top, rel);
    DcgOfRelevantPrefix(top, rel, d, |top|);
    assert top[0] in rel;
    IdealMonotone(0, |rel|, d);
    IdealMonotone(|rel|, |top|, d);
    OverOne(Dcg(top, rel, d), Ideal(|rel|, d));
    OverOne(|top| as real, |rel| as real);
  }

  /** For any one discount: recall and nDCG keep to the bound of 1 for all label sets if and only if the
      first k documents have no duplicates. */
  lemma BoundsIffDistinct(ranked: seq<DocId>, k: nat, d: Discount)
    requires Discounting(d)
    ensures (forall rel: set<DocId> :: Recall(Top(ranked, k), rel) <= 1.0) <==> Distinct(Top(ranked, k))
    ensures (forall rel: set<DocId> :: NdcgAt(Top(ranked, k), rel, k, d) <= 1.0) <==> Distinct(Top(ranked, k))
  {
    var top := Top(ranked, k);
    if Distinct(top) {
      forall rel: set<DocId> ensures Recall(top, rel) <= 1.0 && NdcgAt(top, rel, k, d) <= 1.0 {
        DistinctRecall(ranked, k, rel);
        DistinctNdcg(ranked, k, rel, d);
      }
    } else {
      RepeatedExceeds(top, k, d);
    }
  }

  /** x stands in xs at positions i and j and nowhere else. */
  ghost predicate ListedAt(xs: seq<DocId>, x: DocId, i: nat, j: nat) {
    i < j < |xs| && forall p :: 0 <= p < |xs| ==> (xs[p] == x <==> p == i || p == j)
  }

  lemma {:induction false} DcgOfNone(xs: seq<DocId>, x: DocId, d: Discount)
    requires x !in xs
    ensures Dcg(xs, {x}, d) == 0.0 && Hits(xs, {x}) == 0
  {
    if xs == [] {
    } else {
      DcgOfNone(xs[..|xs| - 1], x, d);
    }
  }

  lemma {:induction false} DcgOfOne(xs: seq<DocId>, x: DocId, d: Discount, i: nat)
    requires i < |xs| && forall p :: 0 <= p < |xs| ==> (xs[p] == x <==> p == i)
    ensures Dcg(xs, {x}, d) == d(i) && Hits(xs, {x}) == 1
    decreases |xs|
  {
    var init := xs[..|xs| - 1];
    if i == |init| {
      DcgOfNone(init, x, d);
    } else {
      DcgOfOne(init, x, d, i);
    }
  }

  lemma {:induction false} DcgOfPair(xs: seq<DocId>, x: DocId, d: Discount, i: nat, j: nat)
    requires ListedAt(xs, x, i, j)
    ensures Dcg(xs, {x}, d) == d(i) + d(j) && Hits(xs, {x}) == 2
    decreases |xs|
  {
    var init := xs[..|xs| - 1];
    if j == |init| {
      DcgOfOne(init, x, d, i);
    } else {
      DcgOfPair(init, x, d, i, j);
    }
  }

  /** The sole relevant document listed twice: recall is 2 wherever it stands, and nDCG exceeds 1 exactly when
      the two positions together weigh more than the first. */
  lemma ListedTwice(c: QueryCase, ranked: seq<DocId>, d: Discount, x: DocId, i: nat, j: nat)
    requires Discounting(d) && Members(c.relevant) == {x} && ListedAt(Top(ranked, Cutoff(c)), x, i, j)
    ensures ScoreCase(c, ranked, d).recallAtK == 2.0
    ensures ScoreCase(c, ranked, d).ndcgAtK > 1.0 <==> d(i) + d(j) > d(0)
  {
    var k := Cutoff(c);
    DcgOfPair(Top(ranked, k), x, d, i, j);
    assert |{x}| == 1 && Min(1, k) == 1;
    assert Ideal(1, d) == Ideal(0, d) + d(0) == d(0);
    OverOne(d(i) + d(j), d(0));
  }

  lemma OverOne(a: real, b: real)
    requires b > 0.0
    ensures a / b > 1.0 <==> a > b
  {
    assert a == a / b * b;
  }

  lemma DistinctRecall(ranked: seq<DocId>, k: nat, rel: set<DocId>)
    requires Distinct(Top(ranked, k))
    ensures Recall(Top(ranked, k), rel) <= 1.0
  {
    TopFacts(ranked, k, rel);
    if rel != {} {
      QuotientBounds(Hits(Top(ranked, k), rel) as real, |rel| as real);
    }
  }

  lemma DistinctNdcg(ranked: seq<DocId>, k: nat, rel: set<DocId>, d: Discount)
    requires Distinct(Top(ranked, k)) && Discounting(d)
    ensures NdcgAt(Top(ranked, k), rel, k, d) <= 1.0
  {
    var top := Top(ranked, k);
    TopFacts(ranked, k, rel);
    DcgBound(top, rel, d);
    IdealMonotone(Hits(top, rel), Min(|rel|, k), d);
    if Ideal(Min(|rel|, k), d) != 0.0 {
      QuotientBounds(Dcg(top, rel, d), Ideal(Min(|rel|, k), d));
    }
  }
}
