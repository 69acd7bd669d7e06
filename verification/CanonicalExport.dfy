/** The canonical form of an export and its digest (crates/domain/src/export.rs). */
module CanonicalExport {
  import opened Basics

  // ---- Stable sorting by key ----

  ghost predicate TotalOrder<K(!new)>(le: (K, K) -> bool) {
    && (forall a, b :: le(a, b) || le(b, a))
    && (forall a, b :: le(a, b) && le(b, a) ==> a == b)
    && (forall a, b, c :: le(a, b) && le(b, c) ==> le(a, c))
  }

  /** A record, as far as the canonical form is concerned. */
  datatype Record<K> = Record(key: K, body: string)

  /** Before the first element with a strictly larger key. */
  function InsertLast<K>(xs: seq<Record<K>>, x: Record<K>, le: (K, K) -> bool): seq<Record<K>> {
    if xs == [] || le(xs[|xs| - 1].key, x.key) then xs + [x]
    else InsertLast(xs[..|xs| - 1], x, le) + [xs[|xs| - 1]]
  }

  /** The result of a stable sort: the standard library's algorithm is another one with this outcome. */
  function SortByKey<K>(xs: seq<Record<K>>, le: (K, K) -> bool): seq<Record<K>> {
    if xs == [] then [] else InsertLast(SortByKey(xs[..|xs| - 1], le), xs[|xs| - 1], le)
  }

  ghost predicate Sorted<K>(xs: seq<Record<K>>, le: (K, K) -> bool) {
    forall i, j :: 0 <= i < j < |xs| ==> le(xs[i].key, xs[j].key)
  }

  function WithKey<K(==)>(xs: seq<Record<K>>, k: K): seq<Record<K>> {
    if xs == [] then [] else WithKey(xs[..|xs| - 1], k) + if xs[|xs| - 1].key == k then [xs[|xs| - 1]] else []
  }

  lemma Snoc<K>(xs: seq<Record<K>>)
    requires xs != []
    ensures xs == xs[..|xs| - 1] + [xs[|xs| - 1]]
  {
  }

  lemma WithKeySnoc<K>(xs: seq<Record<K>>, x: Record<K>, k: K)
    ensures WithKey(xs + [x], k) == WithKey(xs, k) + if x.key == k then [x] else []
  {
    assert (xs + [x])[..|xs|] == xs;
  }

  lemma {:induction false} InsertMembers<K>(xs: seq<Record<K>>, x: Record<K>, le: (K, K) -> bool)
    ensures multiset(InsertLast(xs, x, le)) == multiset(xs) + multiset{x}
    ensures forall r :: r in InsertLast(xs, x, le) <==> r in xs || r == x
    decreases |xs|
  {
    if xs != [] && !le(xs[|xs| - 1].key, x.key) {
      Snoc(xs);
      InsertMembers(xs[..|xs| - 1], x, le);
    }
  }

  lemma SortedSnoc<K>(ys: seq<Record<K>>, last: Record<K>, le: (K, K) -> bool)
    requires Sorted(ys, le) && forall r :: r in ys ==> le(r.key, last.key)
    ensures Sorted(ys + [last], le)
  {
  }

  lemma {:induction false} InsertSorted<K(!new)>(xs: seq<Record<K>>, x: Record<K>, le: (K, K) -> bool)
    requires TotalOrder(le) && Sorted(xs, le)
    ensures Sorted(InsertLast(xs, x, le), le)
    decreases |xs|
  {
    if xs == [] {
    } else {
      var init, last := xs[..|xs| - 1], xs[|xs| - 1];
      if le(last.key, x.key) {
        forall r | r in xs ensures le(r.key, x.key) {
          LastIsLargest(xs, r, le);
        }
        SortedSnoc(xs, x, le);
      } else {
        InsertSorted(init, x, le);
        InsertMembers(init, x, le);
        forall r | r in InsertLast(init, x, le) ensures le(r.key, last.key) {
          if r in init {
            LastIsLargest(xs, r, le);
          }
        }
        SortedSnoc(InsertLast(init, x, le), last, le);
      }
    }
  }

  lemma {:induction false} InsertStable<K(!new)>(xs: seq<Record<K>>, x: Record<K>, le: (K, K) -> bool, k: K)
    requires TotalOrder(le)
    ensures WithKey(InsertLast(xs, x, le), k) == WithKey(xs, k) + if x.key == k then [x] else []
    decreases |xs|
  {
    if xs == [] || le(xs[|xs| - 1].key, x.key) {
      WithKeySnoc(xs, x, k);
    } else {
      var init, last := xs[..|xs| - 1], xs[|xs| - 1];
      InsertStable(init, x, le, k);
      WithKeySnoc(InsertLast(init, x, le), last, k);
    }
  }

  /** Sorting gives a sorted permutation in which records with one key keep their order. */
  lemma {:induction false} SortSpec<K(!new)>(xs: seq<Record<K>>, le: (K, K) -> bool)
    requires TotalOrder(le)
    ensures Sorted(SortByKey(xs, le), le) && multiset(SortByKey(xs, le)) == multiset(xs)
    ensures forall k :: WithKey(SortByKey(xs, le), k) == WithKey(xs, k)
    decreases |xs|
  {
    if xs == [] {
    } else {
      var init, last := xs[..|xs| - 1], xs[|xs| - 1];
      Snoc(xs);
      SortSpec(init, le);
      InsertSorted(SortByKey(init, le), last, le);
      InsertMembers(SortByKey(init, le), last, le);
      forall k ensures WithKey(SortByKey(xs, le), k) == WithKey(xs, k) {
        InsertStable(SortByKey(init, le), last, le, k);
      }
    }
  }

  /** Sorting what is sorted changes nothing. */
  lemma {:induction false} SortOfSorted<K(!new)>(xs: seq<Record<K>>, le: (K, K) -> bool)
    requires TotalOrder(le) && Sorted(xs, le)
    ensures SortByKey(xs, le) == xs
    decreases |xs|
  {
    if xs == [] {
    } else {
      Snoc(xs);
      SortOfSorted(xs[..|xs| - 1], le);
    }
  }

  /** No two different records share a key. */
  ghost predicate KeysIdentify<K>(xs: seq<Record<K>>) {
    forall x, y :: x in xs && y in xs && x.key == y.key ==> x == y
  }

  lemma MultisetSnoc<K>(xs: seq<Record<K>>)
    requires xs != []
    ensures multiset(xs[..|xs| - 1]) == multiset(xs) - multiset{xs[|xs| - 1]}
  {
    Snoc(xs);
  }

  lemma PermutationMembers<K>(xs: seq<Record<K>>, ys: seq<Record<K>>)
    requires multiset(xs) == multiset(ys)
    ensures |xs| == |ys| && forall r :: r in xs <==> r in ys
  {
    assert |multiset(xs)| == |xs| && |multiset(ys)| == |ys|;
    assert forall r :: r in xs <==> r in multiset(xs);
    assert forall r :: r in ys <==> r in multiset(ys);
  }

  lemma {:induction false} SortedPermutationsEqual<K(!new)>(xs: seq<Record<K>>, ys: seq<Record<K>>, le: (K, K) -> bool)
    requires TotalOrder(le) && Sorted(xs, le) && Sorted(ys, le) && multiset(xs) == multiset(ys) && KeysIdentify(xs)
    ensures xs == ys
    decreases |xs|
  {
    PermutationMembers(xs, ys);
    if xs == [] {
    } else {
      var n := |xs| - 1;
      LastIsLargest(xs, ys[n], le);
      LastIsLargest(ys, xs[n], le);
      assert xs[n] == ys[n];
      MultisetSnoc(xs);
      MultisetSnoc(ys);
      SortedPermutationsEqual(xs[..n], ys[..n], le);
      Snoc(xs);
      Snoc(ys);
    }
  }

  lemma LastIsLargest<K(!new)>(xs: seq<Record<K>>, y: Record<K>, le: (K, K) -> bool)
    requires TotalOrder(le) && Sorted(xs, le) && y in xs
    ensures le(y.key, xs[|xs| - 1].key)
  {
    var i :| 0 <= i < |xs| && xs[i] == y;
    if i == |xs| - 1 {
      assert le(y.key, y.key) || le(y.key, y.key);
    }
  }

  ghost predicate Permutes<K>(xs: seq<Record<K>>, ys: seq<Record<K>>) {
    multiset(xs) == multiset(ys)
  }

  lemma SortForgetsOrder<K(!new)>(xs: seq<Record<K>>, ys: seq<Record<K>>, le: (K, K) -> bool)
    requires TotalOrder(le) && KeysIdentify(xs)
    ensures SortByKey(xs, le) == SortByKey(ys, le) <==> Permutes(xs, ys)
  {
    SortSpec(xs, le);
    SortSpec(ys, le);
    if Permutes(xs, ys) {
      var s := SortByKey(xs, le);
      assert forall r :: r in s ==> r in multiset(s) && r in multiset(xs);
      assert forall r :: r in s ==> r in xs;
      SortedPermutationsEqual(s, SortByKey(ys, le), le);
    }
  }

  lemma {:induction false} SameKeysMembers<K>(xs: seq<Record<K>>, k: K, r: Record<K>)
    ensures r in WithKey(xs, k) <==> r in xs && r.key == k
  {
    if xs == [] {
    } else {
      Snoc(xs);
      SameKeysMembers(xs[..|xs| - 1], k, r);
    }
  }

  /** The same records in the same order, key by key. */
  ghost predicate AgreeByKey<K(!new)>(xs: seq<Record<K>>, ys: seq<Record<K>>) {
    forall k :: WithKey(xs, k) == WithKey(ys, k)
  }

  lemma AgreeMembers<K(!new)>(xs: seq<Record<K>>, ys: seq<Record<K>>, r: Record<K>)
    requires AgreeByKey(xs, ys)
    ensures r in xs <==> r in ys
  {
    SameKeysMembers(xs, r.key, r);
    SameKeysMembers(ys, r.key, r);
  }

  lemma CancelEnd<T>(a: seq<T>, b: seq<T>, end: seq<T>)
    requires a + end == b + end
    ensures a == b
  {
    assert |a + end| == |a| + |end| && |b + end| == |b| + |end|;
    assert a == (a + end)[..|a|] && b == (b + end)[..|b|];
  }

  lemma AgreeWithoutLast<K(!new)>(xs: seq<Record<K>>, ys: seq<Record<K>>, last: Record<K>)
    requires AgreeByKey(xs + [last], ys + [last])
    ensures AgreeByKey(xs, ys)
  {
    forall k ensures WithKey(xs, k) == WithKey(ys, k) {
      WithKeySnoc(xs, last, k);
      WithKeySnoc(ys, last, k);
      assert WithKey(xs + [last], k) == WithKey(ys + [last], k);
      CancelEnd(WithKey(xs, k), WithKey(ys, k), if last.key == k then [last] else []);
    }
  }

  /** The last record of a sorted sequence is also the last of those with its key. */
  lemma LastOfKey<K>(xs: seq<Record<K>>)
    requires xs != []
    ensures
      var own := WithKey(xs, xs[|xs| - 1].key);
      own != [] && own[|own| - 1] == xs[|xs| - 1]
  {
  }

  lemma SameLast<K(!new)>(xs: seq<Record<K>>, ys: seq<Record<K>>, le: (K, K) -> bool)
    requires TotalOrder(le) && Sorted(xs, le) && Sorted(ys, le) && AgreeByKey(xs, ys) && xs != []
    ensures ys != [] && xs[|xs| - 1] == ys[|ys| - 1]
  {
    AgreeMembers(xs, ys, xs[0]);
    var x, y := xs[|xs| - 1], ys[|ys| - 1];
    AgreeMembers(xs, ys, x);
    AgreeMembers(xs, ys, y);
    LastIsLargest(xs, y, le);
    LastIsLargest(ys, x, le);
    LastOfKey(xs);
    LastOfKey(ys);
    assert WithKey(xs, x.key) == WithKey(ys, x.key);
  }

  lemma {:induction false} SortedAgreeEqual<K(!new)>(xs: seq<Record<K>>, ys: seq<Record<K>>, le: (K, K) -> bool)
    requires TotalOrder(le) && Sorted(xs, le) && Sorted(ys, le) && AgreeByKey(xs, ys)
    ensures xs == ys
    decreases |xs|
  {
    if xs == [] {
      if ys != [] {
        AgreeMembers(xs, ys, ys[0]);
      }
    } else {
      SameLast(xs, ys, le);
      Snoc(xs);
      Snoc(ys);
      AgreeWithoutLast(xs[..|xs| - 1], ys[..|ys| - 1], xs[|xs| - 1]);
      SortedAgreeEqual(xs[..|xs| - 1], ys[..|ys| - 1], le);
    }
  }

  /** Two sequences sort alike if and only if, for every key, they hold the same records in the same order. */
  lemma EqualSortsIff<K(!new)>(xs: seq<Record<K>>, ys: seq<Record<K>>, le: (K, K) -> bool)
    requires TotalOrder(le)
    ensures SortByKey(xs, le) == SortByKey(ys, le) <==> AgreeByKey(xs, ys)
  {
    var s, t := SortByKey(xs, le), SortByKey(ys, le);
    SortSpec(xs, le);
    SortSpec(ys, le);
    if AgreeByKey(xs, ys) {
      forall k ensures WithKey(s, k) == WithKey(t, k) {
        assert WithKey(xs, k) == WithKey(ys, k);
      }
      SortedAgreeEqual(s, t, le);
    }
    if s == t {
      forall k ensures WithKey(xs, k) == WithKey(ys, k) {
        assert WithKey(s, k) == WithKey(xs, k);
      }
    }
  }

  /** Sorting brings all arrangements of the records to one form if and only if keys identify them. */
  lemma CanonicalIff<K(!new)>(xs: seq<Record<K>>, le: (K, K) -> bool)
    requires TotalOrder(le)
    ensures (forall ys :: Permutes(xs, ys) ==> SortByKey(ys, le) == SortByKey(xs, le)) <==> KeysIdentify(xs)
  {
    if KeysIdentify(xs) {
      forall ys | Permutes(xs, ys) ensures SortByKey(ys, le) == SortByKey(xs, le) {
        SortForgetsOrder(xs, ys, le);
      }
    } else {
      var x, y :| x in xs && y in xs && x.key == y.key && x != y;
      var a, b := TwoArrangements(xs, x, y);
      SortSpec(a, le);
      SortSpec(b, le);
      assert WithKey(SortByKey(a, le), x.key) == WithKey(a, x.key) != WithKey(b, x.key) == WithKey(SortByKey(b, le), x.key);
    }
  }

  /** Two arrangements of the same records that end in x, y and in y, x. */
  lemma TwoArrangements<K>(xs: seq<Record<K>>, x: Record<K>, y: Record<K>) returns (a: seq<Record<K>>, b: seq<Record<K>>)
    requires x in xs && y in xs && x.key == y.key && x != y
    ensures Permutes(xs, a) && Permutes(xs, b)
    ensures WithKey(a, x.key) != [] && WithKey(a, x.key)[|WithKey(a, x.key)| - 1] == y
    ensures WithKey(b, x.key) != [] && WithKey(b, x.key)[|WithKey(b, x.key)| - 1] == x
  {
    var rest := WithoutBoth(xs, x, y);
    a, b := rest + [x] + [y], rest + [y] + [x];
    WithKeySnoc(rest + [x], y, x.key);
    WithKeySnoc(rest + [y], x, x.key);
  }

  lemma WithoutBoth<K>(xs: seq<Record<K>>, x: Record<K>, y: Record<K>) returns (rest: seq<Record<K>>)
    requires x in xs && y in xs && x != y
    ensures multiset(rest) + multiset{x} + multiset{y} == multiset(xs)
  {
    var one := Without(xs, x);
    WithoutExact(xs, x);
    assert x in multiset(xs) && y in multiset(xs);
    assert y in multiset(one);
    rest := Without(one, y);
    WithoutExact(one, y);
  }

  function Without<K(==)>(xs: seq<Record<K>>, x: Record<K>): seq<Record<K>> {
    if xs == [] then []
    else if xs[|xs| - 1] == x then xs[..|xs| - 1]
    else Without(xs[..|xs| - 1], x) + [xs[|xs| - 1]]
  }

  lemma {:induction false} WithoutExact<K>(xs: seq<Record<K>>, x: Record<K>)
    requires x in xs
    ensures multiset(Without(xs, x)) == multiset(xs) - multiset{x}
  {
    Snoc(xs);
    if xs[|xs| - 1] != x {
      WithoutExact(xs[..|xs| - 1], x);
    }
  }

  // ---- Key orders ----

  function IdLe(): (nat, nat) -> bool {
    (a: nat, b: nat) => a <= b
  }

  lemma OrdersTotal()
    ensures TotalOrder(IdLe()) && TotalOrder(NameLe)
  {
    forall a, b ensures (NameLe(a, b) || NameLe(b, a)) && (NameLe(a, b) && NameLe(b, a) ==> a == b) {
      NameLeTotal(a, b);
    }
    forall a, b, c | NameLe(a, b) && NameLe(b, c) ensures NameLe(a, c) {
      NameLeTransitive(a, b, c);
    }
  }

  // ---- Exports ----

  type ById = seq<Record<nat>>
  type ByName = seq<Record<string>>

  datatype Export = Export(
    memories: ById,
    relations: ById,
    guides: ByName,
    sessions: ById,
    feedback: ById,
    suggestions: ById,
    projects: ById,
    archives: ById,
    history: ById,
    unknownFields: map<string, string>)

  /** Seven collections are sorted; sessions and projects stay as they are. */
  function Normalized(e: Export): Export {
    Export(
      SortByKey(e.memories, IdLe()),
      SortByKey(e.relations, IdLe()),
      SortByKey(e.guides, NameLe),
      e.sessions,
      SortByKey(e.feedback, IdLe()),
      SortByKey(e.suggestions, IdLe()),
      e.projects,
      SortByKey(e.archives, IdLe()),
      SortByKey(e.history, IdLe()),
      e.unknownFields)
  }

  /** ys is xs in ascending order of ids, records with one id in the order they had. */
  ghost predicate AscendingIds(xs: ById, ys: ById) {
    && multiset(ys) == multiset(xs) && (forall i, j :: 0 <= i < j < |ys| ==> ys[i].key <= ys[j].key)
    && forall k :: WithKey(ys, k) == WithKey(xs, k)
  }

  /** A name comes before its continuations, and otherwise the first difference decides. */
  ghost predicate NameBefore(a: string, b: string) {
    a <= b || exists i: nat :: i < |a| && i < |b| && a[i] < b[i] && forall j :: 0 <= j < i ==> a[j] == b[j]
  }

  ghost predicate AscendingNames(xs: ByName, ys: ByName) {
    && multiset(ys) == multiset(xs) && (forall i, j :: 0 <= i < j < |ys| ==> NameBefore(ys[i].key, ys[j].key))
    && forall k :: WithKey(ys, k) == WithKey(xs, k)
  }

  lemma IdsAscend(xs: ById)
    ensures AscendingIds(xs, SortByKey(xs, IdLe()))
  {
    OrdersTotal();
    SortSpec(xs, IdLe());
    var ys := SortByKey(xs, IdLe());
    forall i, j | 0 <= i < j < |ys| ensures ys[i].key <= ys[j].key {
      assert IdLe()(ys[i].key, ys[j].key);
    }
  }

  lemma NamesAscend(xs: ByName)
    ensures AscendingNames(xs, SortByKey(xs, NameLe))
  {
    OrdersTotal();
    SortSpec(xs, NameLe);
    var ys := SortByKey(xs, NameLe);
    forall i, j | 0 <= i < j < |ys| ensures NameBefore(ys[i].key, ys[j].key) {
      NameLeIff(ys[i].key, ys[j].key);
      assert forall n: nat :: SmallerAt(ys[i].key, ys[j].key, n) ==> NameBefore(ys[i].key, ys[j].key);
    }
  }

  /** Normalising puts six collections in ascending order of ids and the guides in ascending order of names, each stably,
      and leaves sessions, projects and unknown fields alone. */
  lemma NormalizeExact(e: Export)
    ensures
      var n := Normalized(e);
      && AscendingIds(e.memories, n.memories) && AscendingIds(e.relations, n.relations) && AscendingNames(e.guides, n.guides)
      && AscendingIds(e.feedback, n.feedback) && AscendingIds(e.suggestions, n.suggestions)
      && AscendingIds(e.archives, n.archives) && AscendingIds(e.history, n.history)
      && n.sessions == e.sessions && n.projects == e.projects && n.unknownFields == e.unknownFields
  {
    IdsAscend(e.memories);
    IdsAscend(e.relations);
    NamesAscend(e.guides);
    IdsAscend(e.feedback);
    IdsAscend(e.suggestions);
    IdsAscend(e.archives);
    IdsAscend(e.history);
  }

  ghost predicate UniqueKeys(e: Export) {
    && KeysIdentify(e.memories) && KeysIdentify(e.relations) && KeysIdentify(e.guides) && KeysIdentify(e.feedback)
    && KeysIdentify(e.suggestions) && KeysIdentify(e.archives) && KeysIdentify(e.history)
  }

  /** The same records: reordered in the seven sorted collections, identical in the rest. */
  ghost predicate SameRecords(e: Export, f: Export) {
    && Permutes(e.memories, f.memories) && Permutes(e.relations, f.relations) && Permutes(e.guides, f.guides)
    && Permutes(e.feedback, f.feedback) && Permutes(e.suggestions, f.suggestions)
    && Permutes(e.archives, f.archives) && Permutes(e.history, f.history)
    && e.sessions == f.sessions && e.projects == f.projects && e.unknownFields == f.unknownFields
  }

  lemma IdSortFacts(xs: ById, ys: ById)
    ensures SortByKey(SortByKey(xs, IdLe()), IdLe()) == SortByKey(xs, IdLe())
    ensures KeysIdentify(xs) ==> (SortByKey(xs, IdLe()) == SortByKey(ys, IdLe()) <==> Permutes(xs, ys))
  {
    OrdersTotal();
    SortSpec(xs, IdLe());
    SortOfSorted(SortByKey(xs, IdLe()), IdLe());
    if KeysIdentify(xs) {
      SortForgetsOrder(xs, ys, IdLe());
    }
  }

  lemma NameSortFacts(xs: ByName, ys: ByName)
    ensures SortByKey(SortByKey(xs, NameLe), NameLe) == SortByKey(xs, NameLe)
    ensures KeysIdentify(xs) ==> (SortByKey(xs, NameLe) == SortByKey(ys, NameLe) <==> Permutes(xs, ys))
  {
    OrdersTotal();
    SortSpec(xs, NameLe);
    SortOfSorted(SortByKey(xs, NameLe), NameLe);
    if KeysIdentify(xs) {
      SortForgetsOrder(xs, ys, NameLe);
    }
  }

  /** The same records, in each sorted collection key by key in the same order, and identical in the rest. */
  ghost predicate AgreeingRecords(e: Export, f: Export) {
    && AgreeByKey(e.memories, f.memories) && AgreeByKey(e.relations, f.relations) && AgreeByKey(e.guides, f.guides)
    && AgreeByKey(e.feedback, f.feedback) && AgreeByKey(e.suggestions, f.suggestions)
    && AgreeByKey(e.archives, f.archives) && AgreeByKey(e.history, f.history)
    && e.sessions == f.sessions && e.projects == f.projects && e.unknownFields == f.unknownFields
  }

  /** Two exports have one canonical form if and only if they agree key by key, whether or not keys repeat. */
  lemma SameFormIff(e: Export, f: Export)
    ensures Normalized(e) == Normalized(f) <==> AgreeingRecords(e, f)
  {
    OrdersTotal();
    EqualSortsIff(e.memories, f.memories, IdLe());
    EqualSortsIff(e.relations, f.relations, IdLe());
    EqualSortsIff(e.guides, f.guides, NameLe);
    EqualSortsIff(e.feedback, f.feedback, IdLe());
    EqualSortsIff(e.suggestions, f.suggestions, IdLe());
    EqualSortsIff(e.archives, f.archives, IdLe());
    EqualSortsIff(e.history, f.history, IdLe());
  }

  lemma NormalizeIdempotent(e: Export)
    ensures Normalized(Normalized(e)) == Normalized(e)
  {
    IdSortFacts(e.memories, []);
    IdSortFacts(e.relations, []);
    NameSortFacts(e.guides, []);
    IdSortFacts(e.feedback, []);
    IdSortFacts(e.suggestions, []);
    IdSortFacts(e.archives, []);
    IdSortFacts(e.history, []);
  }

  /** With unique keys, two exports have one canonical form exactly when they hold the same records, with
      sessions and projects also in the same order. */
  lemma CanonicalFormIff(e: Export, f: Export)
    requires UniqueKeys(e)
    ensures Normalized(e) == Normalized(f) <==> SameRecords(e, f)
  {
    IdSortFacts(e.memories, f.memories);
    IdSortFacts(e.relations, f.relations);
    NameSortFacts(e.guides, f.guides);
    IdSortFacts(e.feedback, f.feedback);
    IdSortFacts(e.suggestions, f.suggestions);
    IdSortFacts(e.archives, f.archives);
    IdSortFacts(e.history, f.history);
  }

  /** JSON text and SHA-256, of which only injectivity matters. */
  datatype Printer = Printer(json: Export -> string, hash: string -> string)

  function DigestOf(p: Printer, e: Export): string {
    p.hash(p.json(Normalized(e)))
  }

  ghost predicate CollisionFree(p: Printer) {
    && (forall e, f :: p.json(e) == p.json(f) ==> e == f)
    && (forall s, t :: p.hash(s) == p.hash(t) ==> s == t)
  }

  /** Two exports, whatever their keys, have one digest if and only if they agree key by key. */
  lemma SameDigestIff(p: Printer, e: Export, f: Export)
    requires CollisionFree(p)
    ensures DigestOf(p, e) == DigestOf(p, f) <==> AgreeingRecords(e, f)
  {
    SameFormIff(e, f);
  }

  /** The digest ignores the order of the seven sorted collections, and nothing else. In particular
      exchanging two different sessions, or two projects, changes it. */
  lemma DigestIff(p: Printer, e: Export, f: Export)
    requires UniqueKeys(e)
    ensures SameRecords(e, f) ==> DigestOf(p, e) == DigestOf(p, f)
    ensures CollisionFree(p) ==> (DigestOf(p, e) == DigestOf(p, f) <==> SameRecords(e, f))
  {
    CanonicalFormIff(e, f);
  }

  lemma IdKeysNeeded(xs: ById) returns (ys: ById)
    requires !KeysIdentify(xs)
    ensures Permutes(xs, ys) && SortByKey(ys, IdLe()) != SortByKey(xs, IdLe())
  {
    OrdersTotal();
    CanonicalIff(xs, IdLe());
    ys :| Permutes(xs, ys) && SortByKey(ys, IdLe()) != SortByKey(xs, IdLe());
  }

  lemma NameKeysNeeded(xs: ByName) returns (ys: ByName)
    requires !KeysIdentify(xs)
    ensures Permutes(xs, ys) && SortByKey(ys, NameLe) != SortByKey(xs, NameLe)
  {
    OrdersTotal();
    CanonicalIff(xs, NameLe);
    ys :| Permutes(xs, ys) && SortByKey(ys, NameLe) != SortByKey(xs, NameLe);
  }

  /** Two records with one key in a sorted collection: some reordering has another canonical form. */
  lemma KeysNeeded(e: Export) returns (f: Export)
    requires !UniqueKeys(e)
    ensures SameRecords(e, f) && Normalized(f) != Normalized(e)
  {
    if !KeysIdentify(e.memories) {
      var ys := IdKeysNeeded(e.memories);
      f := e.(memories := ys);
    } else if !KeysIdentify(e.relations) {
      var ys := IdKeysNeeded(e.relations);
      f := e.(relations := ys);
    } else if !KeysIdentify(e.guides) {
      var ys := NameKeysNeeded(e.guides);
      f := e.(guides := ys);
    } else if !KeysIdentify(e.feedback) {
      var ys := IdKeysNeeded(e.feedback);
      f := e.(feedback := ys);
    } else if !KeysIdentify(e.suggestions) {
      var ys := IdKeysNeeded(e.suggestions);
      f := e.(suggestions := ys);
    } else if !KeysIdentify(e.archives) {
      var ys := IdKeysNeeded(e.archives);
      f := e.(archives := ys);
    } else {
      var ys := IdKeysNeeded(e.history);
      f := e.(history := ys);
    }
  }

  /** The digest of an export is independent of the order of its sorted collections if and only if keys
      identify the records in each of them. */
  lemma OrderIndependentIff(p: Printer, e: Export)
    requires CollisionFree(p)
    ensures (forall f :: SameRecords(e, f) ==> DigestOf(p, e) == DigestOf(p, f)) <==> UniqueKeys(e)
  {
    if UniqueKeys(e) {
      forall f | SameRecords(e, f) ensures DigestOf(p, e) == DigestOf(p, f) {
        DigestIff(p, e, f);
      }
    } else {
      var f := KeysNeeded(e);
      assert DigestOf(p, e) != DigestOf(p, f);
    }
  }

  lemma SessionOrderMatters(p: Printer, e: Export, a: Record<nat>, b: Record<nat>)
    requires CollisionFree(p) && a != b
    ensures DigestOf(p, e.(sessions := [a, b])) != DigestOf(p, e.(sessions := [b, a]))
  {
    assert [a, b][0] != [b, a][0];
    assert Normalized(e.(sessions := [a, b])).sessions != Normalized(e.(sessions := [b, a])).sessions;
  }

  /** An export whose collections are sorted in place. */
  class ExportBuffer {
    var value: Export

    constructor (value: Export)
      ensures this.value == value
    {
      this.value := value;
    }

    method Normalize()
      modifies this
      ensures value == Normalized(old(value))
    {
      value := value.(memories := SortByKey(value.memories, IdLe()));
      value := value.(relations := SortByKey(value.relations, IdLe()));
      value := value.(guides := SortByKey(value.guides, NameLe));
      value := value.(feedback := SortByKey(value.feedback, IdLe()));
      value := value.(suggestions := SortByKey(value.suggestions, IdLe()));
      value := value.(archives := SortByKey(value.archives, IdLe()));
      value := value.(history := SortByKey(value.history, IdLe()));
    }

    /** Works on a copy: the export itself keeps its order. */
    method Digest(p: Printer) returns (digest: string)
      ensures digest == DigestOf(p, value)
    {
      var copy := new ExportBuffer(value);
      copy.Normalize();
      digest := p.hash(p.json(copy.value));
    }
  }
}
