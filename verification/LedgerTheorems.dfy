/**
  What the effective projection guarantees, for every ledger: the replacement graph never closes a
  cycle, a superseded conclusion is always answered by one that stands, a refusal has a reason that
  can be read off the final graph, and arrival order does not matter.
*/
module LedgerTheorems {
  import opened Wrappers
  import opened Ordering
  import opened Selection
  import opened TextOrder
  import opened Graph
  import opened Ledger
  import opened ProjectionAlgorithm

  /** An id names one assessment; the store's primary key gives this. */
  ghost predicate AssessmentIdsIdentify(assessments: seq<Assessment>) {
    forall a, b :: a in assessments && b in assessments && a.id == b.id ==> a == b
  }

  ghost predicate RelationIdsIdentify(relations: seq<Relation>) {
    forall r, s :: r in relations && s in relations && r.id == s.id ==> r == s
  }

  /** The replacement graph of a ledger and the assessments it takes out of effect. */
  ghost function ReplacementGraph(assessments: seq<Assessment>, relations: seq<Relation>): Edges<string> {
    Accepted(ById(assessments), StableSort(RelationLe, relations))
  }

  ghost predicate IsSuperseded(assessments: seq<Assessment>, relations: seq<Relation>, a: Assessment) {
    a.id in Targets(ReplacementGraph(assessments, relations))
  }

  // ---- The replacement graph ----

  /** Whatever relations arrive, in whatever order, no cycle is ever accepted. */
  lemma {:induction false} ReplacementGraphIsAcyclic(byId: map<string, Assessment>, relations: seq<Relation>)
    ensures Acyclic(Accepted(byId, relations))
  {
    if relations != [] {
      var last := relations[|relations| - 1];
      var front := relations[..|relations| - 1];
      ReplacementGraphIsAcyclic(byId, front);
      if IsReplacing(last) && Admits(byId, Accepted(byId, front), last) {
        GuardedEdgeKeepsAcyclic(Accepted(byId, front), last.from, last.to);
      }
    }
  }

  /** No chain of accepted replacements, however long, comes back to where it began. */
  lemma NobodyReplacesItself(assessments: seq<Assessment>, relations: seq<Relation>, path: seq<string>)
    requires IsPath(ReplacementGraph(assessments, relations), path) && |path| > 1
    ensures path[0] != path[|path| - 1]
  {
    ReplacementGraphIsAcyclic(ById(assessments), StableSort(RelationLe, relations));
    AcyclicMeansNoReturn(ReplacementGraph(assessments, relations), path);
  }

  lemma {:induction false} AcceptedGrows(byId: map<string, Assessment>, relations: seq<Relation>, i: nat)
    requires i <= |relations|
    ensures Accepted(byId, relations[..i]) <= Accepted(byId, relations)
  {
    if i < |relations| {
      var front := relations[..|relations| - 1];
      AcceptedGrows(byId, front, i);
      assert front[..i] == relations[..i];
    } else {
      assert relations[..i] == relations;
    }
  }

  /**
    Greedy acceptance is maximal: a replacing relation is refused exactly when it fails a check of
    its own, or its edge would close a cycle in the final graph.
  */
  lemma RefusedIffItWouldCloseACycle(byId: map<string, Assessment>, relations: seq<Relation>, i: nat)
    requires i < |relations| && IsReplacing(relations[i])
    ensures Refused(byId, relations, i)
       <==> !PassesChecks(byId, relations[i]) || Reaches(Accepted(byId, relations), relations[i].to, relations[i].from)
  {
    var r := relations[i];
    var before, final := Accepted(byId, relations[..i]), Accepted(byId, relations);
    AcceptedGrows(byId, relations, i);
    if Refused(byId, relations, i) {
      if PassesChecks(byId, r) {
        ReachesMonotonic(before, final, r.to, r.from);
      }
    } else {
      LedgerStep(byId, relations, i);
      AcceptedGrows(byId, relations, i + 1);
      assert (r.from, r.to) in final;
      ReplacementGraphIsAcyclic(byId, relations);
    }
  }

  /** Relation number `i` has this id and was refused under this key. */
  ghost predicate RefusedUnder(byId: map<string, Assessment>, relations: seq<Relation>, i: int, key: string,
                               id: string) {
    0 <= i < |relations| && Refused(byId, relations, i) && Touches(byId, relations[i], key) && relations[i].id == id
  }

  lemma RefusedUnderPrefix(byId: map<string, Assessment>, relations: seq<Relation>, i: nat, n: nat, key: string,
                           id: string)
    requires i < n <= |relations|
    ensures RefusedUnder(byId, relations[..n], i, key, id) == RefusedUnder(byId, relations, i, key, id)
  {
    assert relations[..n][..i] == relations[..i];
  }

  lemma RefusedIsThere(byId: map<string, Assessment>, relations: seq<Relation>, key: string, id: string)
    ensures forall i :: RefusedUnder(byId, relations, i, key, id) ==> 0 <= i < |relations|
  {
  }

  lemma NothingRefused(byId: map<string, Assessment>, key: string)
    ensures RefusedIds(byId, [], key) == []
  {
  }

  lemma RefusedIdsStep(byId: map<string, Assessment>, relations: seq<Relation>, key: string, id: string)
    requires relations != []
    ensures var n := |relations| - 1;
      id in RefusedIds(byId, relations, key)
      <==> id in RefusedIds(byId, relations[..n], key) || RefusedUnder(byId, relations, n, key, id)
  {
  }

  lemma {:induction false} RefusedIdsMembers(byId: map<string, Assessment>, relations: seq<Relation>, key: string,
                                             id: string)
    ensures id in RefusedIds(byId, relations, key) ==> exists i :: RefusedUnder(byId, relations, i, key, id)
    ensures forall i :: RefusedUnder(byId, relations, i, key, id) ==> id in RefusedIds(byId, relations, key)
  {
    hide RefusedIds, RefusedUnder, Refused, Touches;
    RefusedIsThere(byId, relations, key, id);
    if relations == [] {
      NothingRefused(byId, key);
    } else {
      var n := |relations| - 1;
      RefusedIdsMembers(byId, relations[..n], key, id);
      RefusedIdsStep(byId, relations, key, id);
      RefusedIsThere(byId, relations[..n], key, id);
      forall i | 0 <= i < n
        ensures RefusedUnder(byId, relations[..n], i, key, id) == RefusedUnder(byId, relations, i, key, id)
      {
        RefusedUnderPrefix(byId, relations, i, n, key, id);
      }
      if id in RefusedIds(byId, relations[..n], key) {
        var i :| RefusedUnder(byId, relations[..n], i, key, id);
        assert RefusedUnder(byId, relations, i, key, id);
      }
      forall i | RefusedUnder(byId, relations, i, key, id)
        ensures id in RefusedIds(byId, relations, key)
      {
        if i < n {
          assert RefusedUnder(byId, relations[..n], i, key, id);
        }
      }
    }
  }

  /** The reason for a refusal, read off the relation and the final graph. */
  ghost predicate FailsOrClosesCycle(assessments: seq<Assessment>, relations: seq<Relation>, r: Relation) {
    !PassesChecks(ById(assessments), r) || Reaches(ReplacementGraph(assessments, relations), r.to, r.from)
  }

  /** What a group lists as ignored, said of the ledger's own relations and its final graph. */
  lemma IgnoredRelationsExplained(assessments: seq<Assessment>, relations: seq<Relation>, key: string, id: string)
    requires InGroup(assessments, key) != []
    ensures id in ProjectionOf(assessments, relations, key).ignored
       <==> exists r :: r in relations && r.id == id && IsReplacing(r) && Touches(ById(assessments), r, key)
                     && FailsOrClosesCycle(assessments, relations, r)
  {
    var byId, sorted := ById(assessments), StableSort(RelationLe, relations);
    SortIsPermutation(RelationLe, relations);
    SortIsPermutation(TextLe, RefusedIds(byId, sorted, key));
    RefusedIdsMembers(byId, sorted, key, id);
    forall i | 0 <= i < |sorted| && IsReplacing(sorted[i])
      ensures Refused(byId, sorted, i) <==> FailsOrClosesCycle(assessments, relations, sorted[i])
    {
      RefusedIffItWouldCloseACycle(byId, sorted, i);
    }
    if i :| RefusedUnder(byId, sorted, i, key, id) {
      assert sorted[i] in relations;
    }
    forall r | r in relations && r.id == id && IsReplacing(r) && Touches(byId, r, key)
      && FailsOrClosesCycle(assessments, relations, r)
      ensures exists i :: RefusedUnder(byId, sorted, i, key, id)
    {
      assert r in sorted;
      var i :| 0 <= i < |sorted| && sorted[i] == r;
      assert RefusedUnder(byId, sorted, i, key, id);
    }
  }

  // ---- Dominance ----

  /** `a` may answer for `b`: same group, at least its authority, and no earlier. */
  predicate Outranks(a: Assessment, b: Assessment) {
    && KeyOf(a) == KeyOf(b)
    && Authority(a.author) >= Authority(b.author)
    && a.createdAt.millis.Some? && b.createdAt.millis.Some?
    && a.createdAt.millis.value >= b.createdAt.millis.value
  }

  lemma {:induction false} AcceptedEdgesOutrank(byId: map<string, Assessment>, relations: seq<Relation>)
    ensures forall f, t :: (f, t) in Accepted(byId, relations) ==> f in byId && t in byId && Outranks(byId[f], byId[t])
  {
    if relations != [] {
      AcceptedEdgesOutrank(byId, relations[..|relations| - 1]);
    }
  }

  lemma {:induction false} PathsOutrank(byId: map<string, Assessment>, edges: Edges<string>, path: seq<string>)
    requires forall f, t :: (f, t) in edges ==> f in byId && t in byId && Outranks(byId[f], byId[t])
    requires IsPath(edges, path) && |path| > 1
    ensures path[0] in byId && path[|path| - 1] in byId && Outranks(byId[path[0]], byId[path[|path| - 1]])
  {
    assert (path[0], path[1]) in edges;
    if |path| > 2 {
      PathsOutrank(byId, edges, path[1..]);
    }
  }

  lemma ByIdFindsMembers(assessments: seq<Assessment>)
    requires AssessmentIdsIdentify(assessments)
    ensures forall a :: a in assessments ==> a.id in ById(assessments) && ById(assessments)[a.id] == a
    ensures forall id :: id in ById(assessments) ==>
      ById(assessments)[id] in assessments && ById(assessments)[id].id == id
  {
    ByIdIsKeyedById(assessments);
  }

  /**
    Every assessment is answered by one that stands: reached from it along replacement edges, in
    the same group, with at least its authority and no earlier time.
  */
  lemma SomeStandingAssessmentAnswers(assessments: seq<Assessment>, relations: seq<Relation>, x: Assessment)
    returns (standing: Assessment)
    requires AssessmentIdsIdentify(assessments) && x in assessments
    ensures standing in assessments && !IsSuperseded(assessments, relations, standing)
    ensures Reaches(ReplacementGraph(assessments, relations), standing.id, x.id)
    ensures standing == x || Outranks(standing, x)
    ensures KeyOf(standing) == KeyOf(x) && Authority(standing.author) >= Authority(x.author)
  {
    var byId, edges := ById(assessments), ReplacementGraph(assessments, relations);
    ByIdFindsMembers(assessments);
    ReplacementGraphIsAcyclic(byId, StableSort(RelationLe, relations));
    AcceptedEdgesOutrank(byId, StableSort(RelationLe, relations));
    var source := SourceAbove(edges, x.id);
    var path: seq<string> :| IsPathFromTo(edges, path, source, x.id);
    if |path| > 1 {
      PathsOutrank(byId, edges, path);
    }
    standing := byId[source];
    forall e | e in edges
      ensures e.1 != source
    {
      assert (e.0, e.1) in edges;
    }
  }

  lemma WithoutMembers(items: seq<Assessment>, ids: set<string>)
    ensures forall a :: a in Without(items, ids) <==> a in items && a.id !in ids
    ensures forall a :: a in Within(items, ids) <==> a in items && a.id in ids
  {
    KeepMembers((a: Assessment) => a.id !in ids, items);
    KeepMembers((a: Assessment) => a.id in ids, items);
  }

  lemma IdsOfMembers(items: seq<Assessment>, id: string)
    ensures id in IdsOf(items) <==> exists a :: a in items && a.id == id
  {
    if id in IdsOf(items) {
      var i :| 0 <= i < |items| && IdsOf(items)[i] == id;
      assert items[i] in items;
    }
    if a :| a in items && a.id == id {
      var i :| 0 <= i < |items| && items[i] == a;
      assert IdsOf(items)[i] == id;
    }
  }

  /** In every group somebody stands, so the projection never has to fall back on a superseded assessment. */
  lemma FallbackIsNeverTaken(assessments: seq<Assessment>, relations: seq<Relation>, key: string)
    requires AssessmentIdsIdentify(assessments) && InGroup(assessments, key) != []
    ensures var ordered := StableSort(AssessmentLe, InGroup(assessments, key));
      var superseded := Targets(ReplacementGraph(assessments, relations));
      ordered != [] && Without(ordered, superseded) != []
        && Effective(ordered, superseded) == Without(ordered, superseded)
  {
    var items := InGroup(assessments, key);
    var ordered := StableSort(AssessmentLe, items);
    var superseded := Targets(ReplacementGraph(assessments, relations));
    SortIsPermutation(AssessmentLe, items);
    InGroupMembers(assessments, key);
    assert items[0] in items;
    var standing := SomeStandingAssessmentAnswers(assessments, relations, items[0]);
    WithoutMembers(ordered, superseded);
    assert standing in Without(ordered, superseded);
  }

  /** The effective and the superseded ids of a group are its members that stand and that do not. */
  lemma EffectiveAreThoseThatStand(assessments: seq<Assessment>, relations: seq<Relation>, key: string, id: string)
    requires AssessmentIdsIdentify(assessments) && InGroup(assessments, key) != []
    ensures id in ProjectionOf(assessments, relations, key).effective
       <==> exists a :: a in assessments && a.id == id && KeyOf(a) == key && !IsSuperseded(assessments, relations, a)
    ensures id in ProjectionOf(assessments, relations, key).superseded
       <==> exists a :: a in assessments && a.id == id && KeyOf(a) == key && IsSuperseded(assessments, relations, a)
  {
    var items := InGroup(assessments, key);
    var ordered := StableSort(AssessmentLe, items);
    var superseded := Targets(ReplacementGraph(assessments, relations));
    FallbackIsNeverTaken(assessments, relations, key);
    SortIsPermutation(AssessmentLe, items);
    InGroupMembers(assessments, key);
    WithoutMembers(ordered, superseded);
    IdsOfMembers(Without(ordered, superseded), id);
    IdsOfMembers(Within(ordered, superseded), id);
  }

  /** A group in which a human has concluded always has a human conclusion in effect. */
  lemma HumanConclusionsStand(assessments: seq<Assessment>, relations: seq<Relation>, x: Assessment)
    returns (standing: Assessment)
    requires AssessmentIdsIdentify(assessments) && x in assessments && x.author.Human?
    ensures InGroup(assessments, KeyOf(x)) != []
    ensures standing in assessments && standing.author.Human?
    ensures standing.id in ProjectionOf(assessments, relations, KeyOf(x)).effective
  {
    hide KeyOf, ProjectionOf, InGroup, AssessmentIdsIdentify;
    InGroupMembers(assessments, KeyOf(x));
    standing := SomeStandingAssessmentAnswers(assessments, relations, x);
    EffectiveAreThoseThatStand(assessments, relations, KeyOf(x), standing.id);
  }

  // ---- Conclusions ----

  lemma {:induction false} HighestRiskIsHighest(risks: seq<Assessment>, best: Verdict)
    ensures RiskRank(HighestRisk(risks, best)) >= RiskRank(best)
    ensures forall a :: a in risks ==> RiskRank(HighestRisk(risks, best)) >= RiskRank(a.verdict)
    ensures HighestRisk(risks, best) == best || exists a :: a in risks && a.verdict == HighestRisk(risks, best)
  {
    if risks != [] {
      var next := if RiskRank(risks[0].verdict) > RiskRank(best) then risks[0].verdict else best;
      HighestRiskIsHighest(risks[1..], next);
      assert risks == [risks[0]] + risks[1..];
      if HighestRisk(risks, best) != best {
        if HighestRisk(risks[1..], next) == next {
          assert risks[0] in risks;
        } else {
          var a :| a in risks[1..] && a.verdict == HighestRisk(risks, best);
          assert a in risks;
        }
      }
    }
  }

  ghost predicate SomeRisk(items: seq<Assessment>) {
    exists a :: a in items && IsRisk(a.verdict)
  }

  ghost predicate SomeClearance(items: seq<Assessment>) {
    exists a :: a in items && IsClearance(a.verdict)
  }

  lemma RisksAndClearances(active: seq<Assessment>)
    ensures |Keep(FindsRisk, active)| > 0 <==> SomeRisk(active)
    ensures |Keep(Clears, active)| > 0 <==> SomeClearance(active)
  {
    KeepMembers(FindsRisk, active);
    KeepMembers(Clears, active);
    var risks, clearances := Keep(FindsRisk, active), Keep(Clears, active);
    assert |risks| > 0 ==> risks[0] in risks;
    assert |clearances| > 0 ==> clearances[0] in clearances;
  }

  /** Opposing verdicts, and nothing else, give a conflict. */
  lemma ConflictMeaning(active: seq<Assessment>)
    ensures ResolveConclusion(active).0.Conflict? <==> SomeRisk(active) && SomeClearance(active)
  {
    RisksAndClearances(active);
  }

  ghost function Opposed(active: seq<Assessment>): seq<Assessment> {
    Keep(FindsRisk, active) + Keep(Clears, active)
  }

  lemma OpposedMembers(active: seq<Assessment>)
    ensures forall a :: a in Opposed(active) <==> a in active && !a.verdict.Inconclusive?
  {
    KeepMembers(FindsRisk, active);
    KeepMembers(Clears, active);
  }

  lemma ConflictListsTheOpposed(active: seq<Assessment>)
    requires ResolveConclusion(active).0.Conflict?
    ensures ResolveConclusion(active).1 == StableSort(TextLe, IdsOf(Opposed(active)))
  {
  }

  /** A conflict names exactly the assessments that oppose each other. */
  lemma ConflictNamesTheOpposed(active: seq<Assessment>, id: string)
    requires ResolveConclusion(active).0.Conflict?
    ensures id in ResolveConclusion(active).1 <==> exists a :: a in active && a.id == id && !a.verdict.Inconclusive?
  {
    ConflictListsTheOpposed(active);
    OpposedMembers(active);
    SortIsPermutation(TextLe, IdsOf(Opposed(active)));
    IdsOfMembers(Opposed(active), id);
  }

  ghost predicate Says(items: seq<Assessment>, verdict: Verdict) {
    exists a :: a in items && a.verdict == verdict
  }

  lemma {:induction false} HighestRiskSaid(risks: seq<Assessment>, best: Verdict)
    requires forall a :: a in risks ==> IsRisk(a.verdict)
    requires IsRisk(best)
    ensures var highest := HighestRisk(risks, best);
      && (highest.ConfirmedMalicious? <==> best.ConfirmedMalicious? || Says(risks, ConfirmedMalicious))
      && (highest.HighlySuspicious? <==> !highest.ConfirmedMalicious?
                                         && (best.HighlySuspicious? || Says(risks, HighlySuspicious)))
      && IsRisk(highest)
  {
    if risks != [] {
      var next := if RiskRank(risks[0].verdict) > RiskRank(best) then risks[0].verdict else best;
      assert risks[0] in risks && risks == [risks[0]] + risks[1..];
      HighestRiskSaid(risks[1..], next);
    }
  }

  /** Without a conflict the highest risk present wins, and nothing is invented. */
  lemma ConclusionMeaning(active: seq<Assessment>)
    requires ResolveConclusion(active).0.Concluded?
    ensures var verdict := ResolveConclusion(active).0.verdict;
      && (verdict.ConfirmedMalicious? <==> Says(active, ConfirmedMalicious))
      && (verdict.HighlySuspicious? <==> Says(active, HighlySuspicious) && !Says(active, ConfirmedMalicious))
      && (verdict.Suspicious? <==>
            Says(active, Suspicious) && !Says(active, HighlySuspicious) && !Says(active, ConfirmedMalicious))
      && (forall a :: a in active ==> RiskRank(a.verdict) <= RiskRank(verdict))
      && (verdict.Inconclusive? || exists a :: a in active && a.verdict == verdict)
      && (verdict.Inconclusive? <==> forall a :: a in active ==> a.verdict.Inconclusive?)
      && (verdict.Benign? <==> !SomeRisk(active) && exists a :: a in active && a.verdict.Benign?)
  {
    RisksAndClearances(active);
    var risks := Keep(FindsRisk, active);
    KeepMembers(FindsRisk, active);
    if |risks| > 0 {
      HighestRiskIsHighest(risks, risks[0].verdict);
      HighestRiskSaid(risks, risks[0].verdict);
      assert risks[0] in active;
    } else {
      assert forall a :: a in active ==> !IsRisk(a.verdict);
    }
  }

  // ---- Arrival order ----

  lemma {:induction false} InGroupCounts(assessments: seq<Assessment>, key: string, a: Assessment)
    ensures multiset(InGroup(assessments, key))[a] == if KeyOf(a) == key then multiset(assessments)[a] else 0
  {
    hide KeyOf;
    if assessments != [] {
      var front, last := assessments[..|assessments| - 1], assessments[|assessments| - 1];
      InGroupCounts(front, key, a);
      assert assessments == front + [last];
    }
  }

  lemma GroupsPermute(some: seq<Assessment>, other: seq<Assessment>, key: string)
    requires multiset(some) == multiset(other)
    ensures multiset(InGroup(some, key)) == multiset(InGroup(other, key))
  {
    forall a
      ensures multiset(InGroup(some, key))[a] == multiset(InGroup(other, key))[a]
    {
      InGroupCounts(some, key, a);
      InGroupCounts(other, key, a);
    }
  }

  lemma SameMembers<T>(s: seq<T>, t: seq<T>)
    requires multiset(s) == multiset(t)
    ensures forall x :: x in s <==> x in t
  {
    forall x
      ensures x in s <==> x in t
    {
      assert x in multiset(s) <==> x in multiset(t);
    }
  }

  lemma {:induction false} RepetitionFreeCounts<T>(s: seq<T>, x: T)
    requires forall i, j :: 0 <= i < j < |s| ==> s[i] != s[j]
    ensures multiset(s)[x] == if x in s then 1 else 0
  {
    if s != [] {
      RepetitionFreeCounts(s[1..], x);
      assert s == [s[0]] + s[1..];
    }
  }

  /** Lists without repetition that have the same members are permutations of each other. */
  lemma RepetitionFreePermute<T>(s: seq<T>, t: seq<T>)
    requires forall i, j :: 0 <= i < j < |s| ==> s[i] != s[j]
    requires forall i, j :: 0 <= i < j < |t| ==> t[i] != t[j]
    requires forall x :: x in s <==> x in t
    ensures multiset(s) == multiset(t)
  {
    forall x
      ensures multiset(s)[x] == multiset(t)[x]
    {
      RepetitionFreeCounts(s, x);
      RepetitionFreeCounts(t, x);
    }
  }

  lemma ByIdIgnoresOrder(some: seq<Assessment>, other: seq<Assessment>)
    requires multiset(some) == multiset(other) && AssessmentIdsIdentify(some)
    ensures AssessmentIdsIdentify(other) && ById(some) == ById(other)
  {
    SameMembers(some, other);
    ByIdFindsMembers(some);
    ByIdFindsMembers(other);
    var m, n := ById(some), ById(other);
    assert m.Keys == n.Keys by {
      forall id
        ensures id in m <==> id in n
      {
        if id in m { assert m[id] in other; }
        if id in n { assert n[id] in some; }
      }
    }
    forall id | id in m
      ensures m[id] == n[id]
    {
      assert m[id] in other;
    }
  }

  lemma ProjectionIgnoresOrder(some: seq<Assessment>, other: seq<Assessment>, relations: seq<Relation>,
                               shuffled: seq<Relation>, key: string)
    requires multiset(some) == multiset(other) && AssessmentIdsIdentify(some)
    requires multiset(relations) == multiset(shuffled) && RelationIdsIdentify(relations)
    requires InGroup(some, key) != [] && InGroup(other, key) != []
    ensures ProjectionOf(some, relations, key) == ProjectionOf(other, shuffled, key)
  {
    LedgerOrdersAreTotal();
    ByIdIgnoresOrder(some, other);
    SortIgnoresArrivalOrder(RelationLe, relations, shuffled);
    GroupsPermute(some, other, key);
    InGroupMembers(some, key);
    SortIgnoresArrivalOrder(AssessmentLe, InGroup(some, key), InGroup(other, key));
  }

  lemma ProjectKeysMembers(assessments: seq<Assessment>, relations: seq<Relation>, keys: seq<string>, p: Projection)
    requires forall k :: k in keys ==> InGroup(assessments, k) != []
    ensures p in ProjectKeys(assessments, relations, keys)
      <==> p.key in keys && p == ProjectionOf(assessments, relations, p.key)
  {
    var ps := ProjectKeys(assessments, relations, keys);
    if p in ps {
      var i :| 0 <= i < |ps| && ps[i] == p;
      assert p == ProjectionOf(assessments, relations, keys[i]) && p.key == keys[i];
    }
    if p.key in keys && p == ProjectionOf(assessments, relations, p.key) {
      var i :| 0 <= i < |keys| && keys[i] == p.key;
      assert ps[i] == p;
    }
  }

  lemma GroupKeysIgnoreOrder(some: seq<Assessment>, other: seq<Assessment>, key: string)
    requires multiset(some) == multiset(other)
    ensures key in GroupKeys(some) <==> key in GroupKeys(other)
  {
    GroupKeysMembers(some);
    GroupKeysMembers(other);
    SameMembers(some, other);
  }

  lemma SameProjections(some: seq<Assessment>, other: seq<Assessment>, relations: seq<Relation>,
                        shuffled: seq<Relation>, p: Projection)
    requires multiset(some) == multiset(other) && AssessmentIdsIdentify(some)
    requires multiset(relations) == multiset(shuffled) && RelationIdsIdentify(relations)
    requires (forall k :: k in GroupKeys(some) ==> InGroup(some, k) != [])
    requires (forall k :: k in GroupKeys(other) ==> InGroup(other, k) != [])
    ensures p in ProjectKeys(some, relations, GroupKeys(some)) <==> p in ProjectKeys(other, shuffled, GroupKeys(other))
  {
    ProjectKeysMembers(some, relations, GroupKeys(some), p);
    ProjectKeysMembers(other, shuffled, GroupKeys(other), p);
    GroupKeysIgnoreOrder(some, other, p.key);
    if p.key in GroupKeys(some) {
      ProjectionIgnoresOrder(some, other, relations, shuffled, p.key);
    }
  }

  lemma ProjectKeysAreKeyed(assessments: seq<Assessment>, relations: seq<Relation>)
    requires forall k :: k in GroupKeys(assessments) ==> InGroup(assessments, k) != []
    ensures var ps := ProjectKeys(assessments, relations, GroupKeys(assessments));
      && (forall i, j :: 0 <= i < j < |ps| ==> ps[i].key != ps[j].key)
      && TiesAreEqual(ProjectionLe, ps)
  {
    var ps := ProjectKeys(assessments, relations, GroupKeys(assessments));
    GroupKeysMembers(assessments);
    assert forall i :: 0 <= i < |ps| ==> ps[i].key == GroupKeys(assessments)[i];
    LedgerOrdersAreTotal();
  }

  /** Shuffling the assessments and the relations changes nothing at all in the projection. */
  lemma ArrivalOrderDoesNotMatter(some: seq<Assessment>, other: seq<Assessment>, relations: seq<Relation>,
                                  shuffled: seq<Relation>)
    requires multiset(some) == multiset(other) && AssessmentIdsIdentify(some)
    requires multiset(relations) == multiset(shuffled) && RelationIdsIdentify(relations)
    ensures EffectiveProjections(some, relations) == EffectiveProjections(other, shuffled)
  {
    GroupsAreInhabited(some);
    GroupsAreInhabited(other);
    var ps, qs := ProjectKeys(some, relations, GroupKeys(some)), ProjectKeys(other, shuffled, GroupKeys(other));
    forall p
      ensures p in ps <==> p in qs
    {
      SameProjections(some, other, relations, shuffled, p);
    }
    ProjectKeysAreKeyed(some, relations);
    ProjectKeysAreKeyed(other, shuffled);
    RepetitionFreePermute(ps, qs);
    LedgerOrdersAreTotal();
    SortIgnoresArrivalOrder(ProjectionLe, ps, qs);
  }
}
