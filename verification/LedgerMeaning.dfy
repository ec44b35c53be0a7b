/**
  The projection read off the records: which verdicts give which conclusion, which relation replaces
  which assessment, and in which order everything is listed, all said of the recorded assessments and
  relations themselves.
*/
module LedgerMeaning {
  import opened Wrappers
  import opened Ordering
  import opened Selection
  import opened TextOrder
  import opened Graph
  import opened Ledger
  import opened ProjectionAlgorithm
  import opened LedgerTheorems
  import opened LedgerExtension

  // ---- Conclusions ----

  ghost predicate SaysRisk(items: seq<Assessment>) {
    Says(items, ConfirmedMalicious) || Says(items, HighlySuspicious) || Says(items, Suspicious)
  }

  ghost predicate SaysClear(items: seq<Assessment>) {
    Says(items, Benign) || Says(items, NoObservedFinding)
  }

  lemma RisksAreSaid(items: seq<Assessment>)
    ensures SomeRisk(items) <==> SaysRisk(items)
    ensures SomeClearance(items) <==> SaysClear(items)
  {
  }

  /** Which conclusion the verdicts in effect come to. */
  lemma ConclusionTable(active: seq<Assessment>)
    ensures var conclusion := ResolveConclusion(active).0;
      && (conclusion == Conflict <==> SaysRisk(active) && SaysClear(active))
      && (conclusion == Concluded(ConfirmedMalicious) <==> Says(active, ConfirmedMalicious) && !SaysClear(active))
      && (conclusion == Concluded(HighlySuspicious) <==>
            Says(active, HighlySuspicious) && !Says(active, ConfirmedMalicious) && !SaysClear(active))
      && (conclusion == Concluded(Suspicious) <==>
            && Says(active, Suspicious) && !Says(active, HighlySuspicious) && !Says(active, ConfirmedMalicious)
            && !SaysClear(active))
      && (conclusion == Concluded(Benign) <==> Says(active, Benign) && !SaysRisk(active))
      && (conclusion == Concluded(NoObservedFinding) <==>
            Says(active, NoObservedFinding) && !Says(active, Benign) && !SaysRisk(active))
      && (conclusion == Concluded(Inconclusive) <==> !SaysRisk(active) && !SaysClear(active))
  {
    RisksAndClearances(active);
    RisksAreSaid(active);
    var risks := Keep(FindsRisk, active);
    KeepMembers(FindsRisk, active);
    if |risks| > 0 {
      assert risks[0] in risks;
      HighestRiskSaid(risks, risks[0].verdict);
    }
  }

  /** The recorded assessments of a group that nothing replaces. */
  ghost predicate InEffect(assessments: seq<Assessment>, relations: seq<Relation>, key: string, a: Assessment) {
    a in assessments && KeyOf(a) == key && !IsSuperseded(assessments, relations, a)
  }

  ghost predicate SaidInEffect(assessments: seq<Assessment>, relations: seq<Relation>, key: string, verdict: Verdict) {
    exists a :: InEffect(assessments, relations, key, a) && a.verdict == verdict
  }

  ghost predicate RiskInEffect(assessments: seq<Assessment>, relations: seq<Relation>, key: string) {
    || SaidInEffect(assessments, relations, key, ConfirmedMalicious)
    || SaidInEffect(assessments, relations, key, HighlySuspicious)
    || SaidInEffect(assessments, relations, key, Suspicious)
  }

  ghost predicate ClearanceInEffect(assessments: seq<Assessment>, relations: seq<Relation>, key: string) {
    || SaidInEffect(assessments, relations, key, Benign)
    || SaidInEffect(assessments, relations, key, NoObservedFinding)
  }

  /** What a group concludes, told from the recorded assessments that stand. */
  ghost predicate ConcludesAsSaid(assessments: seq<Assessment>, relations: seq<Relation>, key: string,
                                  conclusion: Conclusion) {
    var risk, clear := RiskInEffect(assessments, relations, key), ClearanceInEffect(assessments, relations, key);
    match conclusion
    case Conflict => risk && clear
    case Concluded(ConfirmedMalicious) => SaidInEffect(assessments, relations, key, ConfirmedMalicious) && !clear
    case Concluded(HighlySuspicious) =>
      && SaidInEffect(assessments, relations, key, HighlySuspicious)
      && !SaidInEffect(assessments, relations, key, ConfirmedMalicious) && !clear
    case Concluded(Suspicious) =>
      && SaidInEffect(assessments, relations, key, Suspicious)
      && !SaidInEffect(assessments, relations, key, HighlySuspicious)
      && !SaidInEffect(assessments, relations, key, ConfirmedMalicious) && !clear
    case Concluded(Benign) => SaidInEffect(assessments, relations, key, Benign) && !risk
    case Concluded(NoObservedFinding) =>
      && SaidInEffect(assessments, relations, key, NoObservedFinding)
      && !SaidInEffect(assessments, relations, key, Benign) && !risk
    case Concluded(Inconclusive) => !risk && !clear
  }

  lemma EffectiveMembersStand(assessments: seq<Assessment>, relations: seq<Relation>, key: string)
    returns (active: seq<Assessment>)
    requires AssessmentIdsIdentify(assessments) && InGroup(assessments, key) != []
    ensures forall a :: a in active <==> InEffect(assessments, relations, key, a)
    ensures Ordered(AssessmentLe, active)
    ensures var p := ProjectionOf(assessments, relations, key);
      p.effective == IdsOf(active) && (p.conclusion, p.conflicts) == ResolveConclusion(active)
  {
    var items := InGroup(assessments, key);
    var superseded := Targets(ReplacementGraph(assessments, relations));
    var ordered := StableSort(AssessmentLe, items);
    FallbackIsNeverTaken(assessments, relations, key);
    SortIsPermutation(AssessmentLe, items);
    LedgerOrdersAreTotal();
    SortIsOrdered(AssessmentLe, items);
    InGroupMembers(assessments, key);
    WithoutMembers(ordered, superseded);
    active := Without(ordered, superseded);
    KeepStaysOrdered(AssessmentLe, (a: Assessment) => a.id !in superseded, ordered);
  }

  /** A group concludes exactly what its standing assessments say: the table decides, and only one row of it holds. */
  lemma GroupConcludes(assessments: seq<Assessment>, relations: seq<Relation>, key: string)
    requires AssessmentIdsIdentify(assessments) && InGroup(assessments, key) != []
    ensures forall conclusion :: ProjectionOf(assessments, relations, key).conclusion == conclusion
                            <==> ConcludesAsSaid(assessments, relations, key, conclusion)
  {
    hide ProjectionOf, InEffect, ResolveConclusion;
    var active := EffectiveMembersStand(assessments, relations, key);
    ConclusionTable(active);
    forall verdict
      ensures SaidInEffect(assessments, relations, key, verdict) <==> Says(active, verdict)
    {
    }
    hide Says, SaidInEffect;
  }

  // ---- Replacements ----

  /** RULE, MODEL, SYSTEM, HUMAN: each speaks for itself and for those before it. */
  predicate HasTheSay(over: Author, a: Author) {
    match a
    case Human => true
    case System => !over.Human?
    case Model => over.Model? || over.Rule?
    case Rule => over.Rule?
  }

  /** Two records about the same subject of the same category and scope, in the same task and epoch. */
  predicate AboutTheSame(a: Assessment, b: Assessment) {
    && a.category == b.category && a.scope == b.scope
    && (a.subjectRef == b.subjectRef || {a.subjectRef, b.subjectRef} == {None, Some("OBSERVED_CATEGORY")})
    && a.taskId == b.taskId && a.epochId == b.epochId
  }

  predicate InTimeOrder(stamps: seq<Stamp>) {
    && (forall i :: 0 <= i < |stamps| ==> stamps[i].millis.Some?)
    && (forall i, j :: 0 <= i < j < |stamps| ==> stamps[i].millis.value <= stamps[j].millis.value)
  }

  /** Everything a relation needs to replace `to` by `from`, but for the cycles. */
  predicate IsProper(from: Assessment, to: Assessment, r: Relation) {
    && r.kind in {Adjudicates, Supersedes} && r.from == from.id && r.to == to.id && from.id != to.id
    && AboutTheSame(from, to) && r.taskId == from.taskId && r.epochId == from.epochId
    && InTimeOrder([to.createdAt, from.createdAt, r.createdAt]) && HasTheSay(to.author, from.author)
  }

  ghost predicate IsProperIn(assessments: seq<Assessment>, r: Relation) {
    exists from, to :: from in assessments && to in assessments && IsProper(from, to, r)
  }

  lemma AuthorityIsTheSay(over: Author, a: Author)
    ensures Authority(a) >= Authority(over) <==> HasTheSay(over, a)
  {
  }

  lemma SubjectTextsAgree(a: Option<string>, b: Option<string>)
    ensures SubjectText(a) == SubjectText(b) <==> a == b || {a, b} == {None, Some("OBSERVED_CATEGORY")}
  {
    assert {a, b} == {None, Some("OBSERVED_CATEGORY")} ==> a in {None, Some("OBSERVED_CATEGORY")};
    assert {a, b} == {None, Some("OBSERVED_CATEGORY")} ==> b in {None, Some("OBSERVED_CATEGORY")};
  }

  lemma SameProjectionMeans(a: Assessment, b: Assessment)
    ensures SameProjection(a, b) <==> AboutTheSame(a, b)
  {
    SubjectTextsAgree(a.subjectRef, b.subjectRef);
    if KeyOf(a) == KeyOf(b) {
      KeyIsInjective(a, b);
    }
  }

  lemma TimeOrderMeans(a: Stamp, b: Stamp, c: Stamp)
    ensures InTimeOrder([a, b, c])
       <==> && a.millis.Some? && b.millis.Some? && c.millis.Some?
            && a.millis.value <= b.millis.value <= c.millis.value
  {
    var stamps := [a, b, c];
    assert stamps[0] == a && stamps[1] == b && stamps[2] == c;
  }

  lemma ProperPassesChecks(assessments: seq<Assessment>, r: Relation)
    requires AssessmentIdsIdentify(assessments)
    ensures IsReplacing(r) && PassesChecks(ById(assessments), r) <==> IsProperIn(assessments, r)
  {
    var byId := ById(assessments);
    ByIdFindsMembers(assessments);
    if r.from in byId && r.to in byId {
      var from, to := byId[r.from], byId[r.to];
      SameProjectionMeans(from, to);
      AuthorityIsTheSay(to.author, from.author);
      TimeOrderMeans(to.createdAt, from.createdAt, r.createdAt);
      hide SameProjection, AboutTheSame, ById, Authority, HasTheSay, InTimeOrder;
      assert IsReplacing(r) && PassesChecks(byId, r) <==> IsProper(from, to, r);
    }
  }

  /** The relation is one of those whose edge is in the graph in the end. */
  ghost predicate Replaces(assessments: seq<Assessment>, relations: seq<Relation>, r: Relation) {
    && r in relations && IsProperIn(assessments, r)
    && !Reaches(ReplacementGraph(assessments, relations), r.to, r.from)
  }

  /** Relation number `k` was accepted with this edge. */
  ghost predicate AcceptedAs(byId: map<string, Assessment>, relations: seq<Relation>, k: int, f: string, t: string) {
    && 0 <= k < |relations| && IsReplacing(relations[k]) && !Refused(byId, relations, k)
    && relations[k].from == f && relations[k].to == t
  }

  lemma AcceptedAsPrefix(byId: map<string, Assessment>, relations: seq<Relation>, k: nat, n: nat, f: string, t: string)
    requires k < n <= |relations|
    ensures AcceptedAs(byId, relations[..n], k, f, t) == AcceptedAs(byId, relations, k, f, t)
  {
    assert relations[..n][..k] == relations[..k];
  }

  lemma AcceptedStep(byId: map<string, Assessment>, relations: seq<Relation>, f: string, t: string)
    requires relations != []
    ensures var n := |relations| - 1;
      (f, t) in Accepted(byId, relations)
      <==> (f, t) in Accepted(byId, relations[..n]) || AcceptedAs(byId, relations, n, f, t)
  {
  }

  lemma NothingAccepted(byId: map<string, Assessment>)
    ensures Accepted(byId, []) == {}
  {
  }

  lemma AcceptedIsThere(byId: map<string, Assessment>, relations: seq<Relation>, f: string, t: string)
    ensures forall k :: AcceptedAs(byId, relations, k, f, t) ==> 0 <= k < |relations|
  {
  }

  lemma {:induction false} AcceptedEdges(byId: map<string, Assessment>, relations: seq<Relation>, f: string, t: string)
    ensures (f, t) in Accepted(byId, relations) <==> exists k :: AcceptedAs(byId, relations, k, f, t)
  {
    hide Accepted, AcceptedAs;
    AcceptedIsThere(byId, relations, f, t);
    if relations == [] {
      NothingAccepted(byId);
    } else {
      var n := |relations| - 1;
      AcceptedEdges(byId, relations[..n], f, t);
      AcceptedStep(byId, relations, f, t);
      AcceptedIsThere(byId, relations[..n], f, t);
      forall k: nat | k < n
        ensures AcceptedAs(byId, relations[..n], k, f, t) == AcceptedAs(byId, relations, k, f, t)
      {
        AcceptedAsPrefix(byId, relations, k, n, f, t);
      }
      if k :| AcceptedAs(byId, relations[..n], k, f, t) {
        assert AcceptedAs(byId, relations, k, f, t);
      }
      if k :| AcceptedAs(byId, relations, k, f, t) {
        assert k < n ==> AcceptedAs(byId, relations[..n], k, f, t);
      }
    }
  }

  lemma ReplacesIff(assessments: seq<Assessment>, relations: seq<Relation>, k: nat)
    requires AssessmentIdsIdentify(assessments) && k < |relations|
    ensures var sorted := StableSort(RelationLe, relations);
      |sorted| == |relations| && sorted[k] in relations
      && (IsReplacing(sorted[k]) && !Refused(ById(assessments), sorted, k)
          <==> Replaces(assessments, relations, sorted[k]))
  {
    var byId, sorted := ById(assessments), StableSort(RelationLe, relations);
    SortIsPermutation(RelationLe, relations);
    assert sorted[k] in sorted;
    ProperPassesChecks(assessments, sorted[k]);
    hide PassesChecks, IsProperIn, ById, Refused;
    if IsReplacing(sorted[k]) {
      RefusedIffItWouldCloseACycle(byId, sorted, k);
    }
  }

  /** The graph has exactly the edges of the proper relations that close no cycle in it. */
  lemma GraphIsItsRelations(assessments: seq<Assessment>, relations: seq<Relation>, f: string, t: string)
    requires AssessmentIdsIdentify(assessments)
    ensures (f, t) in ReplacementGraph(assessments, relations) <==>
      exists r :: Replaces(assessments, relations, r) && r.from == f && r.to == t
  {
    var byId, sorted := ById(assessments), StableSort(RelationLe, relations);
    SortIsPermutation(RelationLe, relations);
    AcceptedEdges(byId, sorted, f, t);
    forall k: nat | k < |sorted|
      ensures IsReplacing(sorted[k]) && !Refused(byId, sorted, k) <==> Replaces(assessments, relations, sorted[k])
    {
      ReplacesIff(assessments, relations, k);
    }
    hide Refused, Accepted, ById, IsProperIn, StableSort, Reaches;
    if k :| AcceptedAs(byId, sorted, k, f, t) {
      assert Replaces(assessments, relations, sorted[k]);
    }
    if r :| Replaces(assessments, relations, r) && r.from == f && r.to == t {
      assert r in sorted;
      var k :| 0 <= k < |sorted| && sorted[k] == r;
      assert AcceptedAs(byId, sorted, k, f, t);
    }
  }

  /** An assessment is out of effect exactly if a relation replaces it. */
  lemma SupersededMeansReplaced(assessments: seq<Assessment>, relations: seq<Relation>, a: Assessment)
    requires AssessmentIdsIdentify(assessments)
    ensures IsSuperseded(assessments, relations, a) <==> exists r :: Replaces(assessments, relations, r) && r.to == a.id
  {
    var graph := ReplacementGraph(assessments, relations);
    if IsSuperseded(assessments, relations, a) {
      var e :| e in graph && e.1 == a.id;
      GraphIsItsRelations(assessments, relations, e.0, e.1);
      assert (e.0, e.1) in graph;
    }
    if r :| Replaces(assessments, relations, r) && r.to == a.id {
      GraphIsItsRelations(assessments, relations, r.from, r.to);
      assert (r.from, r.to).1 == a.id;
    }
  }

  // ---- First come, first served ----

  /** Strictly earlier in time stamp, and on a tie in id. */
  predicate ComesBefore(aStamp: Stamp, aId: string, bStamp: Stamp, bId: string) {
    if aStamp.text != bStamp.text then TextLe(aStamp.text, bStamp.text) else aId != bId && TextLe(aId, bId)
  }

  lemma ComesBeforeIsStrict(aStamp: Stamp, aId: string, bStamp: Stamp, bId: string)
    requires aId != bId
    ensures ComesBefore(aStamp, aId, bStamp, bId) <==> ByStampThenId(aStamp, aId, bStamp, bId)
    ensures ComesBefore(aStamp, aId, bStamp, bId) <==> !ComesBefore(bStamp, bId, aStamp, aId)
  {
    TextLeIsTotalOrder();
  }

  /** The edges of the replacing relations that come before a given one. */
  ghost function GraphBefore(assessments: seq<Assessment>, relations: seq<Relation>, r: Relation): Edges<string> {
    set q | q in relations && Replaces(assessments, relations, q) && ComesBefore(q.createdAt, q.id, r.createdAt, r.id)
      :: (q.from, q.to)
  }

  /** Each relation is recorded once, under an id of its own. */
  ghost predicate DistinctRelations(relations: seq<Relation>) {
    forall i, j :: 0 <= i < j < |relations| ==> relations[i].id != relations[j].id
  }

  lemma DistinctRelationsCount(relations: seq<Relation>, r: Relation)
    requires DistinctRelations(relations)
    ensures multiset(relations)[r] <= 1 && RelationIdsIdentify(relations)
  {
    RepetitionFreeCounts(relations, r);
  }

  lemma SortedRelations(relations: seq<Relation>)
    requires DistinctRelations(relations)
    ensures var sorted := StableSort(RelationLe, relations);
      forall i, j :: 0 <= i < j < |sorted| ==>
        ComesBefore(sorted[i].createdAt, sorted[i].id, sorted[j].createdAt, sorted[j].id)
  {
    var sorted := StableSort(RelationLe, relations);
    LedgerOrdersAreTotal();
    SortIsOrdered(RelationLe, relations);
    SortIsPermutation(RelationLe, relations);
    forall i, j | 0 <= i < j < |sorted|
      ensures ComesBefore(sorted[i].createdAt, sorted[i].id, sorted[j].createdAt, sorted[j].id)
    {
      assert sorted[i] in sorted && sorted[j] in sorted;
      DistinctRelationsCount(relations, sorted[i]);
      if sorted[i].id == sorted[j].id {
        TwiceCountsTwo(sorted, i, j);
      }
      ComesBeforeIsStrict(sorted[i].createdAt, sorted[i].id, sorted[j].createdAt, sorted[j].id);
      assert RelationLe(sorted[i], sorted[j]);
    }
  }

  lemma BeforeInTheSort(assessments: seq<Assessment>, relations: seq<Relation>, k: nat)
    requires AssessmentIdsIdentify(assessments) && DistinctRelations(relations) && k < |relations|
    ensures var sorted := StableSort(RelationLe, relations);
      && |sorted| == |relations|
      && Accepted(ById(assessments), sorted[..k]) == GraphBefore(assessments, relations, sorted[k])
  {
    var byId, sorted := ById(assessments), StableSort(RelationLe, relations);
    SortIsPermutation(RelationLe, relations);
    hide Accepted, GraphBefore, StableSort, ById;
    forall e: (string, string)
      ensures e in Accepted(byId, sorted[..k]) <==> e in GraphBefore(assessments, relations, sorted[k])
    {
      var (f, t) := e;
      AcceptedComesBefore(assessments, relations, k, f, t);
      WhatComesBeforeIsAccepted(assessments, relations, k, f, t);
    }
  }

  lemma AcceptedComesBefore(assessments: seq<Assessment>, relations: seq<Relation>, k: nat, f: string, t: string)
    requires AssessmentIdsIdentify(assessments) && DistinctRelations(relations) && k < |relations|
    ensures var sorted := StableSort(RelationLe, relations);
      && |sorted| == |relations|
      && ((f, t) in Accepted(ById(assessments), sorted[..k]) ==>
            (f, t) in GraphBefore(assessments, relations, sorted[k]))
  {
    var byId, sorted := ById(assessments), StableSort(RelationLe, relations);
    SortIsPermutation(RelationLe, relations);
    SortedRelations(relations);
    AcceptedEdges(byId, sorted[..k], f, t);
    hide Accepted, StableSort, ById, Refused, ComesBefore, Replaces;
    if i: nat :| AcceptedAs(byId, sorted[..k], i, f, t) {
      AcceptedAsPrefix(byId, sorted, i, k, f, t);
      ReplacesIff(assessments, relations, i);
      assert sorted[i] in relations && (sorted[i].from, sorted[i].to) == (f, t);
    }
  }

  lemma WhatComesBeforeIsAccepted(assessments: seq<Assessment>, relations: seq<Relation>, k: nat, f: string, t: string)
    requires AssessmentIdsIdentify(assessments) && DistinctRelations(relations) && k < |relations|
    ensures var sorted := StableSort(RelationLe, relations);
      && |sorted| == |relations|
      && ((f, t) in GraphBefore(assessments, relations, sorted[k]) ==>
            (f, t) in Accepted(ById(assessments), sorted[..k]))
  {
    hide Accepted, StableSort, ById, Refused, ComesBefore, Replaces, GraphBefore, AcceptedAs, RelationLe;
    var byId, sorted := ById(assessments), StableSort(RelationLe, relations);
    SortIsPermutation(RelationLe, relations);
    var r := sorted[k];
    if (f, t) in GraphBefore(assessments, relations, r) {
      var q := WhoPutsIt(assessments, relations, r, f, t);
      SortedRelations(relations);
      assert q in sorted;
      var i: nat :| i < |sorted| && sorted[i] == q;
      NotBoth(q, r);
      ReplacesIff(assessments, relations, i);
      AcceptedAsMeans(byId, sorted, i);
      AcceptedAsPrefix(byId, sorted, i, k, f, t);
      AcceptedEdges(byId, sorted[..k], f, t);
    }
  }

  lemma WhoPutsIt(assessments: seq<Assessment>, relations: seq<Relation>, r: Relation, f: string, t: string)
    returns (q: Relation)
    requires (f, t) in GraphBefore(assessments, relations, r)
    ensures q in relations && Replaces(assessments, relations, q) && q.from == f && q.to == t
    ensures ComesBefore(q.createdAt, q.id, r.createdAt, r.id)
  {
    q :| q in relations && Replaces(assessments, relations, q)
      && ComesBefore(q.createdAt, q.id, r.createdAt, r.id) && (q.from, q.to) == (f, t);
  }

  lemma AcceptedAsMeans(byId: map<string, Assessment>, relations: seq<Relation>, k: nat)
    requires k < |relations|
    ensures AcceptedAs(byId, relations, k, relations[k].from, relations[k].to)
       <==> IsReplacing(relations[k]) && !Refused(byId, relations, k)
  {
  }

  lemma NotBoth(q: Relation, r: Relation)
    ensures !(ComesBefore(q.createdAt, q.id, r.createdAt, r.id) && ComesBefore(r.createdAt, r.id, q.createdAt, q.id))
  {
    TextLeIsTotalOrder();
  }

  /** Of relations that would close a cycle together the later ones give way: each answers to those before it. */
  lemma EarlierRelationsGoFirst(assessments: seq<Assessment>, relations: seq<Relation>, r: Relation)
    requires AssessmentIdsIdentify(assessments) && DistinctRelations(relations) && r in relations
    ensures Replaces(assessments, relations, r)
       <==> IsProperIn(assessments, r) && !Reaches(GraphBefore(assessments, relations, r), r.to, r.from)
  {
    var byId, sorted := ById(assessments), StableSort(RelationLe, relations);
    SortIsPermutation(RelationLe, relations);
    assert r in sorted;
    var k :| 0 <= k < |sorted| && sorted[k] == r;
    ReplacesIff(assessments, relations, k);
    ProperPassesChecks(assessments, r);
    BeforeInTheSort(assessments, relations, k);
    hide PassesChecks, IsProperIn, Reaches, GraphBefore, Replaces;
  }

  /** One of the two ends of the relation is on record, in this group. */
  ghost predicate HasAnEndIn(assessments: seq<Assessment>, r: Relation, key: string) {
    exists a :: a in assessments && (a.id == r.from || a.id == r.to) && KeyOf(a) == key
  }

  lemma TouchingMeans(assessments: seq<Assessment>, r: Relation, key: string)
    requires AssessmentIdsIdentify(assessments)
    ensures Touches(ById(assessments), r, key) <==> HasAnEndIn(assessments, r, key)
  {
    ByIdFindsMembers(assessments);
    hide ById, KeyOf;
  }

  /** A group reports as ignored the relations that would replace but do not, if an end of theirs is in the group. */
  lemma IgnoredAreTheRefused(assessments: seq<Assessment>, relations: seq<Relation>, key: string, id: string)
    requires AssessmentIdsIdentify(assessments) && InGroup(assessments, key) != []
    ensures id in ProjectionOf(assessments, relations, key).ignored <==>
      exists r :: r in relations && r.id == id && r.kind in {Adjudicates, Supersedes}
        && HasAnEndIn(assessments, r, key) && !Replaces(assessments, relations, r)
  {
    IgnoredRelationsExplained(assessments, relations, key, id);
    forall r | r in relations
      ensures Touches(ById(assessments), r, key) <==> HasAnEndIn(assessments, r, key)
      ensures IsReplacing(r) <==> r.kind in {Adjudicates, Supersedes}
      ensures IsReplacing(r) ==>
        (FailsOrClosesCycle(assessments, relations, r) <==> !Replaces(assessments, relations, r))
    {
      TouchingMeans(assessments, r, key);
      ProperPassesChecks(assessments, r);
      hide PassesChecks, IsProperIn, ById, Reaches;
    }
    hide ProjectionOf, Touches, HasAnEndIn, FailsOrClosesCycle, Replaces, IsReplacing;
  }

  // ---- Keys, subjects and order ----

  /** How a projection key reads. */
  lemma KeyReads(a: Assessment)
    ensures KeyOf(a) == a.category + (if a.scope.Subject? then "::SUBJECT::" else "::OBSERVED_CATEGORY::")
                        + (if a.subjectRef.None? then "OBSERVED_CATEGORY" else a.subjectRef.value)
  {
    hide *;
    KeyInParts(a);
    var scope := ScopeText(a.scope);
    var subject := SubjectText(a.subjectRef);
    PartsJoin(a.category, scope, subject);
    assert "::" + "SUBJECT" + "::" == "::SUBJECT::" && "::" + "OBSERVED_CATEGORY" + "::" == "::OBSERVED_CATEGORY::";
  }

  lemma KeyInParts(a: Assessment)
    ensures KeyOf(a) == a.category + ("::" + (ScopeText(a.scope) + ("::" + SubjectText(a.subjectRef))))
    ensures ScopeText(a.scope) == if a.scope.Subject? then "SUBJECT" else "OBSERVED_CATEGORY"
    ensures SubjectText(a.subjectRef) == if a.subjectRef.None? then "OBSERVED_CATEGORY" else a.subjectRef.value
  {
  }

  lemma PartsJoin(category: string, scope: string, subject: string)
    ensures category + ("::" + (scope + ("::" + subject))) == category + ("::" + scope + "::") + subject
  {
  }

  /** The projection of a group names the subject of its members, unless they have none. */
  lemma ProjectionNamesItsSubject(assessments: seq<Assessment>, relations: seq<Relation>, a: Assessment)
    requires a in assessments
    ensures InGroup(assessments, KeyOf(a)) != []
    ensures var p := ProjectionOf(assessments, relations, KeyOf(a));
      && (a.subjectRef == Some("") ==> p.subjectRef == None)
      && (a.subjectRef.Some? && a.subjectRef.value != "" && a.subjectRef.value != "OBSERVED_CATEGORY" ==>
            p.subjectRef == a.subjectRef)
      && (a.subjectRef.None? ==> p.subjectRef in {None, Some("OBSERVED_CATEGORY")})
  {
    var key := KeyOf(a);
    InGroupMembers(assessments, key);
    var items := InGroup(assessments, key);
    assert a in items;
    SortIsPermutation(AssessmentLe, items);
    var first := StableSort(AssessmentLe, items)[0];
    assert first in StableSort(AssessmentLe, items);
    KeyIsInjective(first, a);
    SubjectTextsAgree(first.subjectRef, a.subjectRef);
    hide KeyOf, InGroup, StableSort, ResolveConclusion, Effective, SubjectText;
    assert first.subjectRef != a.subjectRef ==> a.subjectRef in {None, Some("OBSERVED_CATEGORY")} by {
      assert a.subjectRef in {first.subjectRef, a.subjectRef};
    }
    assert first.subjectRef != a.subjectRef ==> first.subjectRef in {None, Some("OBSERVED_CATEGORY")} by {
      assert first.subjectRef in {first.subjectRef, a.subjectRef};
    }
  }

  /** Recorded once, under an id of its own. */
  ghost predicate DistinctAssessments(assessments: seq<Assessment>) {
    forall i, j :: 0 <= i < j < |assessments| ==> assessments[i].id != assessments[j].id
  }

  /** The ids name the given assessments, earlier ones first. */
  ghost predicate ListedInOrder(ids: seq<string>, members: seq<Assessment>) {
    && ids == IdsOf(members)
    && forall i, j :: 0 <= i < j < |members| ==>
         ComesBefore(members[i].createdAt, members[i].id, members[j].createdAt, members[j].id)
  }

  lemma {:induction false} GroupStaysDistinct(assessments: seq<Assessment>, key: string)
    requires DistinctAssessments(assessments)
    ensures DistinctAssessments(InGroup(assessments, key))
  {
    hide KeyOf;
    if assessments != [] {
      var front := assessments[..|assessments| - 1];
      GroupStaysDistinct(front, key);
      InGroupMembers(front, key);
      var before := InGroup(front, key);
      assert forall i :: 0 <= i < |before| ==> before[i] in before;
    }
  }

  lemma DistinctMembersCount(items: seq<Assessment>, a: Assessment)
    requires DistinctAssessments(items)
    ensures multiset(items)[a] <= 1
    ensures AssessmentIdsIdentify(items)
  {
    RepetitionFreeCounts(items, a);
  }

  lemma SortedGroup(items: seq<Assessment>)
    requires DistinctAssessments(items)
    ensures var ordered := StableSort(AssessmentLe, items);
      forall i, j :: 0 <= i < j < |ordered| ==>
        ComesBefore(ordered[i].createdAt, ordered[i].id, ordered[j].createdAt, ordered[j].id)
  {
    var ordered := StableSort(AssessmentLe, items);
    LedgerOrdersAreTotal();
    SortIsOrdered(AssessmentLe, items);
    SortIsPermutation(AssessmentLe, items);
    forall i, j | 0 <= i < j < |ordered|
      ensures ComesBefore(ordered[i].createdAt, ordered[i].id, ordered[j].createdAt, ordered[j].id)
    {
      assert ordered[i] in ordered && ordered[j] in ordered;
      DistinctMembersCount(items, ordered[i]);
      if ordered[i].id == ordered[j].id {
        TwiceCountsTwo(ordered, i, j);
      }
      ComesBeforeIsStrict(ordered[i].createdAt, ordered[i].id, ordered[j].createdAt, ordered[j].id);
      assert AssessmentLe(ordered[i], ordered[j]);
    }
  }

  function Earlier(): (Assessment, Assessment) -> bool {
    (a: Assessment, b: Assessment) => ComesBefore(a.createdAt, a.id, b.createdAt, b.id)
  }

  /** A group lists its standing and its replaced members, each list from the earliest to the latest. */
  lemma GroupIsListedInOrder(assessments: seq<Assessment>, relations: seq<Relation>, key: string)
    returns (standing: seq<Assessment>, replaced: seq<Assessment>)
    requires DistinctAssessments(assessments) && InGroup(assessments, key) != []
    ensures var p := ProjectionOf(assessments, relations, key);
      ListedInOrder(p.effective, standing) && ListedInOrder(p.superseded, replaced)
    ensures forall a :: a in standing <==> InEffect(assessments, relations, key, a)
    ensures forall a :: a in replaced <==>
      a in assessments && KeyOf(a) == key && IsSuperseded(assessments, relations, a)
  {
    var items := InGroup(assessments, key);
    var superseded := Targets(ReplacementGraph(assessments, relations));
    var ordered := StableSort(AssessmentLe, items);
    DistinctMembersCount(assessments, assessments[0]);
    FallbackIsNeverTaken(assessments, relations, key);
    SortIsPermutation(AssessmentLe, items);
    InGroupMembers(assessments, key);
    WithoutMembers(ordered, superseded);
    GroupStaysDistinct(assessments, key);
    SortedGroup(items);
    hide ComesBefore, StableSort, KeyOf, InGroup, ResolveConclusion;
    standing, replaced := Without(ordered, superseded), Within(ordered, superseded);
    assert Ordered(Earlier(), ordered);
    KeepStaysOrdered(Earlier(), (a: Assessment) => a.id !in superseded, ordered);
    KeepStaysOrdered(Earlier(), (a: Assessment) => a.id in superseded, ordered);
    hide Keep;
    assert forall i, j :: 0 <= i < j < |standing| ==> Earlier()(standing[i], standing[j]);
    assert forall i, j :: 0 <= i < j < |replaced| ==> Earlier()(replaced[i], replaced[j]);
  }

  lemma KeysAscend(ps: seq<Projection>)
    requires forall i, j :: 0 <= i < j < |ps| ==> ps[i].key != ps[j].key
    ensures var sorted := StableSort(ProjectionLe, ps);
      forall i, j :: 0 <= i < j < |sorted| ==> sorted[i].key != sorted[j].key && TextLe(sorted[i].key, sorted[j].key)
  {
    var sorted := StableSort(ProjectionLe, ps);
    LedgerOrdersAreTotal();
    SortIsOrdered(ProjectionLe, ps);
    SortIsPermutation(ProjectionLe, ps);
    hide StableSort, TextLe;
    forall i, j | 0 <= i < j < |sorted|
      ensures sorted[i].key != sorted[j].key && TextLe(sorted[i].key, sorted[j].key)
    {
      assert ProjectionLe(sorted[i], sorted[j]);
      assert sorted[i] in sorted && sorted[j] in sorted;
      if sorted[i].key == sorted[j].key {
        RepetitionFreeCounts(ps, sorted[i]);
        TwiceCountsTwo(sorted, i, j);
      }
    }
  }

  /** The projections come in strictly ascending order of their keys. */
  lemma ProjectionsAreListedByKey(assessments: seq<Assessment>, relations: seq<Relation>)
    ensures var ps := EffectiveProjections(assessments, relations);
      forall i, j :: 0 <= i < j < |ps| ==> ps[i].key != ps[j].key && TextLe(ps[i].key, ps[j].key)
  {
    GroupsAreInhabited(assessments);
    ProjectKeysAreKeyed(assessments, relations);
    var ps := ProjectKeys(assessments, relations, GroupKeys(assessments));
    assert EffectiveProjections(assessments, relations) == StableSort(ProjectionLe, ps);
    hide *;
    KeysAscend(ps);
  }

  /** Each recorded assessment has the projection of its group, and there are no others. */
  lemma EachGroupHasItsProjection(assessments: seq<Assessment>, relations: seq<Relation>, key: string)
    ensures (exists p :: p in EffectiveProjections(assessments, relations) && p.key == key)
       <==> exists a :: a in assessments && KeyOf(a) == key
  {
    hide KeyOf, EffectiveProjections, ProjectionOf;
    if p :| p in EffectiveProjections(assessments, relations) && p.key == key {
      var a := ProjectionHasAMember(assessments, relations, p);
    }
    if a :| a in assessments && KeyOf(a) == key {
      ProjectionDescribesItsGroup(assessments, relations, a);
      ProjectionIsKeyed(assessments, relations, key);
      assert ProjectionOf(assessments, relations, key) in EffectiveProjections(assessments, relations);
    }
  }

  lemma ProjectionIsKeyed(assessments: seq<Assessment>, relations: seq<Relation>, key: string)
    requires InGroup(assessments, key) != []
    ensures ProjectionOf(assessments, relations, key).key == key
  {
  }

  lemma ConflictsAreSorted(active: seq<Assessment>)
    ensures var (conclusion, conflicts) := ResolveConclusion(active);
      Ordered(TextLe, conflicts) && (conflicts != [] ==> conclusion.Conflict?)
  {
    LedgerOrdersAreTotal();
    SortIsOrdered(TextLe, IdsOf(Opposed(active)));
    if ResolveConclusion(active).0.Conflict? {
      ConflictListsTheOpposed(active);
    }
  }

  predicate EachOnce(ids: seq<string>) {
    forall i, j :: 0 <= i < j < |ids| ==> ids[i] != ids[j]
  }

  lemma AddingOnce(ids: seq<string>, id: string)
    requires EachOnce(ids)
    ensures EachOnce(AddOnce(ids, id))
  {
  }

  lemma {:induction false} RefusedOnce(byId: map<string, Assessment>, relations: seq<Relation>, key: string)
    ensures EachOnce(RefusedIds(byId, relations, key))
  {
    hide Refused, Touches, EachOnce, AddOnce;
    if relations == [] {
      NothingRefused(byId, key);
      NothingRepeats();
    } else {
      var n := |relations| - 1;
      RefusedOnce(byId, relations[..n], key);
      AddingOnce(RefusedIds(byId, relations[..n], key), relations[n].id);
    }
  }

  lemma NothingRepeats()
    ensures EachOnce([])
  {
  }

  lemma SortedOnce(ids: seq<string>)
    requires EachOnce(ids)
    ensures EachOnce(StableSort(TextLe, ids))
  {
    var sorted := StableSort(TextLe, ids);
    LedgerOrdersAreTotal();
    SortIsPermutation(TextLe, ids);
    hide StableSort;
    if i, j :| 0 <= i < j < |sorted| && sorted[i] == sorted[j] {
      RepetitionFreeCounts(ids, sorted[i]);
      TwiceCountsTwo(sorted, i, j);
    }
  }

  /**
    The ignored relations and the opposed assessments of a group are listed in ascending order of their ids,
    the ignored ones once each.
  */
  lemma ReportsAreSorted(assessments: seq<Assessment>, relations: seq<Relation>, key: string)
    requires InGroup(assessments, key) != []
    ensures var p := ProjectionOf(assessments, relations, key);
      Ordered(TextLe, p.ignored) && Ordered(TextLe, p.conflicts) && (p.conflicts != [] ==> p.conclusion.Conflict?)
    ensures EachOnce(ProjectionOf(assessments, relations, key).ignored)
  {
    LedgerOrdersAreTotal();
    var byId, sorted := ById(assessments), StableSort(RelationLe, relations);
    var superseded := Targets(Accepted(byId, sorted));
    SortIsOrdered(TextLe, RefusedIds(byId, sorted, key));
    RefusedOnce(byId, sorted, key);
    SortedOnce(RefusedIds(byId, sorted, key));
    hide RefusedIds, ById, Accepted, InGroup, ResolveConclusion, EachOnce;
    ConflictsOfAGroup(key, InGroup(assessments, key), superseded, RefusedIds(byId, sorted, key));
  }

  lemma ConflictsOfAGroup(key: string, items: seq<Assessment>, superseded: set<string>, refused: seq<string>)
    requires items != []
    ensures var p := ProjectGroup(key, items, superseded, refused);
      Ordered(TextLe, p.conflicts) && (p.conflicts != [] ==> p.conclusion.Conflict?)
  {
    hide ResolveConclusion, StableSort, Effective;
    SortIsPermutation(AssessmentLe, items);
    ConflictsAreSorted(Effective(StableSort(AssessmentLe, items), superseded));
  }
}
