/**
  What a ledger keeps when assessments are added that no relation mentions and whose keys nobody
  used before: every other projection, in full and in order.
*/
module LedgerExtension {
  import opened Wrappers
  import opened Ordering
  import opened Graph
  import opened Ledger
  import opened LedgerTheorems
  import opened Selection

  /** Relations only join recorded assessments; the store checks it when a relation is put. */
  ghost predicate Grounded(assessments: seq<Assessment>, relations: seq<Relation>) {
    forall r :: r in relations ==> r.from in IdsOf(assessments) && r.to in IdsOf(assessments)
  }

  /** The additions bring new ids and open new groups. */
  ghost predicate StandApart(assessments: seq<Assessment>, extra: seq<Assessment>) {
    forall a, e :: a in assessments && e in extra ==> a.id != e.id && KeyOf(a) != KeyOf(e)
  }

  lemma {:induction false} ByIdExtended(assessments: seq<Assessment>, extra: seq<Assessment>, id: string)
    requires id !in IdsOf(extra)
    ensures id in ById(assessments + extra) <==> id in ById(assessments)
    ensures id in ById(assessments) ==> ById(assessments + extra)[id] == ById(assessments)[id]
  {
    if extra == [] {
      assert assessments + extra == assessments;
    } else {
      var n := |extra| - 1;
      assert (assessments + extra)[..|assessments + extra| - 1] == assessments + extra[..n];
      assert extra[n].id == IdsOf(extra)[n];
      assert id !in IdsOf(extra[..n]) by {
        assert forall i :: 0 <= i < n ==> IdsOf(extra[..n])[i] == IdsOf(extra)[i];
      }
      ByIdExtended(assessments, extra[..n], id);
    }
  }

  /** The ledger tables agree on the ends of a relation. */
  ghost predicate AgreeOn(byId: map<string, Assessment>, wider: map<string, Assessment>, r: Relation) {
    && (r.from in byId <==> r.from in wider) && (r.to in byId <==> r.to in wider)
    && (r.from in byId ==> byId[r.from] == wider[r.from]) && (r.to in byId ==> byId[r.to] == wider[r.to])
  }

  lemma {:induction false} SameGraph(byId: map<string, Assessment>, wider: map<string, Assessment>,
                                     relations: seq<Relation>)
    requires forall r :: r in relations ==> AgreeOn(byId, wider, r)
    ensures Accepted(byId, relations) == Accepted(wider, relations)
  {
    if relations != [] {
      var last := relations[|relations| - 1];
      assert AgreeOn(byId, wider, last);
      SameGraph(byId, wider, relations[..|relations| - 1]);
    }
  }

  lemma {:induction false} SameRefusals(byId: map<string, Assessment>, wider: map<string, Assessment>,
                                        relations: seq<Relation>, key: string)
    requires forall r :: r in relations ==> AgreeOn(byId, wider, r)
    ensures RefusedIds(byId, relations, key) == RefusedIds(wider, relations, key)
  {
    if relations != [] {
      var n := |relations| - 1;
      assert AgreeOn(byId, wider, relations[n]);
      SameGraph(byId, wider, relations[..n]);
      SameRefusals(byId, wider, relations[..n], key);
    }
  }

  lemma {:induction false} GroupOfBoth(assessments: seq<Assessment>, extra: seq<Assessment>, key: string)
    ensures InGroup(assessments + extra, key) == InGroup(assessments, key) + InGroup(extra, key)
  {
    if extra == [] {
      assert assessments + extra == assessments;
    } else {
      var n := |extra| - 1;
      assert (assessments + extra)[..|assessments + extra| - 1] == assessments + extra[..n];
      GroupOfBoth(assessments, extra[..n], key);
    }
  }

  lemma {:induction false} KeysGrow(assessments: seq<Assessment>, extra: seq<Assessment>)
    ensures GroupKeys(assessments) <= GroupKeys(assessments + extra)
  {
    if extra == [] {
      assert assessments + extra == assessments;
    } else {
      assert (assessments + extra)[..|assessments + extra| - 1] == assessments + extra[..|extra| - 1];
      KeysGrow(assessments, extra[..|extra| - 1]);
    }
  }

  /** A group that was there before is projected exactly as before. */
  lemma OldGroupsUntouched(assessments: seq<Assessment>, extra: seq<Assessment>, relations: seq<Relation>, key: string)
    requires Grounded(assessments, relations) && StandApart(assessments, extra) && InGroup(assessments, key) != []
    ensures InGroup(assessments + extra, key) == InGroup(assessments, key)
    ensures ProjectionOf(assessments + extra, relations, key) == ProjectionOf(assessments, relations, key)
  {
    InGroupMembers(assessments, key);
    InGroupMembers(extra, key);
    var member := InGroup(assessments, key)[0];
    assert member in InGroup(assessments, key);
    assert InGroup(extra, key) == [] by {
      if InGroup(extra, key) != [] {
        assert InGroup(extra, key)[0] in InGroup(extra, key);
      }
    }
    GroupOfBoth(assessments, extra, key);
    var sorted := StableSort(RelationLe, relations);
    SortIsPermutation(RelationLe, relations);
    var byId, wider := ById(assessments), ById(assessments + extra);
    forall r | r in sorted
      ensures AgreeOn(byId, wider, r)
    {
      EndsAgree(assessments, extra, r.from);
      EndsAgree(assessments, extra, r.to);
    }
    SameGraph(byId, wider, sorted);
    SameRefusals(byId, wider, sorted, key);
  }

  lemma EndsAgree(assessments: seq<Assessment>, extra: seq<Assessment>, id: string)
    requires id in IdsOf(assessments) && StandApart(assessments, extra)
    ensures id in ById(assessments) <==> id in ById(assessments + extra)
    ensures id in ById(assessments) ==> ById(assessments)[id] == ById(assessments + extra)[id]
  {
    IdsOfMembers(assessments, id);
    IdsOfMembers(extra, id);
    ByIdExtended(assessments, extra, id);
  }

  // ---- The projections as a list ----

  /** The projections of the extended ledger, before sorting: the old ones, then those of new groups. */
  lemma ProjectionsExtended(assessments: seq<Assessment>, extra: seq<Assessment>, relations: seq<Relation>)
    requires Grounded(assessments, relations) && StandApart(assessments, extra)
    requires forall k :: k in GroupKeys(assessments) ==> InGroup(assessments, k) != []
    requires forall k :: k in GroupKeys(assessments + extra) ==> InGroup(assessments + extra, k) != []
    ensures ProjectKeys(assessments, relations, GroupKeys(assessments))
      <= ProjectKeys(assessments + extra, relations, GroupKeys(assessments + extra))
  {
    KeysGrow(assessments, extra);
    var keys, wider := GroupKeys(assessments), GroupKeys(assessments + extra);
    var ps, qs := ProjectKeys(assessments, relations, keys), ProjectKeys(assessments + extra, relations, wider);
    hide ProjectionOf;
    forall i | 0 <= i < |ps|
      ensures qs[i] == ps[i]
    {
      assert keys[i] in keys && wider[i] == keys[i];
      OldGroupsUntouched(assessments, extra, relations, keys[i]);
    }
  }

  /** Every group but the new ones keeps its projection, whichever selection of projections is read. */
  lemma SelectionUntouched(assessments: seq<Assessment>, extra: seq<Assessment>, relations: seq<Relation>,
                           wanted: Projection -> bool)
    requires Grounded(assessments, relations) && StandApart(assessments, extra)
    requires forall p ::
      p in EffectiveProjections(assessments + extra, relations) && p.key !in GroupKeys(assessments) ==> !wanted(p)
    ensures Keep(wanted, EffectiveProjections(assessments + extra, relations))
      == Keep(wanted, EffectiveProjections(assessments, relations))
  {
    GroupsAreInhabited(assessments);
    GroupsAreInhabited(assessments + extra);
    var ps := ProjectKeys(assessments, relations, GroupKeys(assessments));
    var qs := ProjectKeys(assessments + extra, relations, GroupKeys(assessments + extra));
    ProjectionsExtended(assessments, extra, relations);
    NewProjectionsAreNew(assessments, extra, relations);
    assert EffectiveProjections(assessments, relations) == StableSort(ProjectionLe, ps);
    assert EffectiveProjections(assessments + extra, relations) == StableSort(ProjectionLe, qs);
    hide *;
    SortIsPermutation(ProjectionLe, qs);
    assert forall i :: |ps| <= i < |qs| ==> qs[i] in qs;
    SelectionOfPrefix(wanted, ps, qs);
    LedgerOrdersAreTotal();
    KeepAfterSort(ProjectionLe, wanted, ps);
    KeepAfterSort(ProjectionLe, wanted, qs);
  }

  lemma NewProjectionsAreNew(assessments: seq<Assessment>, extra: seq<Assessment>, relations: seq<Relation>)
    requires forall k :: k in GroupKeys(assessments) ==> InGroup(assessments, k) != []
    requires forall k :: k in GroupKeys(assessments + extra) ==> InGroup(assessments + extra, k) != []
    requires ProjectKeys(assessments, relations, GroupKeys(assessments))
      <= ProjectKeys(assessments + extra, relations, GroupKeys(assessments + extra))
    ensures var ps, qs := ProjectKeys(assessments, relations, GroupKeys(assessments)),
      ProjectKeys(assessments + extra, relations, GroupKeys(assessments + extra));
      forall i :: |ps| <= i < |qs| ==> qs[i].key !in GroupKeys(assessments)
  {
    hide InGroup, GroupKeys;
    var ps, qs := ProjectKeys(assessments, relations, GroupKeys(assessments)),
      ProjectKeys(assessments + extra, relations, GroupKeys(assessments + extra));
    KeysGrow(assessments, extra);
    GroupKeysMembers(assessments + extra);
    assert forall i :: 0 <= i < |qs| ==> qs[i].key == GroupKeys(assessments + extra)[i];
  }

  lemma EffectiveMembers(assessments: seq<Assessment>, relations: seq<Relation>, p: Projection)
    ensures p in EffectiveProjections(assessments, relations) <==>
            InGroup(assessments, p.key) != [] && p == ProjectionOf(assessments, relations, p.key)
  {
    GroupsAreInhabited(assessments);
    SortIsPermutation(ProjectionLe, ProjectKeys(assessments, relations, GroupKeys(assessments)));
    ProjectKeysMembers(assessments, relations, GroupKeys(assessments), p);
  }

  /** A projection tells the category and the scope of everything in its group. */
  lemma ProjectionDescribesItsGroup(assessments: seq<Assessment>, relations: seq<Relation>, a: Assessment)
    requires a in assessments
    ensures InGroup(assessments, KeyOf(a)) != []
    ensures var p := ProjectionOf(assessments, relations, KeyOf(a));
      p in EffectiveProjections(assessments, relations) && p.category == a.category && p.scope == a.scope
  {
    var key := KeyOf(a);
    InGroupMembers(assessments, key);
    assert a in InGroup(assessments, key);
    EffectiveMembers(assessments, relations, ProjectionOf(assessments, relations, key));
    SortIsPermutation(AssessmentLe, InGroup(assessments, key));
    var ordered := StableSort(AssessmentLe, InGroup(assessments, key));
    assert ordered[0] in ordered;
    KeyIsInjective(ordered[0], a);
  }

  /** The other way: a projection comes from a recorded assessment of its key, category and scope. */
  lemma ProjectionHasAMember(assessments: seq<Assessment>, relations: seq<Relation>, p: Projection)
    returns (a: Assessment)
    requires p in EffectiveProjections(assessments, relations)
    ensures a in assessments && KeyOf(a) == p.key && p.category == a.category && p.scope == a.scope
  {
    EffectiveMembers(assessments, relations, p);
    a := InGroup(assessments, p.key)[0];
    InGroupMembers(assessments, p.key);
    assert a in InGroup(assessments, p.key);
    ProjectionDescribesItsGroup(assessments, relations, a);
  }

  /** A group in which everyone found nothing concludes that nothing was found. */
  lemma UnanimousGroup(assessments: seq<Assessment>, relations: seq<Relation>, key: string)
    requires InGroup(assessments, key) != []
    requires forall a :: a in InGroup(assessments, key) ==> a.verdict.NoObservedFinding?
    ensures ProjectionOf(assessments, relations, key).conclusion == Concluded(NoObservedFinding)
  {
    hide InGroup, ResolveConclusion, StableSort, Effective, Accepted, ById;
    var items := InGroup(assessments, key);
    SortIsPermutation(AssessmentLe, items);
    var ordered := StableSort(AssessmentLe, items);
    assert ordered != [] by { assert |multiset(ordered)| == |multiset(items)|; }
    forall a | a in ordered
      ensures a.verdict.NoObservedFinding?
    {
      assert a in multiset(items);
    }
    UnanimousActive(ordered, Targets(Accepted(ById(assessments), StableSort(RelationLe, relations))));
  }

  lemma UnanimousActive(ordered: seq<Assessment>, superseded: set<string>)
    requires ordered != [] && forall a :: a in ordered ==> a.verdict.NoObservedFinding?
    ensures ResolveConclusion(Effective(ordered, superseded)).0 == Concluded(NoObservedFinding)
  {
    hide ResolveConclusion, Without;
    var active := Effective(ordered, superseded);
    WithoutMembers(ordered, superseded);
    assert active[0] in active && forall a :: a in active ==> a in ordered;
    ConflictMeaning(active);
    ConclusionMeaning(active);
  }
}
