/**
  The effective projection of a conclusion ledger: the imperative algorithm, proved against the
  meaning in `Ledger.dfy`, and the theorems the rest of the system relies on.
*/
module ProjectionAlgorithm {
  import opened Wrappers
  import opened Ordering
  import opened TextOrder
  import opened Graph
  import opened Ledger

  /** Records a refused relation under the groups of its known endpoints. */
  method IgnoreRelation(byId: map<string, Assessment>, relation: Relation, ignoredByKey: map<string, seq<string>>)
    returns (updated: map<string, seq<string>>)
    ensures forall k ::
      Lookup(updated, k)
      == if Touches(byId, relation, k) then AddOnce(Lookup(ignoredByKey, k), relation.id) else Lookup(ignoredByKey, k)
  {
    updated := ignoredByKey;
    if relation.from in byId {
      var key := KeyOf(byId[relation.from]);
      updated := updated[key := AddOnce(Lookup(updated, key), relation.id)];
    }
    if relation.to in byId {
      var key := KeyOf(byId[relation.to]);
      updated := updated[key := AddOnce(Lookup(updated, key), relation.id)];
    }
  }

  ghost predicate IgnoredMatches(byId: map<string, Assessment>, relations: seq<Relation>,
                                 ignoredByKey: map<string, seq<string>>) {
    forall k :: Lookup(ignoredByKey, k) == RefusedIds(byId, relations, k)
  }

  /** One more relation, seen from the meaning. */
  lemma LedgerStep(byId: map<string, Assessment>, sorted: seq<Relation>, i: nat)
    requires i < |sorted|
    ensures var r, edges := sorted[i], Accepted(byId, sorted[..i]);
      Accepted(byId, sorted[..i + 1]) == if IsReplacing(r) && Admits(byId, edges, r) then edges + {(r.from, r.to)}
        else edges
    ensures var r, edges := sorted[i], Accepted(byId, sorted[..i]);
      forall k :: RefusedIds(byId, sorted[..i + 1], k) ==
        if IsReplacing(r) && !Admits(byId, edges, r) && Touches(byId, r, k)
        then AddOnce(RefusedIds(byId, sorted[..i], k), r.id) else RefusedIds(byId, sorted[..i], k)
  {
    assert sorted[..i + 1][..i] == sorted[..i];
  }

  /** Every edge of the table is an edge of the graph it stands for, before and after an insertion. */
  lemma EdgesAfterInsert(replacements: map<string, seq<string>>, from: string, to: string)
    ensures var targets := Lookup(replacements, from);
      EdgesOf(replacements[from := AddOnce(targets, to)]) == EdgesOf(replacements) + {(from, to)}
  {
    var targets := Lookup(replacements, from);
    var updated := replacements[from := AddOnce(targets, to)];
    forall e | e in EdgesOf(replacements) + {(from, to)}
      ensures e in EdgesOf(updated)
    {
      if e == (from, to) {
        var i :| 0 <= i < |updated[from]| && updated[from][i] == to;
        assert (from, updated[from][i]) in EdgesOf(updated);
      } else {
        var a, i :| a in replacements && 0 <= i < |replacements[a]| && e == (a, replacements[a][i]);
        assert 0 <= i < |updated[a]| && updated[a][i] == replacements[a][i];
      }
    }
    forall e | e in EdgesOf(updated)
      ensures e in EdgesOf(replacements) + {(from, to)}
    {
      var a, i :| a in updated && 0 <= i < |updated[a]| && e == (a, updated[a][i]);
      if a == from && !(i < |targets|) {
        assert e == (from, to);
      } else {
        assert a in replacements && 0 <= i < |replacements[a]| && e == (a, replacements[a][i]);
      }
    }
  }

  /** Builds the replacement graph one relation at a time, in time order. */
  method BuildReplacements(byId: map<string, Assessment>, sorted: seq<Relation>)
    returns (superseded: set<string>, ignoredByKey: map<string, seq<string>>)
    requires forall id :: id in byId ==> byId[id].id == id
    ensures superseded == Targets(Accepted(byId, sorted))
    ensures IgnoredMatches(byId, sorted, ignoredByKey)
  {
    superseded := {};
    ignoredByKey := map[];
    var replacements: map<string, seq<string>> := map[];
    for i := 0 to |sorted|
      invariant EdgesOf(replacements) == Accepted(byId, sorted[..i])
      invariant superseded == Targets(Accepted(byId, sorted[..i]))
      invariant IgnoredMatches(byId, sorted[..i], ignoredByKey)
    {
      var relation := sorted[i];
      LedgerStep(byId, sorted, i);
      if IsReplacing(relation) {
        var refused := !PassesChecks(byId, relation);
        if !refused {
          refused := ReachesByWorklist(replacements, relation.to, relation.from);
        }
        if refused {
          ignoredByKey := IgnoreRelation(byId, relation, ignoredByKey);
        } else {
          EdgesAfterInsert(replacements, relation.from, relation.to);
          TargetsAfterInsert(EdgesOf(replacements), relation.from, relation.to);
          replacements := replacements[relation.from := AddOnce(Lookup(replacements, relation.from), relation.to)];
          superseded := superseded + {relation.to};
        }
      }
    }
    assert sorted[..|sorted|] == sorted;
  }

  lemma TargetsAfterInsert(edges: Edges<string>, from: string, to: string)
    ensures Targets(edges + {(from, to)}) == Targets(edges) + {to}
  {
    assert (from, to).1 == to;
    forall t | t in Targets(edges) + {to}
      ensures t in Targets(edges + {(from, to)})
    {
      if t != to {
        var e :| e in edges && e.1 == t;
        assert e in edges + {(from, to)};
      } else {
        assert (from, to) in edges + {(from, to)};
      }
    }
  }

  lemma {:induction false} ByIdIsKeyedById(assessments: seq<Assessment>)
    ensures forall id :: id in ById(assessments) ==>
      ById(assessments)[id].id == id && ById(assessments)[id] in assessments
    ensures forall a :: a in assessments ==> a.id in ById(assessments)
  {
    if assessments != [] {
      var front := assessments[..|assessments| - 1];
      ByIdIsKeyedById(front);
      assert assessments == front + [assessments[|assessments| - 1]];
    }
  }

  /** The keys in order of first appearance, and for each its assessments in order of arrival. */
  ghost predicate Grouped(assessments: seq<Assessment>, keys: seq<string>, groups: map<string, seq<Assessment>>) {
    && keys == GroupKeys(assessments)
    && (forall k :: k in keys <==> k in groups)
    && (forall k :: k in groups ==> groups[k] == InGroup(assessments, k))
    && (forall k :: k !in groups ==> InGroup(assessments, k) == [])
  }

  lemma NothingGrouped()
    ensures Grouped([], [], map[])
  {
  }

  lemma OneMoreInGroup(front: seq<Assessment>, last: Assessment, key: string)
    ensures InGroup(front + [last], key) == InGroup(front, key) + (if KeyOf(last) == key then [last] else [])
    ensures GroupKeys(front + [last]) == AddOnce(GroupKeys(front), KeyOf(last))
  {
    hide KeyOf, AddOnce;
    assert (front + [last])[..|front|] == front;
  }

  lemma OneMoreGrouped(front: seq<Assessment>, last: Assessment, keys: seq<string>,
                       groups: map<string, seq<Assessment>>)
    requires Grouped(front, keys, groups)
    ensures var key := KeyOf(last);
      var items := if key in groups then groups[key] else [];
      Grouped(front + [last], AddOnce(keys, key), groups[key := items + [last]])
  {
    hide KeyOf, InGroup, GroupKeys;
    var key := KeyOf(last);
    forall k
      ensures InGroup(front + [last], k) == InGroup(front, k) + (if key == k then [last] else [])
    {
      OneMoreInGroup(front, last, k);
    }
    OneMoreInGroup(front, last, key);
  }

  method GroupByKey(assessments: seq<Assessment>) returns (keys: seq<string>, groups: map<string, seq<Assessment>>)
    ensures keys == GroupKeys(assessments)
    ensures forall k :: k in keys ==> k in groups && groups[k] == InGroup(assessments, k)
  {
    hide KeyOf, AddOnce, InGroup, GroupKeys;
    keys := [];
    groups := map[];
    NothingGrouped();
    assert assessments[..0] == [];
    for i := 0 to |assessments|
      invariant Grouped(assessments[..i], keys, groups)
    {
      OneMoreGrouped(assessments[..i], assessments[i], keys, groups);
      assert assessments[..i + 1] == assessments[..i] + [assessments[i]];
      var key := KeyOf(assessments[i]);
      var items := if key in groups then groups[key] else [];
      groups := groups[key := items + [assessments[i]]];
      keys := AddOnce(keys, key);
    }
    assert assessments[..|assessments|] == assessments;
  }

  /** What the finished tables say about one group is that group's projection. */
  lemma TablesGiveProjection(assessments: seq<Assessment>, relations: seq<Relation>, key: string,
                             superseded: set<string>, refused: seq<string>)
    requires InGroup(assessments, key) != []
    requires superseded == Targets(Accepted(ById(assessments), StableSort(RelationLe, relations)))
    requires refused == RefusedIds(ById(assessments), StableSort(RelationLe, relations), key)
    ensures ProjectGroup(key, InGroup(assessments, key), superseded, refused)
      == ProjectionOf(assessments, relations, key)
  {
  }

  method ProjectGroups(keys: seq<string>, groups: map<string, seq<Assessment>>, superseded: set<string>,
                       ignoredByKey: map<string, seq<string>>)
    returns (projections: seq<Projection>)
    requires forall k :: k in keys ==> k in groups && groups[k] != []
    ensures |projections| == |keys|
    ensures forall i :: 0 <= i < |keys| ==>
      projections[i] == ProjectGroup(keys[i], groups[keys[i]], superseded, Lookup(ignoredByKey, keys[i]))
  {
    projections := [];
    for i := 0 to |keys|
      invariant |projections| == i
      invariant forall j :: 0 <= j < i ==>
        projections[j] == ProjectGroup(keys[j], groups[keys[j]], superseded, Lookup(ignoredByKey, keys[j]))
    {
      var projection := ProjectGroup(keys[i], groups[keys[i]], superseded, Lookup(ignoredByKey, keys[i]));
      projections := projections + [projection];
    }
  }

  method ProjectEffectiveAssessments(assessments: seq<Assessment>, relations: seq<Relation>)
    returns (projections: seq<Projection>)
    ensures projections == EffectiveProjections(assessments, relations)
  {
    var byId := ById(assessments);
    ByIdIsKeyedById(assessments);
    var sorted := StableSort(RelationLe, relations);
    var superseded, ignoredByKey := BuildReplacements(byId, sorted);
    var keys, groups := GroupByKey(assessments);
    GroupsAreInhabited(assessments);
    projections := ProjectGroups(keys, groups, superseded, ignoredByKey);
    assert projections == ProjectKeys(assessments, relations, keys) by {
      forall i | 0 <= i < |keys|
        ensures projections[i] == ProjectionOf(assessments, relations, keys[i])
      {
        TablesGiveProjection(assessments, relations, keys[i], superseded, Lookup(ignoredByKey, keys[i]));
      }
    }
    projections := StableSort(ProjectionLe, projections);
  }
}
