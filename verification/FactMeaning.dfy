/** What an answer contains and in which order, read off the facts and the query. */
module FactMeaning {
  import opened Wrappers
  import opened Ordering
  import opened Selection
  import opened TextOrder
  import opened FactQuery
  import opened FactSnapshot

  // ---- Which facts ----

  /** A filter that is absent or empty lets everything through, and any other only what equals it. */
  predicate LetsThrough(filter: Option<string>, value: string) {
    filter in {None, Some(""), Some(value)}
  }

  /** The fact was there for this task and epoch at the snapshot, and every filter and the predicate let it through. */
  predicate IsAskedFor(evaluator: Evaluator, taskId: string, epochId: string, query: Query, snapshotMax: nat, f: Fact) {
    && f.taskId == taskId && f.epochId == epochId && f.factSeq <= snapshotMax
    && LetsThrough(query.namespace, f.namespace)
    && LetsThrough(query.sourceRunId, f.sourceRunId)
    && LetsThrough(query.subjectRef, f.subjectRef)
    && LetsThrough(query.sourceKind, f.sourceKind)
    && LetsThrough(query.completeness, f.completeness)
    && (query.predicate_ in {None, Some("")} || evaluator.evaluate(query.predicate_.value, f.payload))
  }

  lemma PassesMeans(filter: Option<string>, value: string)
    ensures Passes(filter, value) <==> LetsThrough(filter, value)
  {
  }

  lemma SelectedMeans(evaluator: Evaluator, taskId: string, epochId: string, query: Query, snapshotMax: nat, f: Fact)
    ensures Selected(evaluator, taskId, epochId, query, snapshotMax, f)
       <==> IsAskedFor(evaluator, taskId, epochId, query, snapshotMax, f)
  {
    PassesMeans(query.namespace, f.namespace);
    PassesMeans(query.sourceRunId, f.sourceRunId);
    PassesMeans(query.subjectRef, f.subjectRef);
    PassesMeans(query.sourceKind, f.sourceKind);
    PassesMeans(query.completeness, f.completeness);
    hide Passes, LetsThrough;
  }

  /** A fact is in the answer as often as it was given if it is asked for, and otherwise not at all. */
  lemma AnswerContains(evaluator: Evaluator, taskId: string, epochId: string, query: Query, snapshotMax: nat,
                       facts: seq<Fact>, f: Fact)
    ensures multiset(Answer(evaluator, taskId, epochId, query, snapshotMax, facts))[f]
         == if IsAskedFor(evaluator, taskId, epochId, query, snapshotMax, f) then multiset(facts)[f] else 0
  {
    hide Keep, StableSort, Selected, IsAskedFor;
    var selects := Selects(evaluator, taskId, epochId, query, snapshotMax);
    SelectedMeans(evaluator, taskId, epochId, query, snapshotMax, f);
    KeepCounts(selects, facts, f);
    SortIsPermutation(FactOrder(OrderOf(query)), Keep(selects, facts));
  }

  // ---- Which order ----

  /** The text of a column, as it is compared; a missing one reads as JavaScript prints it. */
  function TextOf(f: Fact, field: string): string {
    if field in f.columns then f.columns[field] else "undefined"
  }

  predicate SameBy(key: OrderKey, f: Fact, g: Fact) {
    match key
    case BySeq(_) => f.factSeq == g.factSeq
    case ByColumn(field, _) => TextOf(f, field) == TextOf(g, field)
  }

  predicate SmallerBy(key: OrderKey, f: Fact, g: Fact) {
    match key
    case BySeq(_) => f.factSeq < g.factSeq
    case ByColumn(field, _) => TextOf(f, field) != TextOf(g, field) && TextLe(TextOf(f, field), TextOf(g, field))
  }

  /** The first key by which two facts differ decides, downwards if it is descending. */
  ghost predicate DecidedBy(order: seq<OrderKey>, k: nat, f: Fact, g: Fact) {
    && k < |order| && (forall m :: 0 <= m < k ==> SameBy(order[m], f, g))
    && if order[k].descending then SmallerBy(order[k], g, f) else SmallerBy(order[k], f, g)
  }

  /** `f` may stand before `g`: by the first key that tells them apart, or by sequence number where none does. */
  ghost predicate MayStandBefore(order: seq<OrderKey>, f: Fact, g: Fact) {
    || (exists k: nat :: DecidedBy(order, k, f, g))
    || (f.factSeq <= g.factSeq && forall m :: 0 <= m < |order| ==> SameBy(order[m], f, g))
  }

  lemma CompareByMeans(key: OrderKey, f: Fact, g: Fact)
    ensures CompareBy(key, f, g) == 0 <==> SameBy(key, f, g)
    ensures CompareBy(key, f, g) < 0 <==> if key.descending then SmallerBy(key, g, f) else SmallerBy(key, f, g)
  {
    TextLeIsTotalOrder();
  }

  lemma {:induction false} CompareMeans(order: seq<OrderKey>, f: Fact, g: Fact)
    ensures Compare(order, f, g) <= 0 <==> MayStandBefore(order, f, g)
  {
    hide CompareBy, SameBy, SmallerBy;
    if order != [] {
      CompareByMeans(order[0], f, g);
      CompareMeans(order[1..], f, g);
      if k: nat :| DecidedBy(order, k, f, g) {
        if k > 0 {
          assert order[1..][k - 1] == order[k];
          assert forall m :: 0 <= m < k - 1 ==> order[1..][m] == order[m + 1];
          assert DecidedBy(order[1..], k - 1, f, g);
        }
      }
      if SameBy(order[0], f, g) {
        if k: nat :| DecidedBy(order[1..], k, f, g) {
          assert order[1..][k] == order[k + 1];
          assert forall m :: 1 <= m < k + 1 ==> order[m] == order[1..][m - 1];
          assert DecidedBy(order, k + 1, f, g);
        }
        assert forall m :: 1 <= m < |order| ==> order[m] == order[1..][m - 1];
        assert forall m :: 0 <= m < |order| - 1 ==> order[1..][m] == order[m + 1];
      } else if CompareBy(order[0], f, g) < 0 {
        assert DecidedBy(order, 0, f, g);
      }
    }
  }

  /** Whatever stands earlier in an answer may stand there. */
  lemma AnswerIsInOrder(evaluator: Evaluator, taskId: string, epochId: string, query: Query, snapshotMax: nat,
                        facts: seq<Fact>, i: nat, j: nat)
    requires i < j < |Answer(evaluator, taskId, epochId, query, snapshotMax, facts)|
    ensures var answer := Answer(evaluator, taskId, epochId, query, snapshotMax, facts);
      MayStandBefore(if query.orderBy.Some? then query.orderBy.value else [BySeq(false)], answer[i], answer[j])
  {
    hide Keep, StableSort, Selects, Compare;
    var order := OrderOf(query);
    var answer := Answer(evaluator, taskId, epochId, query, snapshotMax, facts);
    FactOrderIsTotal(order);
    SortIsOrdered(FactOrder(order), Keep(Selects(evaluator, taskId, epochId, query, snapshotMax), facts));
    assert FactOrder(order)(answer[i], answer[j]);
    CompareMeans(order, answer[i], answer[j]);
  }

  // ---- Which queries ----

  ghost predicate NamesAnUnknownField(evaluator: Evaluator, keys: seq<OrderKey>) {
    exists field, descending :: ByColumn(field, descending) in keys && field !in evaluator.fields
  }

  lemma OrderNamesMean(evaluator: Evaluator, keys: seq<OrderKey>)
    ensures (forall key :: key in keys ==> Names(evaluator, key)) <==> !NamesAnUnknownField(evaluator, keys)
  {
    if key :| key in keys && !Names(evaluator, key) {
      assert ByColumn(key.field, key.descending) in keys && key.field !in evaluator.fields;
    }
    if field, descending :| ByColumn(field, descending) in keys && field !in evaluator.fields {
      assert !Names(evaluator, ByColumn(field, descending));
    }
  }

  /** What makes a query over facts inadmissible. */
  ghost predicate IsInadmissible(evaluator: Evaluator, query: Query) {
    || query.view != Facts || query.filtersOtherViews
    || query.limit < 1 || query.limit > 500
    || query.select == [] || |query.select| > 32 || (exists field ::
                                                     field in query.select && field !in evaluator.fields)
    || (query.orderBy.Some?
        && (|query.orderBy.value| > 3 || NamesAnUnknownField(evaluator, query.orderBy.value)))
    || (query.predicate_ !in {None, Some("")} && query.namespace in {None, Some("")})
    || (query.namespace !in {None, Some("")} && !evaluator.wellFormed(query.namespace.value, query.predicate_))
  }

  lemma GivenMeans(filter: Option<string>)
    ensures Given(filter) <==> filter !in {None, Some("")}
  {
  }

  lemma ValidMeans(evaluator: Evaluator, query: Query)
    ensures ValidQuery(evaluator, query) <==> !IsInadmissible(evaluator, query)
  {
    if query.orderBy.Some? {
      OrderNamesMean(evaluator, query.orderBy.value);
    }
    GivenMeans(query.predicate_);
    GivenMeans(query.namespace);
    hide Names, NamesAnUnknownField, Given;
  }

  /** When a query is refused: if it is inadmissible, or if its cursor belongs to another task, epoch or query. */
  lemma RefusedIff(evaluator: Evaluator, taskId: string, epochId: string, query: Query, facts: seq<Fact>,
                   snapshotMax: nat, cursor: Option<FactCursor>)
    ensures var result := QueryResult(evaluator, taskId, epochId, query, facts, snapshotMax, cursor);
      && (result == Err(InvalidArgument) <==> IsInadmissible(evaluator, query))
      && (result == Err(ForeignCursor) <==>
            && !IsInadmissible(evaluator, query) && cursor.Some?
            && (cursor.value.taskId != taskId || cursor.value.epochId != epochId
                || cursor.value.astDigest != evaluator.digest(query.(limit := 0))))
  {
    ValidMeans(evaluator, query);
    hide ValidQuery, IsInadmissible, PageOf, Candidates;
  }

  /** Each row shows exactly the selected fields of its fact, and only the last page is not full. */
  lemma RowsShowTheSelectedFields(evaluator: Evaluator, taskId: string, epochId: string, query: Query, snapshotMax: nat,
                                  facts: seq<Fact>, cursor: Option<FactCursor>, page: QueryPage)
    requires QueryResult(evaluator, taskId, epochId, query, facts, snapshotMax, cursor) == Ok(page)
    ensures |page.rows| == |page.selected| <= query.limit && page.snapshotMax == snapshotMax
    ensures page.next.Some? ==> |page.selected| == query.limit
    ensures forall i, field :: 0 <= i < |page.rows| ==>
      && (field in page.rows[i] <==> field in query.select)
      && (field in query.select ==> page.rows[i][field] == evaluator.project(page.selected[i], field))
  {
    hide Candidates;
  }
}
