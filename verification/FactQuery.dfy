/**
  Snapshot queries over facts. A query is answered page by page while facts keep being appended; its
  cursor either carries the last fact sequence number or the sequence numbers still to come.
*/
module FactQuery {
  import opened Wrappers
  import opened Ordering
  import opened Selection
  import opened TextOrder

  datatype Fact = Fact(
    factSeq: nat,
    factId: string,
    taskId: string,
    epochId: string,
    namespace: string,
    sourceRunId: string,
    subjectRef: string,
    sourceKind: string,
    completeness: string,
    columns: map<string, string>,
    payload: string)

  datatype OrderKey = BySeq(descending: bool) | ByColumn(field: string, descending: bool)

  datatype View = Facts | OtherView

  datatype Query = Query(
    view: View,
    namespace: Option<string>,
    predicate_: Option<string>,
    sourceRunId: Option<string>,
    subjectRef: Option<string>,
    sourceKind: Option<string>,
    completeness: Option<string>,
    filtersOtherViews: bool,
    select: seq<string>,
    orderBy: Option<seq<OrderKey>>,
    limit: int)

  datatype Position = AfterSeq(last: nat) | Remaining(seqs: seq<nat>)

  datatype FactCursor = FactCursor(taskId: string, epochId: string, astDigest: string, snapshotMax: nat,
                                   position: Position)

  /** A page holds the selected facts, what it shows of each, the snapshot, and the cursor to what is left. */
  datatype QueryPage = QueryPage(selected: seq<Fact>, rows: seq<map<string, string>>, snapshotMax: nat,
                                 next: Option<FactCursor>)

  datatype QueryError = InvalidArgument | ForeignCursor

  /**
    What a query evaluation takes from elsewhere: the value of a predicate and whether it is well
    formed, the fields a query over facts may name, the text of a field, and the digest of a query.
  */
  datatype Evaluator = Evaluator(
    evaluate: (string, string) -> bool,
    wellFormed: (string, Option<string>) -> bool,
    fields: set<string>,
    project: (Fact, string) -> string,
    digest: Query -> string)

  predicate Names(evaluator: Evaluator, key: OrderKey) {
    key.ByColumn? ==> key.field in evaluator.fields
  }

  predicate ValidQuery(evaluator: Evaluator, query: Query) {
    && query.view.Facts?
    && 1 <= query.limit <= 500
    && 1 <= |query.select| <= 32 && (forall field :: field in query.select ==> field in evaluator.fields)
    && (query.orderBy.Some? ==> |query.orderBy.value| <= 3 && forall key ::
        key in query.orderBy.value ==> Names(evaluator, key))
    && (Given(query.predicate_) ==> Given(query.namespace))
    && (Given(query.namespace) ==> evaluator.wellFormed(query.namespace.value, query.predicate_))
    && !query.filtersOtherViews
  }

  /** An absent or empty filter is no filter. */
  predicate Given(filter: Option<string>) {
    filter.Some? && filter.value != ""
  }

  predicate Passes(filter: Option<string>, value: string) {
    Given(filter) ==> value == filter.value
  }

  // ---- Order ----

  function ColumnText(fact: Fact, field: string): string {
    if field in fact.columns then fact.columns[field] else "undefined"
  }

  function CompareText(a: string, b: string): int {
    if a == b then 0 else if TextLe(a, b) then -1 else 1
  }

  function CompareBy(key: OrderKey, left: Fact, right: Fact): int {
    var value := match key
      case BySeq(_) => left.factSeq - right.factSeq
      case ByColumn(field, _) => CompareText(ColumnText(left, field), ColumnText(right, field));
    if key.descending then -value else value
  }

  function Compare(order: seq<OrderKey>, left: Fact, right: Fact): int {
    if order == [] then left.factSeq - right.factSeq
    else
      var value := CompareBy(order[0], left, right);
      if value != 0 then value else Compare(order[1..], left, right)
  }

  function FactOrder(order: seq<OrderKey>): (Fact, Fact) -> bool {
    (left, right) => Compare(order, left, right) <= 0
  }

  lemma {:induction false} CompareIsAnOrder(order: seq<OrderKey>, a: Fact, b: Fact, c: Fact)
    ensures Compare(order, a, b) <= 0 <==> Compare(order, b, a) >= 0
    ensures Compare(order, a, b) == 0 ==> a.factSeq == b.factSeq
    ensures Compare(order, a, b) <= 0 && Compare(order, b, c) <= 0 ==> Compare(order, a, c) <= 0
    ensures Compare(order, a, b) <= 0 && Compare(order, b, c) <= 0 && Compare(order, a, c) == 0 ==>
      Compare(order, a, b) == 0 && Compare(order, b, c) == 0
  {
    if order != [] {
      TextLeIsTotalOrder();
      CompareIsAnOrder(order[1..], a, b, c);
    }
  }

  lemma FactOrderIsTotal(order: seq<OrderKey>)
    ensures TotalPreorder(FactOrder(order))
    ensures forall a, b :: FactOrder(order)(a, b) && FactOrder(order)(b, a) ==> a.factSeq == b.factSeq
  {
    forall a: Fact, b: Fact, c: Fact
      ensures FactOrder(order)(a, b) || FactOrder(order)(b, a)
      ensures FactOrder(order)(a, b) && FactOrder(order)(b, c) ==> FactOrder(order)(a, c)
      ensures FactOrder(order)(a, b) && FactOrder(order)(b, a) ==> a.factSeq == b.factSeq
    {
      CompareIsAnOrder(order, a, b, c);
      CompareIsAnOrder(order, b, a, c);
    }
  }

  // ---- One page ----

  predicate Selected(evaluator: Evaluator, taskId: string, epochId: string, query: Query, snapshotMax: nat,
                     fact: Fact) {
    && fact.taskId == taskId && fact.epochId == epochId && fact.factSeq <= snapshotMax
    && Passes(query.namespace, fact.namespace)
    && Passes(query.sourceRunId, fact.sourceRunId)
    && Passes(query.subjectRef, fact.subjectRef)
    && Passes(query.sourceKind, fact.sourceKind)
    && Passes(query.completeness, fact.completeness)
    && (Given(query.predicate_) ==> evaluator.evaluate(query.predicate_.value, fact.payload))
  }

  function Selects(evaluator: Evaluator, taskId: string, epochId: string, query: Query,
                   snapshotMax: nat): Fact -> bool {
    fact => Selected(evaluator, taskId, epochId, query, snapshotMax, fact)
  }

  function OrderOf(query: Query): seq<OrderKey> {
    if query.orderBy.Some? then query.orderBy.value else [BySeq(false)]
  }

  predicate IsDefaultOrder(query: Query) {
    OrderOf(query) == [BySeq(false)]
  }

  /** The whole answer of a query at a snapshot. */
  function Answer(evaluator: Evaluator, taskId: string, epochId: string, query: Query, snapshotMax: nat,
                  facts: seq<Fact>): seq<Fact> {
    StableSort(FactOrder(OrderOf(query)), Keep(Selects(evaluator, taskId, epochId, query, snapshotMax), facts))
  }

  function After(last: nat): Fact -> bool {
    (fact: Fact) => fact.factSeq > last
  }

  function BySequence(facts: seq<Fact>): map<nat, Fact> {
    if facts == [] then map[]
    else BySequence(facts[..|facts| - 1])[facts[|facts| - 1].factSeq := facts[|facts| - 1]]
  }

  function PickUp(bySeq: map<nat, Fact>, seqs: seq<nat>): seq<Fact> {
    if seqs == [] then []
    else (if seqs[0] in bySeq then [bySeq[seqs[0]]] else []) + PickUp(bySeq, seqs[1..])
  }

  function SeqsOf(facts: seq<Fact>): seq<nat> {
    seq(|facts|, i requires 0 <= i < |facts| => facts[i].factSeq)
  }

  /** What is left to return when a page starts. */
  function Candidates(evaluator: Evaluator, taskId: string, epochId: string, query: Query, snapshotMax: nat,
                      facts: seq<Fact>, position: Option<Position>): seq<Fact> {
    var kept := Keep(Selects(evaluator, taskId, epochId, query, snapshotMax), facts);
    match position
    case None => StableSort(FactOrder(OrderOf(query)), kept)
    case Some(AfterSeq(last)) => StableSort(FactOrder(OrderOf(query)), Keep(After(last), kept))
    case Some(Remaining(seqs)) => PickUp(BySequence(kept), seqs)
  }

  /** What a page shows of a fact: the fields the query selects, and nothing else. */
  function ShownOf(evaluator: Evaluator, select: seq<string>, fact: Fact): map<string, string> {
    map field | field in select :: evaluator.project(fact, field)
  }

  function Shown(evaluator: Evaluator, select: seq<string>, facts: seq<Fact>): seq<map<string, string>> {
    seq(|facts|, i requires 0 <= i < |facts| => ShownOf(evaluator, select, facts[i]))
  }

  function AstDigest(evaluator: Evaluator, query: Query): string {
    evaluator.digest(query.(limit := 0))
  }

  function PageOf(evaluator: Evaluator, taskId: string, epochId: string, query: Query, snapshotMax: nat,
                  candidates: seq<Fact>): QueryPage
    requires ValidQuery(evaluator, query)
  {
    var count := if query.limit <= |candidates| then query.limit else |candidates|;
    var selected := candidates[..count];
    var rows := Shown(evaluator, query.select, selected);
    if |candidates| > count && selected != [] then
      var position := if IsDefaultOrder(query) then AfterSeq(selected[count - 1].factSeq)
        else Remaining(SeqsOf(candidates[count..]));
      QueryPage(selected, rows, snapshotMax,
                Some(FactCursor(taskId, epochId, AstDigest(evaluator, query), snapshotMax, position)))
    else QueryPage(selected, rows, snapshotMax, None)
  }

  /** The meaning of one call. */
  function QueryResult(evaluator: Evaluator, taskId: string, epochId: string, query: Query, facts: seq<Fact>,
                       snapshotMax: nat, cursor: Option<FactCursor>)
    : Result<QueryPage, QueryError>
  {
    if !ValidQuery(evaluator, query) then Err(InvalidArgument)
    else if cursor.Some? && (cursor.value.taskId != taskId || cursor.value.epochId != epochId
                             || cursor.value.astDigest != AstDigest(evaluator, query))
    then Err(ForeignCursor)
    else
      var position := if cursor.Some? then Some(cursor.value.position) else None;
      Ok(PageOf(evaluator, taskId, epochId, query, snapshotMax,
                Candidates(evaluator, taskId, epochId, query, snapshotMax, facts, position)))
  }

  // ---- The algorithm ----

  /** The facts that pass the first `n` of the seven filters. */
  predicate Staged(evaluator: Evaluator, taskId: string, epochId: string, query: Query, snapshotMax: nat, n: nat,
                   fact: Fact) {
    && fact.taskId == taskId && fact.epochId == epochId && fact.factSeq <= snapshotMax
    && (n >= 1 ==> Passes(query.namespace, fact.namespace))
    && (n >= 2 ==> Passes(query.sourceRunId, fact.sourceRunId))
    && (n >= 3 ==> Passes(query.subjectRef, fact.subjectRef))
    && (n >= 4 ==> Passes(query.sourceKind, fact.sourceKind))
    && (n >= 5 ==> Passes(query.completeness, fact.completeness))
    && (n >= 6 && Given(query.predicate_) ==> evaluator.evaluate(query.predicate_.value, fact.payload))
  }

  ghost function Stage(evaluator: Evaluator, taskId: string, epochId: string, query: Query, snapshotMax: nat,
                       n: nat): Fact -> bool {
    fact => Staged(evaluator, taskId, epochId, query, snapshotMax, n, fact)
  }

  /** Applies one optional filter. */
  method Narrow(candidates: seq<Fact>, given: bool, wanted: Fact -> bool, ghost before: Fact -> bool,
                ghost after: Fact -> bool, ghost facts: seq<Fact>)
    returns (narrowed: seq<Fact>)
    requires candidates == Keep(before, facts)
    requires forall f :: after(f) <==> before(f) && (given ==> wanted(f))
    ensures narrowed == Keep(after, facts)
  {
    narrowed := candidates;
    if given {
      narrowed := Keep(wanted, narrowed);
      KeepTwice(before, wanted, after, facts);
    } else {
      KeepSame(before, after, facts);
    }
  }

  /** The filters, one after the other. */
  method FilterFacts(evaluator: Evaluator, taskId: string, epochId: string, query: Query, facts: seq<Fact>,
                     snapshotMax: nat)
    returns (candidates: seq<Fact>)
    ensures candidates == Keep(Selects(evaluator, taskId, epochId, query, snapshotMax), facts)
  {
    hide Keep;
    ghost var stage := (n: nat) => Stage(evaluator, taskId, epochId, query, snapshotMax, n);
    var inScope := (f: Fact) => f.taskId == taskId && f.epochId == epochId && f.factSeq <= snapshotMax;
    candidates := Keep(inScope, facts);
    KeepSame(inScope, stage(0), facts);
    candidates := Narrow(candidates, Given(query.namespace), (f: Fact) => Passes(query.namespace, f.namespace),
                         stage(0), stage(1), facts);
    candidates := Narrow(candidates, Given(query.sourceRunId), (f: Fact) => Passes(query.sourceRunId, f.sourceRunId),
                         stage(1), stage(2), facts);
    candidates := Narrow(candidates, Given(query.subjectRef), (f: Fact) => Passes(query.subjectRef, f.subjectRef),
                         stage(2), stage(3), facts);
    candidates := Narrow(candidates, Given(query.sourceKind), (f: Fact) => Passes(query.sourceKind, f.sourceKind),
                         stage(3), stage(4), facts);
    candidates := Narrow(candidates, Given(query.completeness), (f: Fact) => Passes(query.completeness, f.completeness),
                         stage(4), stage(5), facts);
    candidates := Narrow(candidates, Given(query.predicate_),
                         (f: Fact) => Given(query.predicate_) ==> evaluator.evaluate(query.predicate_.value, f.payload),
                           stage(5), stage(6), facts);
    KeepSame(stage(6), Selects(evaluator, taskId, epochId, query, snapshotMax), facts);
  }

  method RunFactQuery(evaluator: Evaluator, taskId: string, epochId: string, query: Query, facts: seq<Fact>,
                      snapshotMax: nat, cursor: Option<FactCursor>)
    returns (result: Result<QueryPage, QueryError>)
    ensures result == QueryResult(evaluator, taskId, epochId, query, facts, snapshotMax, cursor)
  {
    hide Keep, StableSort, PickUp, BySequence, PageOf;
    if !ValidQuery(evaluator, query) {
      return Err(InvalidArgument);
    }
    if cursor.Some?
       && (cursor.value.taskId != taskId || cursor.value.epochId != epochId
           || cursor.value.astDigest != AstDigest(evaluator, query)) {
      return Err(ForeignCursor);
    }
    var candidates := FilterFacts(evaluator, taskId, epochId, query, facts, snapshotMax);
    if cursor.Some? && cursor.value.position.Remaining? {
      candidates := PickUp(BySequence(candidates), cursor.value.position.seqs);
    } else {
      if cursor.Some? {
        candidates := Keep(After(cursor.value.position.last), candidates);
      }
      candidates := StableSort(FactOrder(OrderOf(query)), candidates);
    }
    return Ok(PageOf(evaluator, taskId, epochId, query, snapshotMax, candidates));
  }
}
