/** Query pages are exact for the snapshot of the first page, whatever is appended between them. */
module FactSnapshot {
  import opened Wrappers
  import opened Ordering
  import opened FactQuery
  import opened Selection

  /** A sequence number names one fact. */
  ghost predicate DistinctSeqs(facts: seq<Fact>) {
    forall i, j :: 0 <= i < j < |facts| ==> facts[i].factSeq != facts[j].factSeq
  }

  lemma KeepPermutes(wanted: Fact -> bool, facts: seq<Fact>, others: seq<Fact>)
    requires multiset(facts) == multiset(others)
    ensures multiset(Keep(wanted, facts)) == multiset(Keep(wanted, others))
  {
    forall f
      ensures multiset(Keep(wanted, facts))[f] == multiset(Keep(wanted, others))[f]
    {
      KeepCounts(wanted, facts, f);
      KeepCounts(wanted, others, f);
    }
  }

  lemma {:induction false} KeepStaysDistinct(wanted: Fact -> bool, facts: seq<Fact>)
    requires DistinctSeqs(facts)
    ensures DistinctSeqs(Keep(wanted, facts))
  {
    if facts != [] {
      var kept := Keep(wanted, facts[1..]);
      KeepStaysDistinct(wanted, facts[1..]);
      KeepMembers(wanted, facts[1..]);
      assert forall i :: 0 <= i < |kept| ==> kept[i] in facts[1..];
    }
  }

  lemma DistinctMeansIdentified(facts: seq<Fact>)
    requires DistinctSeqs(facts)
    ensures forall f, g :: f in facts && g in facts && f.factSeq == g.factSeq ==> f == g
    ensures forall f :: multiset(facts)[f] <= 1
  {
    forall f
      ensures multiset(facts)[f] <= 1
    {
      DistinctCounts(facts, f);
    }
  }

  lemma {:induction false} DistinctCounts(facts: seq<Fact>, f: Fact)
    requires DistinctSeqs(facts)
    ensures multiset(facts)[f] == if f in facts then 1 else 0
  {
    if facts != [] {
      DistinctCounts(facts[1..], f);
      assert facts == [facts[0]] + facts[1..];
    }
  }

  lemma PermutationStaysDistinct(facts: seq<Fact>, others: seq<Fact>)
    requires DistinctSeqs(facts) && multiset(facts) == multiset(others)
    ensures DistinctSeqs(others)
  {
    DistinctMeansIdentified(facts);
    forall i, j | 0 <= i < j < |others|
      ensures others[i].factSeq != others[j].factSeq
    {
      assert others[i] in multiset(others) && others[j] in multiset(others);
      assert others[i] in facts && others[j] in facts;
      if others[i].factSeq == others[j].factSeq {
        TwiceCountsTwo(others, i, j);
      }
    }
  }

  /** The answer is determined by the set of selected facts: it is their one ordered listing. */
  lemma SortIsTheListing(order: seq<OrderKey>, facts: seq<Fact>, listing: seq<Fact>)
    requires DistinctSeqs(facts) && multiset(facts) == multiset(listing) && Ordered(FactOrder(order), listing)
    ensures StableSort(FactOrder(order), facts) == listing
  {
    FactOrderIsTotal(order);
    DistinctMeansIdentified(facts);
    SortIsOrdered(FactOrder(order), facts);
    SortIsPermutation(FactOrder(order), facts);
    OrderedIsUnique(FactOrder(order), StableSort(FactOrder(order), facts), listing);
  }

  // ---- The two ways of going on ----

  lemma DefaultOrderIsBySequence(facts: seq<Fact>)
    requires Ordered(FactOrder([BySeq(false)]), facts) && DistinctSeqs(facts)
    ensures forall i, j :: 0 <= i < j < |facts| ==> facts[i].factSeq < facts[j].factSeq
  {
    forall i, j | 0 <= i < j < |facts|
      ensures facts[i].factSeq < facts[j].factSeq
    {
      assert FactOrder([BySeq(false)])(facts[i], facts[j]);
      assert Compare([BySeq(false)], facts[i], facts[j]) <= 0;
      assert Compare([], facts[i], facts[j]) == facts[i].factSeq - facts[j].factSeq;
    }
  }

  lemma {:induction false} KeepAfterIsSuffix(answer: seq<Fact>, done: nat)
    requires 0 < done <= |answer|
    requires forall i, j :: 0 <= i < j < |answer| ==> answer[i].factSeq < answer[j].factSeq
    ensures Keep(After(answer[done - 1].factSeq), answer) == answer[done..]
  {
    var last := answer[done - 1].factSeq;
    KeepOfBoth(After(last), answer[..done], answer[done..]);
    assert answer == answer[..done] + answer[done..];
    KeepNone(After(last), answer[..done]);
    KeepEvery(After(last), answer[done..]);
  }

  lemma {:induction false} BySequenceFinds(facts: seq<Fact>)
    requires DistinctSeqs(facts)
    ensures forall f :: f in facts ==> f.factSeq in BySequence(facts) && BySequence(facts)[f.factSeq] == f
    ensures forall n :: n in BySequence(facts) ==> BySequence(facts)[n] in facts && BySequence(facts)[n].factSeq == n
  {
    if facts != [] {
      var front := facts[..|facts| - 1];
      BySequenceFinds(front);
      assert facts == front + [facts[|facts| - 1]];
    }
  }

  lemma {:induction false} PickUpFinds(bySeq: map<nat, Fact>, facts: seq<Fact>)
    requires forall f :: f in facts ==> f.factSeq in bySeq && bySeq[f.factSeq] == f
    ensures PickUp(bySeq, SeqsOf(facts)) == facts
  {
    if facts != [] {
      PickUpFinds(bySeq, facts[1..]);
      assert SeqsOf(facts)[1..] == SeqsOf(facts[1..]);
      assert facts[0] in facts;
    }
  }

  // ---- A walk ----

  /** What the controller holds when it asks for a page: the facts then, and the limit of that page. */
  datatype Asked = Asked(facts: seq<Fact>, limit: int)

  /** Whatever was added since the first page carries a higher sequence number. */
  ghost predicate OnlyLaterFactsAdded(first: seq<Fact>, now: seq<Fact>, snapshotMax: nat) {
    exists later: seq<Fact> :: multiset(now) == multiset(first + later) && forall f ::
      f in later ==> f.factSeq > snapshotMax
  }

  /** Page after page along the cursors, with the snapshot of the first page and a limit of its own each. */
  ghost predicate IsQueryWalk(evaluator: Evaluator, taskId: string, epochId: string, query: Query, snapshotMax: nat,
                              cursor: Option<FactCursor>, asked: seq<Asked>, pages: seq<QueryPage>)
    decreases |pages|
  {
    && |asked| == |pages|
    && (pages != [] ==>
          && QueryResult(evaluator, taskId, epochId, query.(limit := asked[0].limit), asked[0].facts, snapshotMax,
                         cursor) == Ok(pages[0])
          && (|pages| > 1 ==> pages[0].next.Some?)
          && IsQueryWalk(evaluator, taskId, epochId, query, snapshotMax, pages[0].next, asked[1..], pages[1..]))
  }

  function SelectedBy(pages: seq<QueryPage>): seq<Fact> {
    if pages == [] then [] else pages[0].selected + SelectedBy(pages[1..])
  }

  function RowsOf(pages: seq<QueryPage>): seq<map<string, string>> {
    if pages == [] then [] else pages[0].rows + RowsOf(pages[1..])
  }

  lemma PageShowsWhatItSelects(evaluator: Evaluator, taskId: string, epochId: string, query: Query, snapshotMax: nat,
                               facts: seq<Fact>, cursor: Option<FactCursor>, page: QueryPage)
    requires QueryResult(evaluator, taskId, epochId, query, facts, snapshotMax, cursor) == Ok(page)
    ensures page.rows == Shown(evaluator, query.select, page.selected)
  {
    hide Candidates, Shown;
  }

  lemma {:induction false} WalkShowsWhatItSelects(evaluator: Evaluator, taskId: string, epochId: string, query: Query,
                                                  snapshotMax: nat, cursor: Option<FactCursor>, asked: seq<Asked>,
                                                  pages: seq<QueryPage>)
    requires IsQueryWalk(evaluator, taskId, epochId, query, snapshotMax, cursor, asked, pages)
    ensures RowsOf(pages) == Shown(evaluator, query.select, SelectedBy(pages))
    decreases |pages|
  {
    hide QueryResult, ShownOf;
    if pages != [] {
      PageShowsWhatItSelects(evaluator, taskId, epochId, query.(limit := asked[0].limit), snapshotMax, asked[0].facts,
                             cursor, pages[0]);
      WalkShowsWhatItSelects(evaluator, taskId, epochId, query, snapshotMax, pages[0].next, asked[1..], pages[1..]);
    }
  }

  /** The cursor stands after the first `done` rows of the answer. */
  ghost predicate StandsAt(evaluator: Evaluator, taskId: string, epochId: string, query: Query, snapshotMax: nat,
                           cursor: Option<FactCursor>, answer: seq<Fact>, done: nat) {
    && done <= |answer|
    && match cursor
       case None => done == 0
       case Some(c) =>
         && 0 < done && c.taskId == taskId && c.epochId == epochId && c.astDigest == AstDigest(evaluator, query)
         && c.position == if IsDefaultOrder(query) then AfterSeq(answer[done - 1].factSeq)
            else Remaining(SeqsOf(answer[done..]))
  }

  /** Facts added later do not change what a query selects. */
  lemma LaterFactsAreNotSelected(evaluator: Evaluator, taskId: string, epochId: string, query: Query, snapshotMax: nat,
                                 first: seq<Fact>, now: seq<Fact>)
    requires OnlyLaterFactsAdded(first, now, snapshotMax)
    ensures multiset(Keep(Selects(evaluator, taskId, epochId, query, snapshotMax), now))
         == multiset(Keep(Selects(evaluator, taskId, epochId, query, snapshotMax), first))
  {
    var selects := Selects(evaluator, taskId, epochId, query, snapshotMax);
    var later: seq<Fact> :| multiset(now) == multiset(first + later) && forall f ::
      f in later ==> f.factSeq > snapshotMax;
    KeepPermutes(selects, now, first + later);
    KeepOfBoth(selects, first, later);
    KeepNone(selects, later);
    assert Keep(selects, first) + [] == Keep(selects, first);
  }

  lemma SortedAnswer(order: seq<OrderKey>, facts: seq<Fact>)
    requires DistinctSeqs(facts)
    ensures var answer := StableSort(FactOrder(order), facts);
      Ordered(FactOrder(order), answer) && multiset(answer) == multiset(facts) && DistinctSeqs(answer)
  {
    FactOrderIsTotal(order);
    SortIsOrdered(FactOrder(order), facts);
    SortIsPermutation(FactOrder(order), facts);
    PermutationStaysDistinct(facts, StableSort(FactOrder(order), facts));
  }

  /** Wherever the cursor stands, what is left to return is the rest of the first page's answer. */
  lemma CandidatesAreTheRest(evaluator: Evaluator, taskId: string, epochId: string, query: Query, snapshotMax: nat,
                             first: seq<Fact>, now: seq<Fact>, cursor: Option<FactCursor>, done: nat)
    requires DistinctSeqs(first) && OnlyLaterFactsAdded(first, now, snapshotMax)
    requires StandsAt(evaluator, taskId, epochId, query, snapshotMax, cursor,
                      Answer(evaluator, taskId, epochId, query, snapshotMax, first), done)
    ensures Candidates(evaluator, taskId, epochId, query, snapshotMax, now, if cursor.Some? then
                       Some(cursor.value.position) else None)
         == Answer(evaluator, taskId, epochId, query, snapshotMax, first)[done..]
  {
    hide Keep, StableSort, PickUp, BySequence, OnlyLaterFactsAdded, Compare, Selected;
    var selects, order := Selects(evaluator, taskId, epochId, query, snapshotMax), OrderOf(query);
    var kept, keptNow := Keep(selects, first), Keep(selects, now);
    var answer := Answer(evaluator, taskId, epochId, query, snapshotMax, first);
    LaterFactsAreNotSelected(evaluator, taskId, epochId, query, snapshotMax, first, now);
    KeepStaysDistinct(selects, first);
    PermutationStaysDistinct(kept, keptNow);
    SortedAnswer(order, kept);
    if cursor.None? {
      SortIsTheListing(order, keptNow, answer);
    } else if IsDefaultOrder(query) {
      GoOnAfterSequence(keptNow, answer, done);
    } else {
      GoOnWithRemaining(keptNow, answer, done);
    }
  }

  lemma GoOnAfterSequence(kept: seq<Fact>, answer: seq<Fact>, done: nat)
    requires DistinctSeqs(kept) && DistinctSeqs(answer) && multiset(kept) == multiset(answer)
    requires Ordered(FactOrder([BySeq(false)]), answer) && 0 < done <= |answer|
    ensures StableSort(FactOrder([BySeq(false)]), Keep(After(answer[done - 1].factSeq), kept)) == answer[done..]
  {
    hide Keep, StableSort, Compare;
    var after := After(answer[done - 1].factSeq);
    DefaultOrderIsBySequence(answer);
    KeepAfterIsSuffix(answer, done);
    KeepPermutes(after, kept, answer);
    KeepStaysDistinct(after, kept);
    SortIsTheListing([BySeq(false)], Keep(after, kept), answer[done..]);
  }

  lemma GoOnWithRemaining(kept: seq<Fact>, answer: seq<Fact>, done: nat)
    requires DistinctSeqs(kept) && multiset(kept) == multiset(answer) && done <= |answer|
    ensures PickUp(BySequence(kept), SeqsOf(answer[done..])) == answer[done..]
  {
    hide PickUp, BySequence;
    BySequenceFinds(kept);
    forall f | f in answer[done..]
      ensures f in kept
    {
      assert f in answer;
      assert f in multiset(answer);
      assert f in multiset(kept);
    }
    PickUpFinds(BySequence(kept), answer[done..]);
  }

  /** One page of a walk: a non-empty stretch of the answer unless nothing is left, and a cursor iff something is. */
  lemma PageAdvances(evaluator: Evaluator, taskId: string, epochId: string, query: Query, snapshotMax: nat,
                     answer: seq<Fact>, done: nat, limit: int)
    requires ValidQuery(evaluator, query.(limit := limit)) && done <= |answer|
    ensures var page := PageOf(evaluator, taskId, epochId, query.(limit := limit), snapshotMax, answer[done..]);
      var next := done + |page.selected|;
      && next <= |answer| && page.selected == answer[done..next] && page.snapshotMax == snapshotMax
      && (page.next.None? <==> next == |answer|)
      && (page.next.Some? ==> next > done && StandsAt(evaluator, taskId, epochId, query, snapshotMax, page.next, answer,
                                                      next)
                              && page.next.value.snapshotMax == snapshotMax)
  {
    var asked := query.(limit := limit);
    var count := if limit <= |answer| - done then limit else |answer| - done;
    assert answer[done..][..count] == answer[done..done + count];
    assert answer[done..][count..] == answer[done + count..];
    assert AstDigest(evaluator, asked) == AstDigest(evaluator, query);
  }

  /** One page of a walk goes on where its cursor stands in the answer. */
  lemma PageFollowsAnswer(evaluator: Evaluator, taskId: string, epochId: string, query: Query, snapshotMax: nat,
                          first: seq<Fact>, cursor: Option<FactCursor>, now: Asked, page: QueryPage, done: nat)
    requires DistinctSeqs(first) && OnlyLaterFactsAdded(first, now.facts, snapshotMax)
    requires QueryResult(evaluator, taskId, epochId, query.(limit := now.limit), now.facts, snapshotMax, cursor)
      == Ok(page)
    requires StandsAt(evaluator, taskId, epochId, query, snapshotMax, cursor,
                      Answer(evaluator, taskId, epochId, query, snapshotMax, first), done)
    ensures var answer, next := Answer(evaluator, taskId, epochId, query, snapshotMax, first), done + |page.selected|;
      && next <= |answer| && page.selected == answer[done..next] && (page.next.None? <==> next == |answer|)
      && (page.next.Some? ==>
            next > done && StandsAt(evaluator, taskId, epochId, query, snapshotMax, page.next, answer, next))
  {
    hide Answer, Candidates, StandsAt, OnlyLaterFactsAdded, PageOf, DistinctSeqs, AstDigest;
    var answer := Answer(evaluator, taskId, epochId, query, snapshotMax, first);
    var position := if cursor.Some? then Some(cursor.value.position) else None;
    StandingIsInside(evaluator, taskId, epochId, query, snapshotMax, cursor, answer, done);
    CandidatesAreTheRest(evaluator, taskId, epochId, query, snapshotMax, first, now.facts, cursor, done);
    LimitDoesNotMatter(evaluator, taskId, epochId, query, snapshotMax, now, position);
    PageAdvances(evaluator, taskId, epochId, query, snapshotMax, answer, done, now.limit);
  }

  lemma {:induction false} WalkFollowsAnswer(evaluator: Evaluator, taskId: string, epochId: string, query: Query,
                                             snapshotMax: nat, first: seq<Fact>, cursor: Option<FactCursor>,
                                             asked: seq<Asked>, pages: seq<QueryPage>, done: nat)
    requires DistinctSeqs(first)
    requires forall i :: 0 <= i < |asked| ==> OnlyLaterFactsAdded(first, asked[i].facts, snapshotMax)
    requires IsQueryWalk(evaluator, taskId, epochId, query, snapshotMax, cursor, asked, pages)
    requires StandsAt(evaluator, taskId, epochId, query, snapshotMax, cursor,
                      Answer(evaluator, taskId, epochId, query, snapshotMax, first), done)
    ensures var answer := Answer(evaluator, taskId, epochId, query, snapshotMax, first);
      var end := done + |SelectedBy(pages)|;
      && end <= |answer| && SelectedBy(pages) == answer[done..end]
      && (pages != [] ==> (pages[|pages| - 1].next.None? <==> end == |answer|))
      && (pages != [] ==> |pages| <= 1 + |answer| - done)
    decreases |pages|
  {
    hide Answer, StandsAt, OnlyLaterFactsAdded, DistinctSeqs, QueryResult;
    var answer := Answer(evaluator, taskId, epochId, query, snapshotMax, first);
    StandingIsInside(evaluator, taskId, epochId, query, snapshotMax, cursor, answer, done);
    if pages != [] {
      var page := pages[0];
      PageFollowsAnswer(evaluator, taskId, epochId, query, snapshotMax, first, cursor, asked[0], page, done);
      var next := done + |page.selected|;
      if |pages| > 1 {
        var rest := pages[1..];
        assert forall i :: 0 <= i < |asked[1..]| ==> asked[1..][i] == asked[i + 1];
        WalkFollowsAnswer(evaluator, taskId, epochId, query, snapshotMax, first, page.next, asked[1..], rest, next);
        SlicesJoin(answer, done, next, next + |SelectedBy(rest)|);
      } else {
        assert pages[1..] == [] && page.selected + [] == page.selected;
      }
    }
  }

  lemma SlicesJoin<T>(s: seq<T>, from: nat, middle: nat, to: nat)
    requires from <= middle <= to <= |s|
    ensures s[from..middle] + s[middle..to] == s[from..to]
  {
  }

  lemma StandingIsInside(evaluator: Evaluator, taskId: string, epochId: string, query: Query, snapshotMax: nat,
                         cursor: Option<FactCursor>, answer: seq<Fact>, done: nat)
    requires StandsAt(evaluator, taskId, epochId, query, snapshotMax, cursor, answer, done)
    ensures done <= |answer| && answer[done..done] == []
  {
  }

  lemma LimitDoesNotMatter(evaluator: Evaluator, taskId: string, epochId: string, query: Query, snapshotMax: nat,
                           asked: Asked, position: Option<Position>)
    ensures Candidates(evaluator, taskId, epochId, query.(limit := asked.limit), snapshotMax, asked.facts, position)
         == Candidates(evaluator, taskId, epochId, query, snapshotMax, asked.facts, position)
  {
    var other := query.(limit := asked.limit);
    forall f
      ensures Selects(evaluator, taskId, epochId, other, snapshotMax)(f)
        == Selects(evaluator, taskId, epochId, query, snapshotMax)(f)
    {
    }
    KeepSame(Selects(evaluator, taskId, epochId, other, snapshotMax),
             Selects(evaluator, taskId, epochId, query, snapshotMax), asked.facts);
  }

  /**
    Query pages are snapshot-exact: for every order and every limit per page, with any facts of higher
    sequence number added between the pages, the pages of a walk concatenate to a prefix of the one
    answer at the first page's snapshot; a walk without a further cursor has all of it; no walk is
    longer than the answer allows; and the rows shown are the selected fields of exactly those facts.
  */
  lemma QueryPagesAreSnapshotExact(evaluator: Evaluator, taskId: string, epochId: string, query: Query,
                                   snapshotMax: nat, first: seq<Fact>, asked: seq<Asked>, pages: seq<QueryPage>)
    requires DistinctSeqs(first)
    requires forall i :: 0 <= i < |asked| ==> OnlyLaterFactsAdded(first, asked[i].facts, snapshotMax)
    requires IsQueryWalk(evaluator, taskId, epochId, query, snapshotMax, None, asked, pages) && pages != []
    ensures var answer := Answer(evaluator, taskId, epochId, query, snapshotMax, first);
      && SelectedBy(pages) <= answer
      && (pages[|pages| - 1].next.None? <==> SelectedBy(pages) == answer)
      && |pages| <= 1 + |answer|
    ensures RowsOf(pages) == Shown(evaluator, query.select, SelectedBy(pages))
  {
    WalkShowsWhatItSelects(evaluator, taskId, epochId, query, snapshotMax, None, asked, pages);
    hide IsQueryWalk, Answer, Shown;
    var answer := Answer(evaluator, taskId, epochId, query, snapshotMax, first);
    WalkFollowsAnswer(evaluator, taskId, epochId, query, snapshotMax, first, None, asked, pages, 0);
    assert answer[0..|SelectedBy(pages)|] == answer[..|SelectedBy(pages)|];
    if |SelectedBy(pages)| == |answer| {
      assert answer[..|answer|] == answer;
    }
  }

  // ---- The bounded fetch ----

  /** What a page of the default order has to choose from: ascending, and past the cursor. */
  function Listing(selects: Fact -> bool, facts: seq<Fact>, position: Option<Position>): seq<Fact> {
    var kept := Keep(selects, facts);
    StableSort(FactOrder([BySeq(false)]), if position.Some? && position.value.AfterSeq? then
               Keep(After(position.value.last), kept) else kept)
  }

  /** The store's listing: ascending by sequence number, cut off after `limit` rows where the query allows it. */
  function Fetch(evaluator: Evaluator, taskId: string, epochId: string, query: Query, snapshotMax: nat,
                 facts: seq<Fact>, position: Option<Position>): seq<Fact> {
    var sorted := Listing(Selects(evaluator, taskId, epochId, query, snapshotMax), facts, position);
    if query.limit >= 0 && query.limit + 1 <= |sorted| then sorted[..query.limit + 1] else sorted
  }

  lemma ListingMeaning(selects: Fact -> bool, facts: seq<Fact>, position: Option<Position>)
    requires DistinctSeqs(facts)
    ensures var listing := Listing(selects, facts, position);
      && DistinctSeqs(listing) && Ordered(FactOrder([BySeq(false)]), listing)
      && (forall f :: f in listing ==> selects(f))
      && (position.Some? && position.value.AfterSeq? ==> forall f :: f in listing ==> After(position.value.last)(f))
  {
    hide Keep, StableSort, FactOrder;
    var kept := Keep(selects, facts);
    KeepStaysDistinct(selects, facts);
    KeepMembers(selects, facts);
    var rest := kept;
    if position.Some? && position.value.AfterSeq? {
      KeepStaysDistinct(After(position.value.last), kept);
      KeepMembers(After(position.value.last), kept);
      rest := Keep(After(position.value.last), kept);
    }
    SortedAnswer([BySeq(false)], rest);
    SameMembers(Listing(selects, facts, position), rest);
  }

  lemma SameMembers(some: seq<Fact>, other: seq<Fact>)
    requires multiset(some) == multiset(other)
    ensures forall f :: f in some <==> f in other
  {
    forall f
      ensures f in some <==> f in other
    {
      assert f in multiset(some) <==> f in multiset(other);
    }
  }

  /** A beginning of the listing, listed again, is that beginning. */
  lemma ListingAgain(selects: Fact -> bool, facts: seq<Fact>, position: Option<Position>, n: nat)
    requires DistinctSeqs(facts) && n <= |Listing(selects, facts, position)|
    ensures Listing(selects, Listing(selects, facts, position)[..n], position) == Listing(selects, facts, position)[..n]
  {
    hide Keep, StableSort, FactOrder;
    ListingMeaning(selects, facts, position);
    var fetched := Listing(selects, facts, position)[..n];
    assert forall f :: f in fetched ==> f in Listing(selects, facts, position);
    KeepEvery(selects, fetched);
    if position.Some? && position.value.AfterSeq? {
      KeepEvery(After(position.value.last), fetched);
    }
    FactOrderIsTotal([BySeq(false)]);
    assert Ordered(FactOrder([BySeq(false)]), fetched);
    SortOfOrdered(FactOrder([BySeq(false)]), fetched);
  }

  lemma CandidatesAreListed(evaluator: Evaluator, taskId: string, epochId: string, query: Query, snapshotMax: nat,
                            facts: seq<Fact>, position: Option<Position>)
    requires IsDefaultOrder(query) && (position.Some? ==> position.value.AfterSeq?)
    ensures Candidates(evaluator, taskId, epochId, query, snapshotMax, facts, position)
         == Listing(Selects(evaluator, taskId, epochId, query, snapshotMax), facts, position)
  {
    hide Keep, StableSort, FactOrder;
  }

  /** Fetching only one fact more than a page holds gives the same page as fetching everything. */
  lemma BoundedFetchGivesTheSamePage(evaluator: Evaluator, taskId: string, epochId: string, query: Query,
                                     snapshotMax: nat, facts: seq<Fact>, cursor: Option<FactCursor>)
    requires ValidQuery(evaluator, query) && IsDefaultOrder(query) && DistinctSeqs(facts)
    requires cursor.Some? ==> cursor.value.position.AfterSeq?
    ensures var position := if cursor.Some? then Some(cursor.value.position) else None;
      var fetched := Fetch(evaluator, taskId, epochId, query, snapshotMax, facts, position);
      QueryResult(evaluator, taskId, epochId, query, fetched, snapshotMax, cursor)
      == QueryResult(evaluator, taskId, epochId, query, facts, snapshotMax, cursor)
  {
    hide Listing, Candidates, PageOf, Selects, IsDefaultOrder;
    var position := if cursor.Some? then Some(cursor.value.position) else None;
    var selects := Selects(evaluator, taskId, epochId, query, snapshotMax);
    var listing, fetched := Listing(selects, facts, position),
      Fetch(evaluator, taskId, epochId, query, snapshotMax, facts, position);
    assert listing[..|listing|] == listing;
    ListingAgain(selects, facts, position, |fetched|);
    CandidatesAreListed(evaluator, taskId, epochId, query, snapshotMax, facts, position);
    CandidatesAreListed(evaluator, taskId, epochId, query, snapshotMax, fetched, position);
    SamePageFromPrefix(evaluator, taskId, epochId, query, snapshotMax, listing, fetched);
  }

  lemma SamePageFromPrefix(evaluator: Evaluator, taskId: string, epochId: string, query: Query, snapshotMax: nat,
                           sorted: seq<Fact>, fetched: seq<Fact>)
    requires ValidQuery(evaluator, query) && IsDefaultOrder(query)
    requires fetched == if query.limit + 1 <= |sorted| then sorted[..query.limit + 1] else sorted
    ensures PageOf(evaluator, taskId, epochId, query, snapshotMax, fetched)
      == PageOf(evaluator, taskId, epochId, query, snapshotMax, sorted)
  {
    if query.limit + 1 <= |sorted| {
      assert fetched[..query.limit] == sorted[..query.limit];
    }
  }
}
