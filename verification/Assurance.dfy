/**
  From a closed investigation back to the pages of its actions: what must have been seen in full before
  an investigation can be called closed, and what may be short beside a clean close.
*/
module Assurance {
  import opened Wrappers
  import opened Ledger
  import opened LedgerExtension
  import opened Selection
  import opened Investigation
  import opened Executor
  import opened ExecutorTheorems
  import opened Completion
  import opened CompletionTheorems
  import Drain
  import Cursor
  import Protocol
  import Enumerate
  import Collection
  import CleanActions

  predicate IsClosed(status: InvestigationStatus) {
    status.ClosedWithFindings? || status.ClosedNoObservedFinding?
  }

  /**
    A closed case has no pending action, no awaited and no limited required obligation, and no
    failed action on one.
  */
  lemma ClosedMeans(c: Case)
    requires IsClosed(Evaluate(c).status)
    ensures MayClose(c) && Evaluate(c).limited == [] && !FailedARequired(c.board)
  {
    hide EffectiveOf, LimitedUpTo, CategoriesConcluded, FailedARequired;
    StatusMeans(c);
    CleanStatusMeans(c);
  }

  /**
    If a required obligation was awaited, and the investigation has since developed into a closed one,
    then every action that serves the obligation SUCCEEDED.
  */
  lemma ClosedMeansServersSucceeded(before: Board, c: Case, k: nat, i: nat)
    requires Develops(before, c.board) && IsClosed(Evaluate(c).status)
    requires k < |before.obligations| && before.obligations[k].required && IsAwaited(before.obligations[k].status)
    requires i < |c.board.actions| && Serves(c.board.actions[i], before.obligations[k].id)
    ensures c.board.actions[i].status.Succeeded?
  {
    ClosedMeans(c);
    var o := c.board.obligations[k];
    assert ObligationDevelops(c.board.actions, before.obligations[k], o);
    assert !IsOpenRequired(o);
    LimitedMeans(c, o.id);
    assert !IsLimitedRequired(o);
    DecisionsAreDeserved(before, c.board, k);
  }

  /**
    Hence, when a run of the executor leads to a closed investigation, each of its actions that serves
    a required obligation awaited until then was seen in full, page by page.
  */
  lemma ClosedMeansSeenInFull(tools: Tools, prior: PriorRuns, before: Board, c: Case, k: nat, i: nat)
    requires Develops(before, c.board) && IsRunOf(tools, prior, before.actions, c.board.actions)
    requires IsClosed(Evaluate(c).status)
    requires k < |before.obligations| && before.obligations[k].required && IsAwaited(before.obligations[k].status)
    requires i < |before.actions| && before.actions[i].status.Ready?
    requires Serves(before.actions[i], before.obligations[k].id)
    ensures SeenInFull(tools, prior, Claimed(before.actions[i]))
  {
    assert ActionDevelops(before.actions[i], c.board.actions[i]);
    ClosedMeansServersSucceeded(before, c, k, i);
    assert IsOutcomeOf(tools, prior, before.actions[i], c.board.actions[i]);
    SucceededIff(tools, prior, Claimed(before.actions[i]));
  }

  /**
    And an enumerate action among them, over a helper that may meet a different host on every page,
    carries exactly the references recorded for the matching rows of each page's own stretch, all in
    one generation, and each reference once.
  */
  lemma ClosedMeansCollected<R(!new)>(tools: Tools, prior: PriorRuns, before: Board, c: Case, k: nat, i: nat,
                                      codec: Cursor.Codec, request: Enumerate.Request, matches: R -> bool,
                                      worlds: nat -> Collection.World<R>,
                                      replies: (nat, Option<string>) -> Protocol.Response<R>,
                                      record: (nat, seq<R>) -> seq<string>)
    returns (offsets: seq<nat>)
    requires Develops(before, c.board) && IsRunOf(tools, prior, before.actions, c.board.actions)
    requires IsClosed(Evaluate(c).status)
    requires k < |before.obligations| && before.obligations[k].required && IsAwaited(before.obligations[k].status)
    requires i < |before.actions| && before.actions[i].status.Ready?
    requires Serves(before.actions[i], before.obligations[k].id)
    requires before.actions[i].operation == "enumerate" && "enumerate" in tools
    requires tools["enumerate"](Claimed(before.actions[i])) == CleanActions.Recorded(Collection.Remote(replies), record)
    requires Cursor.Faithful(codec) && Collection.HelperReplies(codec, request, matches, worlds, replies)
    ensures CleanActions.Turns(matches, worlds, request.limit, 0, offsets) && offsets[0] == 0
    ensures CleanActions.OneGeneration(worlds, 0, |offsets| - 1)
    ensures c.board.actions[i].resultRefs
         == Deduplicated(CleanActions.RecordedAlong(record, matches, worlds, request.limit, 0, offsets))
  {
    hide Develops, Evaluate, Drain.DrainFrom, Deduplicated, CleanActions.Recorded, CleanActions.RecordedAlong,
      CleanActions.Turns;
    var rows := SucceededEnumeration(tools, prior, before, c, k, i);
    offsets := CleanActions.SucceededMeansRecorded(codec, request, matches, worlds, replies, record, rows);
  }

  lemma SucceededEnumeration(tools: Tools, prior: PriorRuns, before: Board, c: Case, k: nat, i: nat)
    returns (rows: seq<string>)
    requires Develops(before, c.board) && IsRunOf(tools, prior, before.actions, c.board.actions)
    requires IsClosed(Evaluate(c).status)
    requires k < |before.obligations| && before.obligations[k].required && IsAwaited(before.obligations[k].status)
    requires i < |before.actions| && before.actions[i].status.Ready?
    requires Serves(before.actions[i], before.obligations[k].id)
    requires before.actions[i].operation == "enumerate" && "enumerate" in tools
    ensures Drain.DrainFrom(tools["enumerate"](Claimed(before.actions[i])), true, 0, None, false, [])
      == Drain.Finished(false, rows)
    ensures i < |c.board.actions| && c.board.actions[i].resultRefs == Deduplicated(rows)
  {
    hide Evaluate, Drain.DrainFrom, Deduplicated;
    assert ActionDevelops(before.actions[i], c.board.actions[i]);
    ClosedMeansServersSucceeded(before, c, k, i);
    assert IsOutcomeOf(tools, prior, before.actions[i], c.board.actions[i]);
    var drained := Drain.DrainFrom(tools["enumerate"](Claimed(before.actions[i])), true, 0, None, false, []);
    rows := drained.rows;
  }

  // ---- What may be short beside a close ----

  ghost predicate WholeForRequired(b: Board) {
    forall i, k ::
      && 0 <= i < |b.actions| && 0 <= k < |b.obligations| && b.obligations[k].required
      && Serves(b.actions[i], b.obligations[k].id)
      ==> b.actions[i].status.Succeeded?
  }

  /** A partial action names a required obligation that had been decided before. */
  ghost predicate PartialOnDecided(before: Board, after: Board) {
    exists i, k {:trigger after.actions[i], before.obligations[k]} ::
      0 <= i < |after.actions| && 0 <= k < |before.obligations|
      && before.obligations[k].required && !IsAwaited(before.obligations[k].status)
      && Serves(after.actions[i], before.obligations[k].id) && after.actions[i].status.Partial?
  }

  /**
    Exactly when all actions on required obligations of a closed investigation SUCCEEDED: unless a
    partial action names one that had already been decided.
  */
  lemma ClosedIsWholeIff(before: Board, c: Case)
    requires Develops(before, c.board) && IsClosed(Evaluate(c).status)
    ensures WholeForRequired(c.board) <==> !PartialOnDecided(before, c.board)
  {
    ClosedMeans(c);
    hide Evaluate;
    assert forall k :: 0 <= k < |before.obligations| ==>
      ObligationDevelops(c.board.actions, before.obligations[k], c.board.obligations[k]);
    if PartialOnDecided(before, c.board) {
      var i, k :| 0 <= i < |c.board.actions| && 0 <= k < |before.obligations|
        && before.obligations[k].required && !IsAwaited(before.obligations[k].status)
        && Serves(c.board.actions[i], before.obligations[k].id) && c.board.actions[i].status.Partial?;
      assert c.board.obligations[k] == before.obligations[k];
    } else {
      forall i, k | 0 <= i < |c.board.actions| && 0 <= k < |c.board.obligations| && c.board.obligations[k].required
        && Serves(c.board.actions[i], c.board.obligations[k].id)
        ensures c.board.actions[i].status.Succeeded?
      {
        var o := before.obligations[k];
        assert ObligationDevelops(c.board.actions, o, c.board.obligations[k]);
        assert !IsPending(c.board.actions[i].status);
        if IsAwaited(o.status) {
          ClosedMeansServersSucceeded(before, c, k, i);
        } else {
          assert !HasFailed(c.board.actions[i].status);
        }
      }
    }
  }

  /**
    Exactly when a coverage run of UNKNOWN applicability does not stand in the way of a clean close,
    all else being in order: when its category has, or may be given, its no-finding conclusion.
  */
  lemma UnknownRunClosesCleanIff(c: Case, mint: Mint, i: nat)
    requires Sound(c, mint) && NothingAmiss(c) && AllComplete(c.world.coverage)
    requires i < |c.world.coverage| && c.world.coverage[i].applicability.Unknown?
    requires forall j :: 0 <= j < |c.world.coverage| && j != i ==> MayBeConcluded(c, c.world.coverage[j])
    ensures Evaluate(Materialised(c, mint)).status.ClosedNoObservedFinding? <==>
            (exists p :: p in EffectiveOf(c) && IsNoFinding(p, c.world.coverage[i].category))
              || CalledFor(c, c.world.coverage[i].category)
  {
    ClosesCleanIff(c, mint);
    hide EffectiveOf, Evaluate, NothingAmiss, CalledFor;
  }

  // ---- Examples ----

  function DecidedBefore(): Obligation {
    Obligation("o", true, false, [], Satisfied, [], [])
  }

  function WorldOf(coverage: seq<CoverageRun>): World {
    World("t", "e", [], [], coverage, map[], [], {})
  }

  /** A case in which everybody found nothing has nothing amiss in its ledger. */
  lemma NobodyFoundAnything(c: Case)
    requires forall a :: a in c.assessments ==> a.verdict.NoObservedFinding?
    ensures forall p :: p in EffectiveOf(c) ==> p.conclusion == Concluded(NoObservedFinding)
    ensures Keep(IsConflictProjection, EffectiveOf(c)) == []
  {
    forall p | p in EffectiveOf(c)
      ensures p.conclusion == Concluded(NoObservedFinding)
    {
      EffectiveMembers(c.assessments, c.world.relations, p);
      InGroupMembers(c.assessments, p.key);
      UnanimousGroup(c.assessments, c.world.relations, p.key);
    }
    KeepNone(IsConflictProjection, EffectiveOf(c));
  }

  lemma OneSatisfied(c: Case)
    requires c.board.obligations == [DecidedBefore()]
    ensures Evaluate(c).limited == []
  {
    if Evaluate(c).limited != [] {
      LimitedMeans(c, Evaluate(c).limited[0]);
    }
  }

  function NothingFoundIn(category: Category): Case {
    var w := WorldOf([CoverageRun(category, Complete, Unknown)]);
    Case(w, Board([], [DecidedBefore()]), [NothingObserved(w, w.coverage[0], "a", Stamp("", None))])
  }

  lemma NothingAmissThere(category: Category)
    ensures NothingAmiss(NothingFoundIn(category))
  {
    hide EffectiveOf, Evaluate, Keep, KeyOf;
    var c := NothingFoundIn(category);
    NobodyFoundAnything(c);
    OneSatisfied(c);
  }

  lemma NothingFoundIsConcluded(category: Category)
    ensures CategoriesConcluded([CoverageRun(category, Complete, Unknown)], EffectiveOf(NothingFoundIn(category)))
  {
    hide ProjectionOf, KeyOf, InGroup, EffectiveProjections, Keep;
    var c := NothingFoundIn(category);
    var a := c.assessments[0];
    assert a in c.assessments;
    NobodyFoundAnything(c);
    ProjectionDescribesItsGroup(c.assessments, c.world.relations, a);
    var p := ProjectionOf(c.assessments, c.world.relations, KeyOf(a));
    assert p in EffectiveOf(c) && IsNoFinding(p, category);
  }

  /** A clean close with a coverage run whose applicability is UNKNOWN. */
  lemma UnknownCoverageCanCloseClean(category: Category) returns (c: Case)
    ensures c.world.coverage == [CoverageRun(category, Complete, Unknown)]
    ensures Evaluate(c).status.ClosedNoObservedFinding?
  {
    c := NothingFoundIn(category);
    NothingAmissThere(category);
    NothingFoundIsConcluded(category);
    CleanStatusMeans(c);
    hide EffectiveOf, Evaluate, NothingAmiss, CategoriesConcluded;
  }

  function PartialAction(): Action {
    Action("x", ["o"], [], "v", "read", Partial, 1, [], None)
  }

  function BesidePartial(category: Category): Case {
    Case(WorldOf([CoverageRun(category, Complete, Applicable)]), Board([PartialAction()], [DecidedBefore()]), [])
  }

  lemma NothingRecorded(c: Case)
    requires c.assessments == []
    ensures EffectiveOf(c) == []
  {
    var effective := EffectiveOf(c);
    assert |effective| > 0 ==> effective[0] in effective;
    forall p
      ensures p !in effective
    {
      EffectiveMembers(c.assessments, c.world.relations, p);
    }
  }

  lemma NothingAmissBesidePartial(category: Category)
    ensures NothingAmiss(BesidePartial(category))
  {
    var c := BesidePartial(category);
    NothingRecorded(c);
    NobodyFoundAnything(c);
    OneSatisfied(c);
    hide EffectiveOf, Evaluate;
  }

  lemma ConcludedBesidePartial(category: Category)
    ensures MayBeConcluded(BesidePartial(category), CoverageRun(category, Complete, Applicable))
  {
    var c := BesidePartial(category);
    NothingRecorded(c);
    hide EffectiveOf, IsConcluded;
    assert NeedsConclusion(c.world.coverage[0], EffectiveOf(c));
    assert CalledFor(c, category);
  }

  /** A clean close beside a PARTIAL action that names a required obligation satisfied before. */
  lemma PartialCanStandBesideACleanClose(category: Category, mint: Mint) returns (c: Case)
    requires forall i: nat, j: nat :: mint.id(i) == mint.id(j) ==> i == j
    ensures |c.board.actions| == 1 && c.board.actions[0].status.Partial?
    ensures c.board.obligations == [DecidedBefore()] && Serves(c.board.actions[0], DecidedBefore().id)
    ensures PartialOnDecided(c.board, c.board) && Develops(c.board, c.board)
    ensures Evaluate(Materialised(c, mint)).status.ClosedNoObservedFinding?
  {
    hide EffectiveOf, Evaluate, NothingAmiss, MayBeConcluded, Materialised, Develops;
    c := BesidePartial(category);
    assert c.board.actions[0] == PartialAction() && c.board.obligations[0] == DecidedBefore();
    DevelopsReflexively(c.board);
    NothingAmissBesidePartial(category);
    ConcludedBesidePartial(category);
    assert Sound(c, mint);
    ClosesCleanIff(c, mint);
  }
}
