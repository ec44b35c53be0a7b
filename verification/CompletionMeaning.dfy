/**
  The end of an investigation read off the records: which obligations, actions, checkpoints, coverage
  runs and projections give which status, which reasons and which conclusions.
*/
module CompletionMeaning {
  import opened Wrappers
  import opened Ordering
  import opened Selection
  import opened Ledger
  import opened Investigation
  import opened Executor
  import ExecutorTheorems
  import opened Completion
  import opened CompletionTheorems

  // ---- Evidence ----

  /** Two references are the same, or joined by an edge that was observed or derived. */
  ghost predicate AboutOneThing(w: World, some: seq<string>, other: seq<string>) {
    || (exists ref :: ref in some && ref in other)
    || (exists link :: link in w.links && link.id in w.trusted
          && (link.from in some || link.to in some) && (link.from in other || link.to in other))
  }

  /** Among its references is complete evidence of this epoch about its subject. */
  ghost predicate HasEvidence(w: World, o: Obligation) {
    exists ref :: ref in o.resultRefs && ref in w.evidence
      && w.evidence[ref].complete && w.evidence[ref].epochId == w.epochId
      && AboutOneThing(w, w.evidence[ref].subjects, o.subjectRefs)
  }

  lemma BacksMeans(w: World, o: Obligation, ref: string)
    ensures Backs(w, o, ref) <==>
      && ref in w.evidence && w.evidence[ref].complete && w.evidence[ref].epochId == w.epochId
      && AboutOneThing(w, w.evidence[ref].subjects, o.subjectRefs)
  {
  }

  lemma UnbackedMeans(w: World, o: Obligation)
    ensures IsUnbacked(w, o) <==> o.required && o.needsEvidence && o.status == Satisfied && !HasEvidence(w, o)
  {
    hide Backs, AboutOneThing;
    forall ref
      ensures Backs(w, o, ref) <==>
        && ref in w.evidence && w.evidence[ref].complete && w.evidence[ref].epochId == w.epochId
        && AboutOneThing(w, w.evidence[ref].subjects, o.subjectRefs)
    {
      BacksMeans(w, o, ref);
    }
  }

  // ---- Status ----

  /** A required obligation that was given up, or that counts as satisfied without the evidence it asks for. */
  ghost predicate IsShort(w: World, o: Obligation) {
    && o.required
    && (o.status in {Limited, Dropped} || (o.status == Satisfied && o.needsEvidence && !HasEvidence(w, o)))
  }

  /** Everything is over that could be: actions, required obligations and discovery, and something was obliged. */
  ghost predicate IsOver(c: Case) {
    && (forall a :: a in c.board.actions ==> a.status in {Succeeded, Partial, Failed, Blocked, Cancelled})
    && (forall o :: o in c.board.obligations && o.required ==> o.status !in {Open, Queued})
    && (forall s :: s in c.world.checkpoints ==> s != Discovering)
    && c.board.obligations != []
  }

  /** Something that was asked for was not seen, or not settled. */
  ghost predicate IsLimited(c: Case) {
    || (exists o :: o in c.board.obligations && IsShort(c.world, o))
    || (exists s :: s in c.world.checkpoints && s in {DiscoveryLimited, DiscoveryFailed})
    || (exists p :: p in EffectiveOf(c) && p.conclusion == Conflict)
    || (exists a, o :: a in c.board.actions && o in c.board.obligations && o.required && o.id in a.obligationIds
          && a.status in {Failed, Blocked, Cancelled})
  }

  ghost predicate ConcludesRisk(p: Projection) {
    p.conclusion in {Concluded(ConfirmedMalicious), Concluded(HighlySuspicious), Concluded(Suspicious)}
  }

  ghost predicate FoundRisk(c: Case) {
    exists p :: p in EffectiveOf(c) && ConcludesRisk(p)
  }

  /** A projection says of the whole category that nothing was found. */
  ghost predicate ClearsCategory(p: Projection, category: Category) {
    p.category == category && p.scope == ObservedCategory && p.conclusion == Concluded(NoObservedFinding)
  }

  /** There was coverage, all of it complete, and each category that applies has its no-finding conclusion. */
  ghost predicate IsCovered(c: Case) {
    && c.world.coverage != []
    && forall run :: run in c.world.coverage ==>
         && run.status == Complete
         && (run.applicability == NotApplicable || exists p :: p in EffectiveOf(c) && ClearsCategory(p, run.category))
  }

  lemma OverMeans(c: Case)
    ensures MayClose(c) <==> IsOver(c)
  {
    var b := c.board;
    assert (forall i :: 0 <= i < |b.actions| ==> !IsPending(b.actions[i].status)) <==>
           forall a :: a in b.actions ==> a.status in {Succeeded, Partial, Failed, Blocked, Cancelled};
    assert (forall k :: 0 <= k < |b.obligations| ==> !IsOpenRequired(b.obligations[k])) <==>
           forall o :: o in b.obligations && o.required ==> o.status !in {Open, Queued};
  }

  lemma SomeLimitedObligation(c: Case)
    ensures Evaluate(c).limited != [] <==> exists o :: o in c.board.obligations && IsShort(c.world, o)
  {
    var obligations, limited := c.board.obligations, Evaluate(c).limited;
    hide Evaluate, HasEvidence;
    forall k | 0 <= k < |obligations|
      ensures IsShort(c.world, obligations[k])
         <==> IsLimitedRequired(obligations[k]) || IsUnbacked(c.world, obligations[k])
    {
      UnbackedMeans(c.world, obligations[k]);
    }
    hide IsShort, IsLimitedRequired, IsUnbacked;
    if limited != [] {
      LimitedMeans(c, limited[0]);
      var k :| 0 <= k < |obligations| && obligations[k].id == limited[0]
        && (IsLimitedRequired(obligations[k]) || IsUnbacked(c.world, obligations[k]));
      assert obligations[k] in obligations && IsShort(c.world, obligations[k]);
    }
    if o :| o in obligations && IsShort(c.world, o) {
      var k :| 0 <= k < |obligations| && obligations[k] == o;
      LimitedMeans(c, o.id);
      assert o.id in limited;
    }
  }

  lemma SomeConflict(c: Case)
    ensures Keep(IsConflictProjection, EffectiveOf(c)) != [] <==> exists p ::
      p in EffectiveOf(c) && p.conclusion == Conflict
  {
    hide EffectiveOf;
    var conflicts := Keep(IsConflictProjection, EffectiveOf(c));
    KeepMembers(IsConflictProjection, EffectiveOf(c));
    assert conflicts != [] ==> conflicts[0] in conflicts;
  }

  lemma SomeFailedAction(b: Board)
    ensures FailedARequired(b) <==>
      exists a, o :: a in b.actions && o in b.obligations && o.required && o.id in a.obligationIds
        && a.status in {Failed, Blocked, Cancelled}
  {
    if a, o :| a in b.actions && o in b.obligations && o.required && o.id in a.obligationIds
               && a.status in {Failed, Blocked, Cancelled} {
      var i :| 0 <= i < |b.actions| && b.actions[i] == a;
      var k :| 0 <= k < |b.obligations| && b.obligations[k] == o;
      assert HasFailed(b.actions[i].status) && Serves(b.actions[i], b.obligations[k].id);
    }
    if i, k :| 0 <= i < |b.actions| && 0 <= k < |b.obligations| && HasFailed(b.actions[i].status)
               && b.obligations[k].required && Serves(b.actions[i], b.obligations[k].id) {
      assert b.actions[i] in b.actions && b.obligations[k] in b.obligations;
    }
  }

  lemma LimitedIff(c: Case)
    ensures FellShortOfScope(c, Evaluate(c).limited, Keep(IsConflictProjection, EffectiveOf(c))) <==> IsLimited(c)
  {
    SomeLimitedObligation(c);
    SomeConflict(c);
    SomeFailedAction(c.board);
    hide Evaluate, Keep, EffectiveOf, FailedARequired, IsShort;
  }

  lemma RiskIff(c: Case)
    ensures (exists p :: p in EffectiveOf(c) && IsRiskProjection(p)) <==> FoundRisk(c)
  {
    hide EffectiveOf;
    forall p
      ensures IsRiskProjection(p) <==> ConcludesRisk(p)
    {
    }
  }

  lemma CoveredIff(c: Case)
    ensures CategoriesConcluded(c.world.coverage, EffectiveOf(c)) <==> IsCovered(c)
  {
    var coverage, effective := c.world.coverage, EffectiveOf(c);
    hide EffectiveOf;
    forall run | run in coverage
      ensures IsConcluded(run, effective) <==>
        run.applicability == NotApplicable || exists p :: p in effective && ClearsCategory(p, run.category)
    {
      assert forall p :: ClearsCategory(p, run.category) <==> IsNoFinding(p, run.category);
    }
    assert forall i :: 0 <= i < |coverage| ==> coverage[i] in coverage;
  }

  /**
    The status of every case: OPEN until everything is over, then LIMITED if something fell short, then
    CLOSED_WITH_FINDINGS if some group concludes on a risk, and CLOSED_NO_OBSERVED_FINDING only if
    the coverage suffices.
  */
  lemma StatusIsReadOff(c: Case)
    ensures Evaluate(c).status ==
      if !IsOver(c) then StillOpen
      else if IsLimited(c) then LimitedScope
      else if FoundRisk(c) then ClosedWithFindings
      else if IsCovered(c) then ClosedNoObservedFinding
      else LimitedScope
    ensures Evaluate(c).canClose <==> IsOver(c)
  {
    OverMeans(c);
    LimitedIff(c);
    RiskIff(c);
    CoveredIff(c);
    StatusMeans(c);
    CleanStatusMeans(c);
    CanCloseMeans(c);
    hide EffectiveOf, FellShortOfScope, MayClose, CategoriesConcluded, Evaluate, IsOver, IsLimited, IsCovered;
  }

  /**
    A closed investigation has finished discovering, has met its required obligations with
    evidence, and has no conflict.
  */
  lemma ClosedMeansAllSeen(c: Case)
    requires Evaluate(c).status in {ClosedWithFindings, ClosedNoObservedFinding}
    ensures forall s :: s in c.world.checkpoints ==> s == Discovered
    ensures forall o :: o in c.board.obligations && o.required ==>
      o.status == Satisfied && (o.needsEvidence ==> HasEvidence(c.world, o))
    ensures forall a, o :: a in c.board.actions && o in c.board.obligations && o.required && o.id in a.obligationIds ==>
      a.status in {Succeeded, Partial}
    ensures forall p :: p in EffectiveOf(c) ==> p.conclusion != Conflict
  {
    StatusIsReadOff(c);
    hide Evaluate, EffectiveOf, HasEvidence, IsCovered, FoundRisk;
    assert IsOver(c) && !IsLimited(c);
    forall o | o in c.board.obligations && o.required
      ensures o.status == Satisfied && (o.needsEvidence ==> HasEvidence(c.world, o))
    {
      assert !IsShort(c.world, o);
    }
  }

  // ---- What the evaluation lists ----

  lemma ObligationIdsMean(obligations: seq<Obligation>, id: string)
    ensures id in ObligationIds(obligations) <==> exists o :: o in obligations && o.id == id
  {
    if id in ObligationIds(obligations) {
      var i :| 0 <= i < |obligations| && ObligationIds(obligations)[i] == id;
      assert obligations[i] in obligations;
    }
    if o :| o in obligations && o.id == id {
      var i :| 0 <= i < |obligations| && obligations[i] == o;
      assert ObligationIds(obligations)[i] == id;
    }
  }

  lemma ActionIdsMean(actions: seq<Action>, id: string)
    ensures id in ActionIds(actions) <==> exists a :: a in actions && a.id == id
  {
    if id in ActionIds(actions) {
      var i :| 0 <= i < |actions| && ActionIds(actions)[i] == id;
      assert actions[i] in actions;
    }
    if a :| a in actions && a.id == id {
      var i :| 0 <= i < |actions| && actions[i] == a;
      assert ActionIds(actions)[i] == id;
    }
  }

  lemma {:induction false} EffectiveIdsMean(projections: seq<Projection>, id: string)
    ensures id in EffectiveIds(projections) <==> exists p :: p in projections && id in p.effective
  {
    if projections != [] {
      EffectiveIdsMean(projections[1..], id);
      assert projections == [projections[0]] + projections[1..];
    }
  }

  /** What is listed as running, as open, as limited and as finding. */
  lemma ListsAreReadOff(c: Case, id: string)
    ensures var e := Evaluate(c);
      && (id in e.running <==> exists a :: a in c.board.actions && a.id == id && a.status in {Ready, Running})
      && (id in e.openRequired <==>
            exists o :: o in c.board.obligations && o.id == id && o.required && o.status in {Open, Queued})
      && (id in e.limited <==> exists o :: o in c.board.obligations && o.id == id && IsShort(c.world, o))
      && (id in e.findings <==> exists p :: p in EffectiveOf(c) && ConcludesRisk(p) && id in p.effective)
  {
    RunningAreReadOff(c, id);
    OpenAreReadOff(c, id);
    LimitedAreReadOff(c, id);
    FindingsAreReadOff(c, id);
    hide Evaluate, EffectiveOf, IsShort;
  }

  lemma RunningAreReadOff(c: Case, id: string)
    ensures id in Evaluate(c).running <==> exists a ::
      a in c.board.actions && a.id == id && a.status in {Ready, Running}
  {
    hide EffectiveOf, LimitedUpTo, CategoriesConcluded, FellShortOfScope, Keep;
    KeepMembers(IsActive, c.board.actions);
    ActionIdsMean(Keep(IsActive, c.board.actions), id);
    assert Evaluate(c).running == ActionIds(Keep(IsActive, c.board.actions));
  }

  lemma OpenAreReadOff(c: Case, id: string)
    ensures id in Evaluate(c).openRequired <==>
      exists o :: o in c.board.obligations && o.id == id && o.required && o.status in {Open, Queued}
  {
    hide EffectiveOf, LimitedUpTo, CategoriesConcluded, FellShortOfScope, Keep;
    KeepMembers(IsOpenRequired, c.board.obligations);
    ObligationIdsMean(Keep(IsOpenRequired, c.board.obligations), id);
    assert Evaluate(c).openRequired == ObligationIds(Keep(IsOpenRequired, c.board.obligations));
  }

  lemma LimitedAreReadOff(c: Case, id: string)
    ensures id in Evaluate(c).limited <==> exists o :: o in c.board.obligations && o.id == id && IsShort(c.world, o)
  {
    var obligations := c.board.obligations;
    hide Evaluate, HasEvidence;
    LimitedMeans(c, id);
    forall k | 0 <= k < |obligations|
      ensures IsShort(c.world, obligations[k])
         <==> IsLimitedRequired(obligations[k]) || IsUnbacked(c.world, obligations[k])
    {
      UnbackedMeans(c.world, obligations[k]);
    }
    hide IsShort, IsLimitedRequired, IsUnbacked;
    if k :| 0 <= k < |obligations| && obligations[k].id == id
            && (IsLimitedRequired(obligations[k]) || IsUnbacked(c.world, obligations[k])) {
      assert obligations[k] in obligations && IsShort(c.world, obligations[k]);
    }
    if o :| o in obligations && o.id == id && IsShort(c.world, o) {
      var k :| 0 <= k < |obligations| && obligations[k] == o;
      assert IsShort(c.world, obligations[k]);
    }
  }

  lemma FindingsAreReadOff(c: Case, id: string)
    ensures id in Evaluate(c).findings <==> exists p :: p in EffectiveOf(c) && ConcludesRisk(p) && id in p.effective
  {
    hide EffectiveOf, LimitedUpTo, CategoriesConcluded, FellShortOfScope, Keep;
    var risks := Keep(IsRiskProjection, EffectiveOf(c));
    KeepMembers(IsRiskProjection, EffectiveOf(c));
    EffectiveIdsMean(risks, id);
    assert Evaluate(c).findings == EffectiveIds(risks);
    assert forall p :: IsRiskProjection(p) <==> ConcludesRisk(p);
  }

  /** Which reasons are given, for a case that may close and for one that may not. */
  lemma ReasonsAreReadOff(c: Case, reason: Reason)
    ensures reason in Evaluate(c).reasons <==>
      match reason
      case ActionsAtWork => exists a :: a in c.board.actions && a.status in {Ready, Running}
      case ObligationsOpen => exists o :: o in c.board.obligations && o.required && o.status in {Open, Queued}
      case DiscoveryUnfinished => Discovering in c.world.checkpoints
      case NothingObliged => c.board.obligations == []
      case ConflictsStand => exists p :: p in EffectiveOf(c) && p.conclusion == Conflict
      case CoverageShort => IsOver(c) && !IsLimited(c) && !FoundRisk(c) && !IsCovered(c)
  {
    SomeConflict(c);
    LimitedIff(c);
    CoveredIff(c);
    RiskIff(c);
    FindingsAreTheRisks(c);
    CanCloseMeans(c);
    OverMeans(c);
    SomeRunning(c);
    SomeOpen(c);
    ReasonsOf(c, reason);
    hide EffectiveOf, Evaluate, FellShortOfScope, CategoriesConcluded, Keep, MayClose;
  }

  lemma SomeRunning(c: Case)
    ensures Evaluate(c).running != [] <==> exists a :: a in c.board.actions && a.status in {Ready, Running}
  {
    hide Evaluate;
    if Evaluate(c).running != [] {
      RunningAreReadOff(c, Evaluate(c).running[0]);
    }
    if a :| a in c.board.actions && a.status in {Ready, Running} {
      RunningAreReadOff(c, a.id);
    }
  }

  lemma SomeOpen(c: Case)
    ensures Evaluate(c).openRequired != [] <==>
      exists o :: o in c.board.obligations && o.required && o.status in {Open, Queued}
  {
    hide Evaluate;
    if Evaluate(c).openRequired != [] {
      OpenAreReadOff(c, Evaluate(c).openRequired[0]);
    }
    if o :| o in c.board.obligations && o.required && o.status in {Open, Queued} {
      OpenAreReadOff(c, o.id);
    }
  }

  lemma ReasonsOf(c: Case, reason: Reason)
    ensures var e := Evaluate(c);
      var conflicts := Keep(IsConflictProjection, EffectiveOf(c));
      reason in e.reasons <==>
        match reason
        case ActionsAtWork => e.running != []
        case ObligationsOpen => e.openRequired != []
        case DiscoveryUnfinished => Discovering in c.world.checkpoints
        case NothingObliged => c.board.obligations == []
        case ConflictsStand => conflicts != []
        case CoverageShort =>
          && e.canClose && !FellShortOfScope(c, e.limited, conflicts) && e.findings == []
          && !CategoriesConcluded(c.world.coverage, EffectiveOf(c))
  {
    hide EffectiveOf, LimitedUpTo, CategoriesConcluded, FellShortOfScope, Keep, ActionIds, ObligationIds, EffectiveIds,
      When;
    var e, conflicts := Evaluate(c), Keep(IsConflictProjection, EffectiveOf(c));
    var short := e.canClose && !FellShortOfScope(c, e.limited, conflicts) && |e.findings| == 0
      && !CategoriesConcluded(c.world.coverage, EffectiveOf(c));
    var working, open := When(|e.running| > 0, ActionsAtWork), When(|e.openRequired| > 0, ObligationsOpen);
    var unfinished := When(Discovering in c.world.checkpoints, DiscoveryUnfinished);
    var nothing := When(|c.board.obligations| == 0, NothingObliged);
    var opposed, uncovered := When(|conflicts| > 0, ConflictsStand), When(short, CoverageShort);
    assert e.reasons == working + open + unfinished + nothing + opposed + uncovered;
    hide Evaluate;
    WhenMeans(|e.running| > 0, ActionsAtWork, reason);
    WhenMeans(|e.openRequired| > 0, ObligationsOpen, reason);
    WhenMeans(Discovering in c.world.checkpoints, DiscoveryUnfinished, reason);
    WhenMeans(|c.board.obligations| == 0, NothingObliged, reason);
    WhenMeans(|conflicts| > 0, ConflictsStand, reason);
    WhenMeans(short, CoverageShort, reason);
  }

  lemma WhenMeans(condition: bool, reason: Reason, r: Reason)
    ensures r in When(condition, reason) <==> condition && r == reason
  {
  }

  // ---- Conclusions written down on freezing ----

  /** Everything asked for was met, every action brought something home, and discovery is complete. */
  ghost predicate IsSettled(c: Case) {
    && c.board.obligations != []
    && (forall o :: o in c.board.obligations && o.required ==> o.status == Satisfied)
    && (forall a :: a in c.board.actions ==> a.status in {Succeeded, Partial})
    && (forall s :: s in c.world.checkpoints ==> s == Discovered)
  }

  /** A complete run of a category that applies, about which no group speaks as a whole, at risk or in conflict. */
  ghost predicate IsUnspokenFor(c: Case, run: CoverageRun) {
    && run.status == Complete && run.applicability == Applicable
    && forall p :: p in EffectiveOf(c) && p.category == run.category ==>
         p.scope == Subject && !ConcludesRisk(p) && p.conclusion != Conflict
  }

  lemma SettledMeans(c: Case)
    ensures MayConclude(c) <==> IsSettled(c)
  {
    var b := c.board;
    assert forall k :: 0 <= k < |b.obligations| ==> b.obligations[k] in b.obligations;
    assert forall i :: 0 <= i < |b.actions| ==> b.actions[i] in b.actions;
    assert forall i :: 0 <= i < |c.world.checkpoints| ==> c.world.checkpoints[i] in c.world.checkpoints;
  }

  lemma UnspokenMeans(c: Case, run: CoverageRun)
    ensures NeedsConclusion(run, EffectiveOf(c)) <==> IsUnspokenFor(c, run)
  {
    hide EffectiveOf;
    forall p
      ensures SpeaksFor(p, run.category)
         <==> p.category == run.category && !(p.scope == Subject && !ConcludesRisk(p) && p.conclusion != Conflict)
    {
    }
  }

  /** What is written down about a coverage run. */
  predicate IsNoFindingOf(w: World, run: CoverageRun, a: Assessment) {
    && a.taskId == w.taskId && a.epochId == w.epochId && a.author == System && a.category == run.category
    && a.scope == ObservedCategory && a.subjectRef == None && a.verdict == NoObservedFinding
  }

  /** Which conclusions are written down, and what they say. */
  lemma ConclusionsAreReadOff(c: Case, mint: Mint, a: Assessment)
    ensures a in Conclusions(c, mint) <==>
      && IsSettled(c)
      && exists i: nat :: i < |c.world.coverage| && IsUnspokenFor(c, c.world.coverage[i])
           && IsNoFindingOf(c.world, c.world.coverage[i], a) && a.id == mint.id(i) && a.createdAt == mint.now
  {
    SettledMeans(c);
    ConclusionsAre(c, mint, a);
    hide EffectiveOf, Conclusions, MayConclude, IsSettled, NeedsConclusion, IsUnspokenFor;
    forall i: nat | i < |c.world.coverage|
      ensures IsConclusionFor(c.world, EffectiveOf(c), mint, i, a) <==>
        && IsUnspokenFor(c, c.world.coverage[i])
        && IsNoFindingOf(c.world, c.world.coverage[i], a) && a.id == mint.id(i) && a.createdAt == mint.now
    {
      UnspokenMeans(c, c.world.coverage[i]);
    }
    forall i: nat
      ensures IsConclusionFor(c.world, EffectiveOf(c), mint, i, a) ==> i < |c.world.coverage|
    {
    }
    hide IsConclusionFor;
    if i: nat :| IsConclusionFor(c.world, EffectiveOf(c), mint, i, a) {
      assert i < |c.world.coverage| && IsNoFindingOf(c.world, c.world.coverage[i], a);
    }
  }

  /** They follow the order of the coverage runs, one for each that calls for one. */
  lemma {:induction false} ConclusionsFollowCoverage(w: World, effective: seq<Projection>, mint: Mint, n: nat)
    returns (places: seq<nat>)
    requires n <= |w.coverage|
    ensures var written := ConclusionsUpTo(w, effective, mint, n);
      && |places| == |written|
      && (forall k :: 0 <= k < |places| ==> places[k] < n && written[k].id == mint.id(places[k])
                                            && IsNoFindingOf(w, w.coverage[places[k]], written[k]))
      && (forall j, k :: 0 <= j < k < |places| ==> places[j] < places[k])
  {
    hide NeedsConclusion;
    places := [];
    if n > 0 {
      places := ConclusionsFollowCoverage(w, effective, mint, n - 1);
      if NeedsConclusion(w.coverage[n - 1], effective) {
        places := places + [n - 1];
      }
    }
  }

  // ---- Freezing with limits ----

  /**
    Whatever was not begun is blocked for the reason, and whatever was awaited is limited for it;
    nothing else changes.
  */
  lemma LimitsAreReadOff(b: Board, reason: string)
    ensures var after := WithLimits(b, reason);
      && |after.actions| == |b.actions| && |after.obligations| == |b.obligations|
      && (forall i :: 0 <= i < |b.actions| ==>
            after.actions[i] == if b.actions[i].status != Ready then b.actions[i]
                                else b.actions[i].(status := Blocked, revision := b.actions[i].revision + 1,
                                                   error := Some(reason)))
      && (forall k :: 0 <= k < |b.obligations| ==>
            if b.obligations[k].status !in {Open, Queued} then after.obligations[k] == b.obligations[k]
            else
              && after.obligations[k] == b.obligations[k].(status := Limited, gapRefs := after.obligations[k].gapRefs)
              && forall gap ::
                   gap in after.obligations[k].gapRefs <==> gap in b.obligations[k].gapRefs || gap == reason)
  {
    hide Deduplicated;
    var after := WithLimits(b, reason);
    forall k | 0 <= k < |b.obligations|
      ensures forall gap :: gap in Deduplicated(b.obligations[k].gapRefs + [reason])
                       <==> gap in b.obligations[k].gapRefs || gap == reason
    {
      ExecutorTheorems.DeduplicatedMembers(b.obligations[k].gapRefs + [reason]);
    }
  }
}
