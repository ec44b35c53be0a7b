/** What freezing an investigation cannot hide, and exactly when it ends clean. */
module CompletionTheorems {
  import opened Wrappers
  import opened Ledger
  import opened LedgerTheorems
  import opened LedgerExtension
  import opened Selection
  import opened Investigation
  import opened Executor
  import opened Completion

  /** New ids are new, and relations join recorded assessments. */
  ghost predicate Sound(c: Case, mint: Mint) {
    && Grounded(c.assessments, c.world.relations)
    && (forall i: nat, j: nat :: mint.id(i) == mint.id(j) ==> i == j)
    && (forall i: nat, a :: a in c.assessments ==> a.id != mint.id(i))
  }

  // ---- What is added ----

  ghost predicate IsConclusionFor(w: World, effective: seq<Projection>, mint: Mint, i: nat, a: Assessment) {
    i < |w.coverage| && NeedsConclusion(w.coverage[i], effective)
      && a == NothingObserved(w, w.coverage[i], mint.id(i), mint.now)
  }

  lemma {:induction false} ConclusionsMembers(w: World, effective: seq<Projection>, mint: Mint, n: nat, a: Assessment)
    requires n <= |w.coverage|
    ensures a in ConclusionsUpTo(w, effective, mint, n) <==> exists i: nat ::
      i < n && IsConclusionFor(w, effective, mint, i, a)
  {
    hide NeedsConclusion, NothingObserved;
    if n > 0 {
      ConclusionsMembers(w, effective, mint, n - 1, a);
      if IsConclusionFor(w, effective, mint, n - 1, a) {
        assert a in ConclusionsUpTo(w, effective, mint, n);
      }
    }
  }

  lemma ConclusionsAre(c: Case, mint: Mint, a: Assessment)
    ensures a in Conclusions(c, mint) <==> MayConclude(c) && exists i: nat ::
      IsConclusionFor(c.world, EffectiveOf(c), mint, i, a)
  {
    hide NeedsConclusion, NothingObserved, EffectiveOf;
    ConclusionsMembers(c.world, EffectiveOf(c), mint, |c.world.coverage|, a);
  }

  /** Whoever speaks for a whole category keeps a conclusion about it from being added. */
  lemma NobodyWasAsked(c: Case, a: Assessment, run: CoverageRun)
    requires a in c.assessments && NeedsConclusion(run, EffectiveOf(c))
    ensures a.category != run.category || !a.scope.ObservedCategory?
  {
    ProjectionDescribesItsGroup(c.assessments, c.world.relations, a);
    var p := ProjectionOf(c.assessments, c.world.relations, KeyOf(a));
    hide ProjectionOf;
    assert p in EffectiveOf(c);
    assert !SpeaksFor(p, run.category);
  }

  lemma ConclusionsStandApart(c: Case, mint: Mint)
    requires Sound(c, mint)
    ensures StandApart(c.assessments, Conclusions(c, mint))
  {
    hide EffectiveOf, NeedsConclusion, Conclusions, KeyOf;
    forall a, e | a in c.assessments && e in Conclusions(c, mint)
      ensures a.id != e.id && KeyOf(a) != KeyOf(e)
    {
      ConclusionsAre(c, mint, e);
      var i: nat :| IsConclusionFor(c.world, EffectiveOf(c), mint, i, e);
      NobodyWasAsked(c, a, c.world.coverage[i]);
      if KeyOf(a) == KeyOf(e) {
        KeyIsInjective(a, e);
      }
    }
  }

  /** Every projection that was there is still there, unchanged, and the others only say that nothing was found. */
  lemma ProjectionsAfter(c: Case, mint: Mint, p: Projection)
    requires Sound(c, mint)
    ensures p in EffectiveOf(c) ==> p in EffectiveOf(Materialised(c, mint))
    ensures p in EffectiveOf(Materialised(c, mint)) && p !in EffectiveOf(c) ==>
      p.key !in GroupKeys(c.assessments) && p.conclusion == Concluded(NoObservedFinding) && p.scope.ObservedCategory?
      && exists i: nat, e :: IsConclusionFor(c.world, EffectiveOf(c), mint, i, e) && p.category == e.category
  {
    var extra := Conclusions(c, mint);
    var all, relations := c.assessments + extra, c.world.relations;
    ConclusionsStandApart(c, mint);
    EffectiveMembers(c.assessments, relations, p);
    EffectiveMembers(all, relations, p);
    GroupsAreInhabited(c.assessments);
    if InGroup(c.assessments, p.key) != [] {
      OldGroupsUntouched(c.assessments, extra, relations, p.key);
    } else if p in EffectiveOf(Materialised(c, mint)) {
      NewProjectionSaysNothingFound(c, mint, p);
    }
  }

  lemma NewProjectionSaysNothingFound(c: Case, mint: Mint, p: Projection)
    requires p in EffectiveOf(Materialised(c, mint)) && InGroup(c.assessments, p.key) == []
    ensures p.conclusion == Concluded(NoObservedFinding) && p.scope.ObservedCategory?
    ensures exists i: nat, e :: IsConclusionFor(c.world, EffectiveOf(c), mint, i, e) && p.category == e.category
  {
    var extra := Conclusions(c, mint);
    var all, relations := c.assessments + extra, c.world.relations;
    EffectiveMembers(all, relations, p);
    GroupOfBoth(c.assessments, extra, p.key);
    InGroupMembers(extra, p.key);
    InGroupMembers(all, p.key);
    forall a | a in InGroup(all, p.key)
      ensures a.verdict.NoObservedFinding?
    {
      ConclusionsAre(c, mint, a);
    }
    UnanimousGroup(all, relations, p.key);
    var a := ProjectionHasAMember(all, relations, p);
    assert a in InGroup(all, p.key);
    ConclusionsAre(c, mint, a);
    var i: nat :| IsConclusionFor(c.world, EffectiveOf(c), mint, i, a);
  }

  /** Every coverage run that called for a conclusion has one in effect. */
  lemma ConclusionTakesEffect(c: Case, mint: Mint, i: nat)
    requires Sound(c, mint) && MayConclude(c) && i < |c.world.coverage|
    requires NeedsConclusion(c.world.coverage[i], EffectiveOf(c))
    ensures exists p :: p in EffectiveOf(Materialised(c, mint)) && IsNoFinding(p, c.world.coverage[i].category)
  {
    var e := NothingObserved(c.world, c.world.coverage[i], mint.id(i), mint.now);
    assert IsConclusionFor(c.world, EffectiveOf(c), mint, i, e);
    ConclusionsAre(c, mint, e);
    var all := c.assessments + Conclusions(c, mint);
    assert e in all;
    ProjectionDescribesItsGroup(all, c.world.relations, e);
    var p := ProjectionOf(all, c.world.relations, KeyOf(e));
    assert p in EffectiveOf(Materialised(c, mint)) && p.key == KeyOf(e);
    ProjectionsAfter(c, mint, p);
    if p in EffectiveOf(c) {
      assert SpeaksFor(p, c.world.coverage[i].category);
    }
    assert IsNoFinding(p, c.world.coverage[i].category);
  }

  // ---- Freezing hides nothing ----

  /** Findings, conflicts and everything else that decides about closing is read as before. */
  lemma FreezingHidesNothing(c: Case, mint: Mint)
    requires Sound(c, mint)
    ensures var before, after := Evaluate(c), Evaluate(Materialised(c, mint));
      && after.canClose == before.canClose && after.findings == before.findings && after.limited == before.limited
      && after.openRequired == before.openRequired && after.running == before.running
    ensures Keep(IsConflictProjection, EffectiveOf(Materialised(c, mint))) == Keep(IsConflictProjection, EffectiveOf(c))
    ensures Keep(IsRiskProjection, EffectiveOf(Materialised(c, mint))) == Keep(IsRiskProjection, EffectiveOf(c))
  {
    ConclusionsStandApart(c, mint);
    var extra, relations := Conclusions(c, mint), c.world.relations;
    assert EffectiveOf(c) == EffectiveProjections(c.assessments, relations);
    assert EffectiveOf(Materialised(c, mint)) == EffectiveProjections(c.assessments + extra, relations);
    forall p | p in EffectiveProjections(c.assessments + extra, relations) && p.key !in GroupKeys(c.assessments)
      ensures !IsConflictProjection(p) && !IsRiskProjection(p)
    {
      NewKeyMeansNew(c, p);
      ProjectionsAfter(c, mint, p);
    }
    hide *;
    SelectionUntouched(c.assessments, extra, relations, IsConflictProjection);
    SelectionUntouched(c.assessments, extra, relations, IsRiskProjection);
    SameReadings(c, mint);
  }

  lemma NewKeyMeansNew(c: Case, p: Projection)
    requires p.key !in GroupKeys(c.assessments)
    ensures p !in EffectiveOf(c)
  {
    EffectiveMembers(c.assessments, c.world.relations, p);
    GroupsAreInhabited(c.assessments);
  }

  lemma SameReadings(c: Case, mint: Mint)
    requires Keep(IsRiskProjection, EffectiveOf(Materialised(c, mint))) == Keep(IsRiskProjection, EffectiveOf(c))
    ensures var before, after := Evaluate(c), Evaluate(Materialised(c, mint));
      && after.canClose == before.canClose && after.findings == before.findings && after.limited == before.limited
      && after.openRequired == before.openRequired && after.running == before.running
  {
    hide EffectiveOf, Conclusions, LimitedUpTo, CategoriesConcluded, FellShortOfScope;
  }

  // ---- Exactly when the status changes ----

  lemma NoneKept<T>(wanted: T -> bool, s: seq<T>)
    ensures |Keep(wanted, s)| == 0 <==> forall i :: 0 <= i < |s| ==> !wanted(s[i])
  {
    KeepMembers(wanted, s);
    if |Keep(wanted, s)| > 0 {
      assert Keep(wanted, s)[0] in Keep(wanted, s);
    }
    assert forall i :: 0 <= i < |s| ==> s[i] in s;
  }

  lemma CanCloseMeans(c: Case)
    ensures Evaluate(c).canClose <==> MayClose(c)
  {
    hide EffectiveOf, LimitedUpTo, CategoriesConcluded, FellShortOfScope, Keep, EffectiveIds, IsOpenRequired, IsPending;
    NoneKept(IsActive, c.board.actions);
    NoneKept(IsOpenRequired, c.board.obligations);
  }

  lemma SomebodyIsInEffect(c: Case, p: Projection)
    requires p in EffectiveOf(c)
    ensures |p.effective| > 0
  {
    EffectiveMembers(c.assessments, c.world.relations, p);
  }

  lemma {:induction false} NoIdsMeansNobody(projections: seq<Projection>)
    requires forall p :: p in projections ==> |p.effective| > 0
    ensures EffectiveIds(projections) == [] <==> projections == []
  {
    if projections != [] {
      assert projections[0] in projections;
    }
  }

  /** The findings are empty exactly when no group concludes on a risk. */
  lemma FindingsAreTheRisks(c: Case)
    ensures Evaluate(c).findings == [] <==> forall p :: p in EffectiveOf(c) ==> !IsRiskProjection(p)
  {
    var risks := Keep(IsRiskProjection, EffectiveOf(c));
    KeepMembers(IsRiskProjection, EffectiveOf(c));
    forall p | p in risks
      ensures |p.effective| > 0
    {
      SomebodyIsInEffect(c, p);
    }
    NoIdsMeansNobody(risks);
    assert |risks| > 0 ==> risks[0] in risks;
    assert Evaluate(c).findings == EffectiveIds(risks);
  }

  /** Everything asked for was done in full and no group concludes on a risk or a conflict. */
  ghost predicate NothingAmiss(c: Case) {
    && MayClose(c)
    && !FellShortOfScope(c, Evaluate(c).limited, Keep(IsConflictProjection, EffectiveOf(c)))
    && forall p :: p in EffectiveOf(c) ==> !IsRiskProjection(p)
  }

  lemma {:induction false} LimitedUpToMeans(w: World, obligations: seq<Obligation>, n: nat, id: string)
    requires n <= |obligations|
    ensures id in LimitedUpTo(w, obligations, n) <==>
      || (exists k :: 0 <= k < |obligations| && obligations[k].id == id && IsLimitedRequired(obligations[k]))
      || (exists k :: 0 <= k < n && obligations[k].id == id && IsUnbacked(w, obligations[k]))
  {
    hide IsUnbacked, IsLimitedRequired;
    if n == 0 {
      var kept := Keep(IsLimitedRequired, obligations);
      KeepMembers(IsLimitedRequired, obligations);
      if id in ObligationIds(kept) {
        var i :| 0 <= i < |kept| && kept[i].id == id;
        assert kept[i] in obligations;
      }
      if k :| 0 <= k < |obligations| && obligations[k].id == id && IsLimitedRequired(obligations[k]) {
        assert obligations[k] in kept;
        var i :| 0 <= i < |kept| && kept[i] == obligations[k];
        assert ObligationIds(kept)[i] == id;
      }
    } else {
      LimitedUpToMeans(w, obligations, n - 1, id);
    }
  }

  /**
    What counts as limited: the required obligations that were limited or cancelled, and the required
    evidence obligations that count as satisfied without any valid evidence.
  */
  lemma LimitedMeans(c: Case, id: string)
    ensures id in Evaluate(c).limited <==>
      exists k :: 0 <= k < |c.board.obligations| && c.board.obligations[k].id == id
        && (IsLimitedRequired(c.board.obligations[k]) || IsUnbacked(c.world, c.board.obligations[k]))
  {
    hide EffectiveOf, IsUnbacked, IsLimitedRequired;
    LimitedUpToMeans(c.world, c.board.obligations, |c.board.obligations|, id);
    assert Evaluate(c).limited == LimitedUpTo(c.world, c.board.obligations, |c.board.obligations|);
  }

  /**
    The status of a case: open iff it may not close, limited if it fell short, and closed with
    findings iff some group then concludes on a risk.
  */
  lemma StatusMeans(c: Case)
    ensures var short := FellShortOfScope(c, Evaluate(c).limited, Keep(IsConflictProjection, EffectiveOf(c)));
      && (Evaluate(c).status.StillOpen? <==> !MayClose(c))
      && (MayClose(c) && short ==> Evaluate(c).status.LimitedScope?)
      && (Evaluate(c).status.ClosedWithFindings? <==> MayClose(c) && !short && exists p ::
          p in EffectiveOf(c) && IsRiskProjection(p))
  {
    CanCloseMeans(c);
    FindingsAreTheRisks(c);
    hide EffectiveOf, LimitedUpTo, CategoriesConcluded, FellShortOfScope, MayClose;
  }

  lemma CleanStatusMeans(c: Case)
    ensures Evaluate(c).status.ClosedNoObservedFinding?
      <==> NothingAmiss(c) && CategoriesConcluded(c.world.coverage, EffectiveOf(c))
    ensures NothingAmiss(c) && !CategoriesConcluded(c.world.coverage, EffectiveOf(c)) ==>
      Evaluate(c).status.LimitedScope?
  {
    CanCloseMeans(c);
    FindingsAreTheRisks(c);
    hide EffectiveOf, LimitedUpTo, CategoriesConcluded, FellShortOfScope, MayClose;
  }

  lemma NothingAmissEitherWay(c: Case, mint: Mint)
    requires Sound(c, mint)
    ensures NothingAmiss(Materialised(c, mint)) <==> NothingAmiss(c)
  {
    hide EffectiveOf, Conclusions, Evaluate, Keep, Sound, IsRiskProjection;
    FreezingHidesNothing(c, mint);
    KeepMembers(IsRiskProjection, EffectiveOf(c));
    KeepMembers(IsRiskProjection, EffectiveOf(Materialised(c, mint)));
  }

  /** A complete, applicable coverage run of the category calls for a conclusion that may be given. */
  ghost predicate CalledFor(c: Case, category: Category) {
    && MayConclude(c)
    && exists j :: 0 <= j < |c.world.coverage| && c.world.coverage[j].category == category
         && NeedsConclusion(c.world.coverage[j], EffectiveOf(c))
  }

  /** A coverage run ends up concluded if it was, or if it is complete, applicable and unspoken for. */
  lemma ConcludedAfterIff(c: Case, mint: Mint, i: nat)
    requires Sound(c, mint) && i < |c.world.coverage|
    ensures IsConcluded(c.world.coverage[i], EffectiveOf(Materialised(c, mint))) <==>
            IsConcluded(c.world.coverage[i], EffectiveOf(c))
            || CalledFor(c, c.world.coverage[i].category)
  {
    var run := c.world.coverage[i];
    if p :| p in EffectiveOf(c) && IsNoFinding(p, run.category) {
      ProjectionsAfter(c, mint, p);
    }
    if CalledFor(c, run.category) {
      var j :| 0 <= j < |c.world.coverage| && c.world.coverage[j].category == run.category
        && NeedsConclusion(c.world.coverage[j], EffectiveOf(c));
      ConclusionTakesEffect(c, mint, j);
    }
    if p :| p in EffectiveOf(Materialised(c, mint)) && IsNoFinding(p, run.category) && p !in EffectiveOf(c) {
      AddedProjectionIsCalledFor(c, mint, p);
    }
  }

  lemma AddedProjectionIsCalledFor(c: Case, mint: Mint, p: Projection)
    requires Sound(c, mint) && p in EffectiveOf(Materialised(c, mint)) && p !in EffectiveOf(c)
    ensures CalledFor(c, p.category)
  {
    ProjectionsAfter(c, mint, p);
    assert !MayConclude(c) ==> c.assessments + Conclusions(c, mint) == c.assessments;
  }

  /**
    Exactly when freezing closes an investigation as clean, told from the case as it was: nothing is
    amiss, all coverage is complete, and each category has or may be given its conclusion.
  */
  lemma ClosesCleanIff(c: Case, mint: Mint)
    requires Sound(c, mint)
    ensures Evaluate(Materialised(c, mint)).status.ClosedNoObservedFinding? <==>
            NothingAmiss(c) && |c.world.coverage| > 0 && AllComplete(c.world.coverage)
            && forall i :: 0 <= i < |c.world.coverage| ==> MayBeConcluded(c, c.world.coverage[i])
  {
    CleanStatusMeans(Materialised(c, mint));
    NothingAmissEitherWay(c, mint);
    forall i | 0 <= i < |c.world.coverage| && AllComplete(c.world.coverage)
      ensures IsConcluded(c.world.coverage[i], EffectiveOf(Materialised(c, mint)))
        <==> MayBeConcluded(c, c.world.coverage[i])
    {
      ConcludedAfterIff(c, mint, i);
    }
    assert Materialised(c, mint).world == c.world;
    hide EffectiveOf, Conclusions, Evaluate, NothingAmiss, MayBeConcluded, IsConcluded;
  }

  ghost predicate MayBeConcluded(c: Case, run: CoverageRun) {
    || IsConcluded(run, EffectiveOf(c))
    || CalledFor(c, run.category)
  }

  /** Freezing moves the status only from limited to clean, and then all coverage is complete and nothing is amiss. */
  lemma StatusMovesOnlyToClean(c: Case, mint: Mint)
    requires Sound(c, mint)
    ensures Evaluate(Materialised(c, mint)).status != Evaluate(c).status ==>
      && Evaluate(c).status.LimitedScope? && Evaluate(Materialised(c, mint)).status.ClosedNoObservedFinding?
      && AllComplete(c.world.coverage)
      && forall p :: p in EffectiveOf(c) ==> !IsRiskProjection(p) && !IsConflictProjection(p)
  {
    var after := Materialised(c, mint);
    FreezingHidesNothing(c, mint);
    ClosesCleanIff(c, mint);
    CleanStatusMeans(c);
    CleanStatusMeans(after);
    NothingAmissEitherWay(c, mint);
    OnlyCleanDependsOnCoverage(c, after);
    if CategoriesConcluded(c.world.coverage, EffectiveOf(c)) {
      ConcludedStaysConcluded(c, mint);
    }
    KeepMembers(IsConflictProjection, EffectiveOf(c));
    hide EffectiveOf, Conclusions, Evaluate, IsConcluded;
  }

  /** Away from the clean end, the status is read off what materialising does not change. */
  lemma OnlyCleanDependsOnCoverage(c: Case, d: Case)
    requires d.board == c.board && d.world == c.world
    requires Evaluate(c).findings == Evaluate(d).findings && NothingAmiss(c) == NothingAmiss(d)
    requires Keep(IsConflictProjection, EffectiveOf(c)) == Keep(IsConflictProjection, EffectiveOf(d))
    ensures !NothingAmiss(c) ==> Evaluate(c).status == Evaluate(d).status
  {
    CanCloseMeans(c);
    CanCloseMeans(d);
    FindingsAreTheRisks(c);
    hide EffectiveOf, LimitedUpTo, CategoriesConcluded, FailedARequired, MayClose;
  }

  lemma ConcludedStaysConcluded(c: Case, mint: Mint)
    requires Sound(c, mint) && CategoriesConcluded(c.world.coverage, EffectiveOf(c))
    ensures CategoriesConcluded(c.world.coverage, EffectiveOf(Materialised(c, mint)))
  {
    forall i | 0 <= i < |c.world.coverage|
      ensures IsConcluded(c.world.coverage[i], EffectiveOf(Materialised(c, mint)))
    {
      ConcludedAfterIff(c, mint, i);
    }
  }

  // ---- Repetition and failure ----

  /** Concluding again adds nothing. */
  lemma ConcludingTwiceAddsNothing(c: Case, mint: Mint, later: Mint)
    requires Sound(c, mint)
    ensures Conclusions(Materialised(c, mint), later) == []
  {
    var after := Materialised(c, mint);
    if MayConclude(c) {
      forall i | 0 <= i < |c.world.coverage|
        ensures !NeedsConclusion(c.world.coverage[i], EffectiveOf(after))
      {
        var run := c.world.coverage[i];
        if NeedsConclusion(run, EffectiveOf(c)) {
          ConclusionTakesEffect(c, mint, i);
          var p :| p in EffectiveOf(after) && IsNoFinding(p, run.category);
          assert SpeaksFor(p, run.category);
        } else if p :| p in EffectiveOf(c) && SpeaksFor(p, run.category) {
          ProjectionsAfter(c, mint, p);
        }
      }
    }
    if Conclusions(after, later) != [] {
      var e := Conclusions(after, later)[0];
      ConclusionsAre(after, later, e);
    }
  }

  /** A case that may be concluded may also close, so a freeze that fails has written nothing down. */
  lemma FailedFreezeChangesNothing(c: Case, mint: Mint)
    ensures !Evaluate(Materialised(c, mint)).canClose ==> Materialised(c, mint) == c
  {
    hide Evaluate, EffectiveOf, ConclusionsUpTo;
    CanCloseMeans(Materialised(c, mint));
    if !MayConclude(c) {
      assert c.assessments + Conclusions(c, mint) == c.assessments;
    }
  }

  // ---- Freezing with limits ----

  /** Freezing with limits succeeds exactly unless something is still at work or nothing was ever asked. */
  lemma LimitsSufficeIff(c: Case, reason: string, mint: Mint)
    ensures Evaluate(Materialised(Limitedly(c, reason), mint)).canClose <==>
            (forall i :: 0 <= i < |c.board.actions| ==> !c.board.actions[i].status.Running?)
            && Discovering !in c.world.checkpoints && |c.board.obligations| > 0
  {
    var d := Limitedly(c, reason);
    CanCloseMeans(Materialised(d, mint));
    assert forall i :: 0 <= i < |c.board.actions| ==> (IsPending(d.board.actions[i].status)
                                                       <==> c.board.actions[i].status.Running?);
    assert forall k :: 0 <= k < |c.board.obligations| ==> !IsAwaited(d.board.obligations[k].status);
  }

  /** Something that was required had not been finished. */
  ghost predicate LeftUnfinished(b: Board) {
    exists k :: 0 <= k < |b.obligations| && b.obligations[k].required
      && (IsAwaited(b.obligations[k].status)
          || exists i ::
               0 <= i < |b.actions| && b.actions[i].status.Ready? && Serves(b.actions[i], b.obligations[k].id))
  }

  /** An investigation frozen with required work left is never called closed. */
  lemma LimitsNeverClose(c: Case, reason: string, mint: Mint)
    requires LeftUnfinished(c.board)
    ensures var status := Evaluate(Materialised(Limitedly(c, reason), mint)).status;
      status.StillOpen? || status.LimitedScope?
  {
    var d := Materialised(Limitedly(c, reason), mint);
    var k :| 0 <= k < |c.board.obligations| && c.board.obligations[k].required
      && (IsAwaited(c.board.obligations[k].status)
          || exists i ::
               && 0 <= i < |c.board.actions| && c.board.actions[i].status.Ready?
               && Serves(c.board.actions[i], c.board.obligations[k].id));
    var o := c.board.obligations[k];
    var e := Evaluate(d);
    assert FellShortOfScope(d, e.limited, Keep(IsConflictProjection, EffectiveOf(d))) by {
      if IsAwaited(o.status) {
        assert IsLimitedRequired(d.board.obligations[k]);
        SomethingLimited(d.world, d.board.obligations, k, |d.board.obligations|);
      } else {
        var i :| 0 <= i < |c.board.actions| && c.board.actions[i].status.Ready? && Serves(c.board.actions[i], o.id);
        assert HasFailed(d.board.actions[i].status) && Serves(d.board.actions[i], d.board.obligations[k].id);
        assert FailedARequired(d.board);
      }
    }
    hide EffectiveOf, LimitedUpTo, CategoriesConcluded, FellShortOfScope, Materialised;
  }

  lemma {:induction false} SomethingLimited(w: World, obligations: seq<Obligation>, k: nat, n: nat)
    requires k < |obligations| && n <= |obligations| && IsLimitedRequired(obligations[k])
    ensures |LimitedUpTo(w, obligations, n)| > 0
  {
    if n == 0 {
      KeepMembers(IsLimitedRequired, obligations);
      assert obligations[k] in obligations;
    } else {
      SomethingLimited(w, obligations, k, n - 1);
    }
  }
}
