/** When an investigation may be closed, what it is then called, and how it is frozen. */
module Completion {
  import opened Wrappers
  import opened Ledger
  import opened LedgerExtension
  import opened Selection
  import opened ProjectionAlgorithm
  import opened Investigation
  import opened Executor

  datatype CheckpointStatus = Discovering | Discovered | DiscoveryLimited | DiscoveryFailed

  datatype CoverageStatus = Complete | Incomplete | Error | NotRun

  datatype Applicability = Applicable | NotApplicable | Unknown

  datatype CoverageRun = CoverageRun(category: Category, status: CoverageStatus, applicability: Applicability)

  datatype Evidence = Evidence(complete: bool, epochId: string, subjects: seq<string>)

  /** An edge of the relation graph between recorded objects. */
  datatype Link = Link(id: string, from: string, to: string)

  /** What freezing reads but never changes. */
  datatype World = World(
    taskId: string,
    epochId: string,
    checkpoints: seq<CheckpointStatus>,
    relations: seq<Relation>,
    coverage: seq<CoverageRun>,
    evidence: map<string, Evidence>,
    links: seq<Link>,
    trusted: set<string>)

  datatype Case = Case(world: World, board: Board, assessments: seq<Assessment>)

  datatype InvestigationStatus = StillOpen | LimitedScope | ClosedWithFindings | ClosedNoObservedFinding

  datatype Reason = ActionsAtWork | ObligationsOpen | DiscoveryUnfinished | NothingObliged | ConflictsStand
    | CoverageShort

  datatype Evaluation = Evaluation(
    canClose: bool,
    status: InvestigationStatus,
    reasons: seq<Reason>,
    openRequired: seq<string>,
    limited: seq<string>,
    running: seq<string>,
    findings: seq<string>)

  datatype Snapshot = Snapshot(
    status: InvestigationStatus,
    openRequired: seq<string>,
    running: seq<string>,
    limited: seq<string>,
    findings: seq<string>)

  datatype Session = Session(status: InvestigationStatus, stopped: bool, snapshotRef: Option<string>, revision: nat)

  // ---- Reading the records ----

  function ObligationIds(obligations: seq<Obligation>): seq<string> {
    seq(|obligations|, i requires 0 <= i < |obligations| => obligations[i].id)
  }

  function ActionIds(actions: seq<Action>): seq<string> {
    seq(|actions|, i requires 0 <= i < |actions| => actions[i].id)
  }

  function EffectiveIds(projections: seq<Projection>): seq<string> {
    if projections == [] then [] else projections[0].effective + EffectiveIds(projections[1..])
  }

  predicate IsOpenRequired(o: Obligation) {
    o.required && IsAwaited(o.status)
  }

  predicate IsLimitedRequired(o: Obligation) {
    o.required && (o.status.Limited? || o.status.Dropped?)
  }

  predicate Touching(link: Link, refs: seq<string>) {
    link.from in refs || link.to in refs
  }

  /** Complete evidence of this epoch about the obligation's subject, or joined to it by a trusted edge. */
  predicate Backs(w: World, o: Obligation, ref: string) {
    && ref in w.evidence
    && var item := w.evidence[ref];
    && item.complete && item.epochId == w.epochId
    && ((exists s :: s in item.subjects && s in o.subjectRefs)
        || exists link ::
             link in w.links && link.id in w.trusted && Touching(link, item.subjects) && Touching(link, o.subjectRefs))
  }

  /** A required evidence obligation that counts as satisfied although no valid evidence backs it. */
  predicate IsUnbacked(w: World, o: Obligation) {
    o.required && o.status.Satisfied? && o.needsEvidence && !exists ref :: ref in o.resultRefs && Backs(w, o, ref)
  }

  /** The limited obligations once the first `n` obligations have been checked for evidence. */
  function LimitedUpTo(w: World, obligations: seq<Obligation>, n: nat): seq<string>
    requires n <= |obligations|
  {
    if n == 0 then ObligationIds(Keep(IsLimitedRequired, obligations))
    else
      var earlier := LimitedUpTo(w, obligations, n - 1);
      if IsUnbacked(w, obligations[n - 1]) then AddOnce(earlier, obligations[n - 1].id) else earlier
  }

  predicate IsRiskProjection(p: Projection) {
    p.conclusion.Concluded? && IsRisk(p.conclusion.verdict)
  }

  predicate IsConflictProjection(p: Projection) {
    p.conclusion.Conflict?
  }

  predicate FailedARequired(b: Board) {
    exists i, k :: 0 <= i < |b.actions| && 0 <= k < |b.obligations| && HasFailed(b.actions[i].status)
      && b.obligations[k].required && Serves(b.actions[i], b.obligations[k].id)
  }

  predicate IsNoFinding(p: Projection, category: Category) {
    p.category == category && p.scope.ObservedCategory? && p.conclusion == Concluded(NoObservedFinding)
  }

  predicate IsConcluded(run: CoverageRun, effective: seq<Projection>) {
    run.applicability.NotApplicable? || exists p :: p in effective && IsNoFinding(p, run.category)
  }

  predicate AllComplete(coverage: seq<CoverageRun>) {
    forall i :: 0 <= i < |coverage| ==> coverage[i].status.Complete?
  }

  predicate CategoriesConcluded(coverage: seq<CoverageRun>, effective: seq<Projection>) {
    |coverage| > 0 && AllComplete(coverage) && forall i :: 0 <= i < |coverage| ==> IsConcluded(coverage[i], effective)
  }

  predicate IsActive(a: Action) {
    IsPending(a.status)
  }

  predicate MayClose(c: Case) {
    && (forall i :: 0 <= i < |c.board.actions| ==> !IsPending(c.board.actions[i].status))
    && (forall k :: 0 <= k < |c.board.obligations| ==> !IsOpenRequired(c.board.obligations[k]))
    && Discovering !in c.world.checkpoints
    && |c.board.obligations| > 0
  }

  predicate FellShortOfScope(c: Case, limited: seq<string>, conflicts: seq<Projection>) {
    |limited| > 0 || DiscoveryLimited in c.world.checkpoints || DiscoveryFailed in c.world.checkpoints
    || |conflicts| > 0 || FailedARequired(c.board)
  }

  function When(condition: bool, reason: Reason): seq<Reason> {
    if condition then [reason] else []
  }

  /** The evaluation of a case, given the effective projections of its ledger. */
  function EvaluateWith(c: Case, effective: seq<Projection>): Evaluation {
    var running := ActionIds(Keep(IsActive, c.board.actions));
    var openRequired := ObligationIds(Keep(IsOpenRequired, c.board.obligations));
    var limited := LimitedUpTo(c.world, c.board.obligations, |c.board.obligations|);
    var findings := EffectiveIds(Keep(IsRiskProjection, effective));
    var conflicts := Keep(IsConflictProjection, effective);
    var unfinished := Discovering in c.world.checkpoints;
    var canClose := |running| == 0 && |openRequired| == 0 && !unfinished && |c.board.obligations| > 0;
    var concluded := CategoriesConcluded(c.world.coverage, effective);
    var status :=
      if !canClose then StillOpen
      else if FellShortOfScope(c, limited, conflicts) then LimitedScope
      else if |findings| > 0 then ClosedWithFindings
      else if concluded then ClosedNoObservedFinding
      else LimitedScope;
    var short := canClose && !FellShortOfScope(c, limited, conflicts) && |findings| == 0 && !concluded;
    var reasons := When(|running| > 0, ActionsAtWork) + When(|openRequired| > 0, ObligationsOpen)
      + When(unfinished, DiscoveryUnfinished) + When(|c.board.obligations| == 0, NothingObliged)
      + When(|conflicts| > 0, ConflictsStand) + When(short, CoverageShort);
    Evaluation(canClose, status, reasons, openRequired, limited, running, findings)
  }

  ghost function EffectiveOf(c: Case): seq<Projection> {
    EffectiveProjections(c.assessments, c.world.relations)
  }

  ghost function Evaluate(c: Case): Evaluation {
    EvaluateWith(c, EffectiveOf(c))
  }

  method LimitedObligations(w: World, obligations: seq<Obligation>) returns (limited: seq<string>)
    ensures limited == LimitedUpTo(w, obligations, |obligations|)
  {
    limited := ObligationIds(Keep(IsLimitedRequired, obligations));
    for i := 0 to |obligations|
      invariant limited == LimitedUpTo(w, obligations, i)
    {
      if IsUnbacked(w, obligations[i]) && obligations[i].id !in limited {
        limited := limited + [obligations[i].id];
      }
    }
  }

  // ---- Category conclusions ----

  /** Everything asked for was done, and nothing is left that could still bring something up. */
  predicate MayConclude(c: Case) {
    && |c.board.obligations| > 0
    && (forall k :: 0 <= k < |c.board.obligations| && c.board.obligations[k].required ==>
        c.board.obligations[k].status.Satisfied?)
    && (forall i :: 0 <= i < |c.board.actions| ==>
          c.board.actions[i].status.Succeeded? || c.board.actions[i].status.Partial?)
    && (forall i :: 0 <= i < |c.world.checkpoints| ==> c.world.checkpoints[i].Discovered?)
  }

  /** A projection that speaks for its category, or against calling it clean. */
  predicate SpeaksFor(p: Projection, category: Category) {
    p.category == category && (p.scope.ObservedCategory? || IsRiskProjection(p) || IsConflictProjection(p))
  }

  predicate NeedsConclusion(run: CoverageRun, effective: seq<Projection>) {
    run.status.Complete? && run.applicability.Applicable? && !exists p :: p in effective && SpeaksFor(p, run.category)
  }

  /** A source of new ids, one for each coverage run, and the present time. */
  datatype Mint = Mint(id: nat -> string, now: Stamp)

  function NothingObserved(w: World, run: CoverageRun, id: string, now: Stamp): Assessment {
    Assessment(id, w.taskId, w.epochId, System, run.category, ObservedCategory, None, NoObservedFinding, now)
  }

  /** The conclusions that the first `n` coverage runs call for. */
  function ConclusionsUpTo(w: World, effective: seq<Projection>, mint: Mint, n: nat): seq<Assessment>
    requires n <= |w.coverage|
  {
    if n == 0 then []
    else
      ConclusionsUpTo(w, effective, mint, n - 1)
      + if NeedsConclusion(w.coverage[n - 1], effective) then
        [NothingObserved(w, w.coverage[n - 1], mint.id(n - 1), mint.now)] else []
  }

  ghost function Conclusions(c: Case, mint: Mint): seq<Assessment> {
    if MayConclude(c) then ConclusionsUpTo(c.world, EffectiveOf(c), mint, |c.world.coverage|) else []
  }

  /** The case once its deterministic category conclusions have been written down. */
  ghost function Materialised(c: Case, mint: Mint): Case {
    c.(assessments := c.assessments + Conclusions(c, mint))
  }

  // ---- Freezing with limits ----

  function BlockAllReady(actions: seq<Action>, reason: string, n: nat): (blocked: seq<Action>)
    requires n <= |actions|
    ensures |blocked| == |actions|
  {
    seq(|actions|, i requires 0 <= i < |actions| => if i < n && actions[i].status.Ready? then
        BlockedBy(actions[i], reason) else actions[i])
  }

  function LimitedFor(o: Obligation, reason: string): Obligation {
    o.(status := Limited, gapRefs := Deduplicated(o.gapRefs + [reason]))
  }

  function LimitAllAwaited(obligations: seq<Obligation>, reason: string, n: nat): (limited: seq<Obligation>)
    requires n <= |obligations|
    ensures |limited| == |obligations|
  {
    seq(|obligations|, k requires 0 <= k < |obligations| =>
      if k < n && IsAwaited(obligations[k].status) then LimitedFor(obligations[k], reason) else obligations[k])
  }

  function WithLimits(b: Board, reason: string): Board {
    Board(BlockAllReady(b.actions, reason, |b.actions|), LimitAllAwaited(b.obligations, reason, |b.obligations|))
  }

  function SnapshotOf(e: Evaluation): Snapshot {
    Snapshot(e.status, e.openRequired, e.running, e.limited, e.findings)
  }

  /** What a snapshot tells of an evaluation. */
  predicate Tells(snapshot: Snapshot, e: Evaluation) {
    && snapshot.status == e.status && snapshot.openRequired == e.openRequired && snapshot.running == e.running
    && snapshot.limited == e.limited && snapshot.findings == e.findings
  }

  /** The session, if there is one, has stopped with the status of the snapshot and points at it. */
  predicate Points(before: Option<Session>, after: Option<Session>, snapshot: Snapshot, snapshotRef: string) {
    if before.None? then after == None
    else
      && after.Some? && after.value.stopped && after.value.status == snapshot.status
      && after.value.snapshotRef == Some(snapshotRef) && after.value.revision == before.value.revision + 1
  }

  class InvestigationRecord {
    const world: World
    var board: Board
    var assessments: seq<Assessment>
    var snapshots: map<string, Snapshot>
    var session: Option<Session>

    constructor (world: World, board: Board, assessments: seq<Assessment>, session: Option<Session>)
      ensures Current() == Case(world, board, assessments) && snapshots == map[] && this.session == session
    {
      this.world, this.board, this.assessments, this.snapshots, this.session :=
        world, board, assessments, map[], session;
    }

    function Current(): Case
      reads this
    {
      Case(world, board, assessments)
    }

    method EvaluateNow() returns (e: Evaluation)
      ensures e == Evaluate(Current())
    {
      hide Keep, CategoriesConcluded, FellShortOfScope, EffectiveProjections, LimitedUpTo, ActionIds, ObligationIds,
        EffectiveIds;
      var effective := ProjectEffectiveAssessments(assessments, world.relations);
      var running := ActionIds(Keep(IsActive, board.actions));
      var openRequired := ObligationIds(Keep(IsOpenRequired, board.obligations));
      var limited := LimitedObligations(world, board.obligations);
      var findings := EffectiveIds(Keep(IsRiskProjection, effective));
      var conflicts := Keep(IsConflictProjection, effective);
      var unfinished := Discovering in world.checkpoints;
      var reasons := When(|running| > 0, ActionsAtWork) + When(|openRequired| > 0, ObligationsOpen)
        + When(unfinished, DiscoveryUnfinished) + When(|board.obligations| == 0, NothingObliged)
        + When(|conflicts| > 0, ConflictsStand);
      var canClose := |running| == 0 && |openRequired| == 0 && !unfinished && |board.obligations| > 0;
      var status := StillOpen;
      if canClose && FellShortOfScope(Current(), limited, conflicts) {
        status := LimitedScope;
      } else if canClose && |findings| > 0 {
        status := ClosedWithFindings;
      } else if canClose {
        var concluded := CategoriesConcluded(world.coverage, effective);
        status := if concluded then ClosedNoObservedFinding else LimitedScope;
        reasons := reasons + When(!concluded, CoverageShort);
      }
      e := Evaluation(canClose, status, reasons, openRequired, limited, running, findings);
    }

    method MaterialiseConclusions(mint: Mint)
      modifies this`assessments
      ensures Current() == Materialised(old(Current()), mint)
    {
      hide MayConclude, SpeaksFor, NothingObserved, EffectiveProjections;
      if !MayConclude(Current()) {
        return;
      }
      ghost var before := assessments;
      var effective := ProjectEffectiveAssessments(assessments, world.relations);
      for i := 0 to |world.coverage|
        invariant assessments == before + ConclusionsUpTo(world, effective, mint, i)
      {
        var run := world.coverage[i];
        if run.status.Complete? && run.applicability.Applicable? {
          if !exists p :: p in effective && SpeaksFor(p, run.category) {
            assessments := assessments + [NothingObserved(world, run, mint.id(i), mint.now)];
          }
        }
      }
    }

    /** Freezes the investigation under a new snapshot, or says why it cannot end. */
    method Freeze(snapshotRef: string, mint: Mint) returns (result: Result<Snapshot, seq<Reason>>)
      modifies this
      ensures Current() == Materialised(old(Current()), mint)
      ensures var e := Evaluate(Materialised(old(Current()), mint));
        if e.canClose
        then result == Ok(SnapshotOf(e)) && snapshots == old(snapshots)[snapshotRef := SnapshotOf(e)]
             && session == Stopped(old(session), e.status, snapshotRef)
        else result == Err(e.reasons) && snapshots == old(snapshots) && session == old(session)
      ensures result.Ok? ==> Tells(result.value, Evaluate(Current()))
      ensures result.Ok? ==> Points(old(session), session, result.value, snapshotRef)
    {
      MaterialiseConclusions(mint);
      var e := EvaluateNow();
      if !e.canClose {
        return Err(e.reasons);
      }
      snapshots := snapshots[snapshotRef := SnapshotOf(e)];
      if session.Some? {
        session := Stopped(session, e.status, snapshotRef);
      }
      return Ok(SnapshotOf(e));
    }

    /** Freezes what there is: whatever was not begun is blocked, whatever was awaited is limited. */
    method FreezeWithLimits(reason: string, snapshotRef: string, mint: Mint)
      returns (result: Result<Snapshot, seq<Reason>>)
      modifies this
      ensures AlreadyFrozen(old(session), old(snapshots)).Some? ==>
        && result == Ok(AlreadyFrozen(old(session), old(snapshots)).value)
        && Current() == old(Current()) && snapshots == old(snapshots) && session == old(session)
      ensures old(session).Some? && old(session).value.snapshotRef.Some?
              && old(session).value.snapshotRef.value in old(snapshots) ==>
        && result == Ok(old(snapshots)[old(session).value.snapshotRef.value])
        && Current() == old(Current()) && snapshots == old(snapshots) && session == old(session)
      ensures AlreadyFrozen(old(session), old(snapshots)).None? && result.Ok? ==>
        Tells(result.value, Evaluate(Current())) && Points(old(session), session, result.value, snapshotRef)
      ensures AlreadyFrozen(old(session), old(snapshots)).None? ==>
        && Current() == Materialised(Limitedly(old(Current()), reason), mint)
        && var e := Evaluate(Current());
        if e.canClose
        then result == Ok(SnapshotOf(e)) && snapshots == old(snapshots)[snapshotRef := SnapshotOf(e)]
             && session == Stopped(old(session), e.status, snapshotRef)
        else result == Err(e.reasons) && snapshots == old(snapshots) && session == old(session)
    {
      var frozen := AlreadyFrozen(session, snapshots);
      if frozen.Some? {
        return Ok(frozen.value);
      }
      var actions := board.actions;
      for i := 0 to |actions|
        invariant board == Board(BlockAllReady(actions, reason, i), old(board).obligations)
        invariant assessments == old(assessments) && snapshots == old(snapshots) && session == old(session)
      {
        if actions[i].status.Ready? {
          board := board.(actions := board.actions[i := BlockedBy(actions[i], reason)]);
        }
      }
      var obligations := board.obligations;
      for k := 0 to |obligations|
        invariant board == Board(BlockAllReady(actions, reason, |actions|), LimitAllAwaited(obligations, reason, k))
        invariant assessments == old(assessments) && snapshots == old(snapshots) && session == old(session)
      {
        if IsAwaited(obligations[k].status) {
          board := board.(obligations := board.obligations[k := LimitedFor(obligations[k], reason)]);
        }
      }
      result := Freeze(snapshotRef, mint);
    }
  }

  function Limitedly(c: Case, reason: string): Case {
    c.(board := WithLimits(c.board, reason))
  }

  function Stopped(session: Option<Session>, status: InvestigationStatus, snapshotRef: string): Option<Session> {
    match session
    case None => None
    case Some(s) => Some(Session(status, true, Some(snapshotRef), s.revision + 1))
  }

  /** The snapshot the session already points at. */
  function AlreadyFrozen(session: Option<Session>, snapshots: map<string, Snapshot>): Option<Snapshot> {
    if session.Some? && session.value.snapshotRef.Some? && session.value.snapshotRef.value in snapshots
    then Some(snapshots[session.value.snapshotRef.value]) else None
  }
}
