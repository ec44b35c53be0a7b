/** The executor: claims actions, runs them, and keeps their obligations decided. */
module Executor {
  import opened Wrappers
  import opened Investigation
  import opened RunOrder
  import Drain

  const REASON_UNREGISTERED: string := "operation is not registered"
  const REASON_FAILED: string := "operation failed"
  const REASON_PARTIAL: string := "operation was partial"

  /** The operations that are read page by page. */
  const PAGED: set<string> := {"enumerate", "relate"}

  /** The registered operations: each runs one page of an action and answers with result references. */
  type Tools = map<string, Action -> Drain.Tool<string>>

  /** An earlier successful run of the same operation on the same arguments. */
  datatype PriorResult = PriorResult(partial: bool, refs: seq<string>)

  type PriorRuns = Action -> Option<PriorResult>

  datatype Summary = Summary(executed: nat, succeeded: nat, partial: nat, failed: nat)

  /** How an action ends: its status, its references and the reason it fell short. */
  datatype Ending = Ending(status: ActionStatus, refs: seq<string>, reason: Option<string>)

  function EndingOf(drained: Drain.Drained<string>): Ending {
    match drained
    case Failed => Ending(Failed, [], Some(REASON_FAILED))
    case Finished(partial, refs) =>
      if partial then Ending(Partial, Deduplicated(refs), Some(REASON_PARTIAL))
         else Ending(Succeeded, Deduplicated(refs), None)
  }

  /** How an action ends, if nothing else touches the store meanwhile. */
  function EndingFor(tools: Tools, prior: PriorRuns, action: Action): (ending: Ending)
    ensures ending.status.Succeeded? || ending.status.Partial? || ending.status.Failed?
  {
    if action.operation !in tools then Ending(Failed, [], Some(REASON_UNREGISTERED))
    else
      var paged := action.operation in PAGED;
      var reusable := if paged then None else prior(action);
      if reusable.Some? then EndingOf(Drain.Finished(reusable.value.partial, reusable.value.refs))
      else EndingOf(Drain.DrainFrom(tools[action.operation](action), paged, 0, None, false, []))
  }

  predicate DependencyDone(actions: seq<Action>, id: string) {
    exists i :: 0 <= i < |actions| && actions[i].id == id
      && (actions[i].status.Succeeded? || actions[i].status.Partial?)
  }

  predicate Claimable(actions: seq<Action>, authorization: string, eligible: Option<set<string>>, action: Action) {
    && action.status.Ready?
    && (eligible.Some? ==> action.id in eligible.value)
    && action.authorization == authorization
    && forall id :: id in action.dependsOn ==> DependencyDone(actions, id)
  }

  predicate HasFailed(status: ActionStatus) {
    status.Failed? || status.Blocked? || status.Cancelled?
  }

  predicate DependencyFailed(actions: seq<Action>, id: string) {
    exists i :: 0 <= i < |actions| && actions[i].id == id && HasFailed(actions[i].status)
  }

  predicate HasFailedDependency(actions: seq<Action>, action: Action) {
    exists id :: id in action.dependsOn && DependencyFailed(actions, id)
  }

  /** The first dependency that failed, which the reason for blocking names. */
  function FirstFailed(actions: seq<Action>, ids: seq<string>): (first: Option<string>)
    ensures first.Some? ==> first.value in ids && DependencyFailed(actions, first.value)
    ensures first.None? ==> forall id :: id in ids ==> !DependencyFailed(actions, id)
  {
    if ids == [] then None
    else if DependencyFailed(actions, ids[0]) then Some(ids[0])
    else FirstFailed(actions, ids[1..])
  }

  function Claimed(action: Action): Action {
    action.(status := Running, revision := action.revision + 1)
  }

  function Ended(action: Action, ending: Ending): Action {
    action.(status := ending.status, revision := action.revision + 1, resultRefs := ending.refs,
            error := if ending.reason.Some? && ending.reason.value != "" then ending.reason else action.error)
  }

  function BlockedBy(action: Action, reason: string): Action {
    action.(status := Blocked, revision := action.revision + 1, error := Some(reason))
  }

  /**
    What a run makes of the actions: a READY one is left alone, blocked, or claimed and ended the way
    its own operation ended; all others stay as they are.
  */
  ghost predicate IsRunOf(tools: Tools, prior: PriorRuns, before: seq<Action>, after: seq<Action>) {
    |after| == |before| && forall i :: 0 <= i < |before| ==> IsOutcomeOf(tools, prior, before[i], after[i])
  }

  ghost predicate IsOutcomeOf(tools: Tools, prior: PriorRuns, before: Action, after: Action) {
    || after == before
    || (before.status.Ready? && after.error.Some? && after == BlockedBy(before, after.error.value))
    || (before.status.Ready? && after == Ended(Claimed(before), EndingFor(tools, prior, Claimed(before))))
  }

  // ---- One step ----

  /** The board once action `i` has ended and the obligations in `served` have been decided. */
  function AfterEnd(b: Board, i: nat, ended: Action, served: seq<string>, limited: bool, refs: seq<string>,
                    reason: Option<string>): Board
    requires i < |b.actions|
  {
    var actions := b.actions[i := ended];
    Board(actions, Resolved(actions, served, limited, refs, reason, b.obligations))
  }

  /** The other actions at work on an obligation, once action `i` is over. */
  ghost predicate ServedByOthers(b: Board, i: nat, obligationId: string) {
    exists j :: 0 <= j < |b.actions| && j != i && Serves(b.actions[j], obligationId) && IsPending(b.actions[j].status)
  }

  /** Action `i` names an awaited obligation that is not decided with it, and nobody else works on it. */
  ghost predicate LeftAlone(b: Board, i: nat, served: seq<string>, o: Obligation)
    requires i < |b.actions|
  {
    IsAwaited(o.status) && Serves(b.actions[i], o.id) && o.id !in served && !ServedByOthers(b, i, o.id)
  }

  /** An action that was at work ends. */
  ghost predicate Ends(b: Board, i: nat, ended: Action, limited: bool) {
    && i < |b.actions| && IsPending(b.actions[i].status)
    && ActionDevelops(b.actions[i], ended) && !IsPending(ended.status)
    && limited == FellShort(ended.status)
  }

  lemma StillServedAfter(b: Board, i: nat, ended: Action, id: string)
    requires i < |b.actions| && !IsPending(ended.status) && ended.obligationIds == b.actions[i].obligationIds
    ensures StillServed(b.actions[i := ended], id) <==> ServedByOthers(b, i, id)
    ensures Named(b.actions[i := ended], id) <==> Named(b.actions, id)
    ensures FellShort(ended.status) && Serves(ended, id) ==> SomeFellShort(b.actions[i := ended], id)
  {
    var after := b.actions[i := ended];
    if StillServed(after, id) {
      var j :| 0 <= j < |after| && Serves(after[j], id) && IsPending(after[j].status);
      assert j != i && after[j] == b.actions[j];
    }
    if ServedByOthers(b, i, id) {
      var j :| 0 <= j < |b.actions| && j != i && Serves(b.actions[j], id) && IsPending(b.actions[j].status);
      assert after[j] == b.actions[j];
    }
    if Named(after, id) {
      var j :| 0 <= j < |after| && Serves(after[j], id);
      assert Serves(b.actions[j], id);
    }
    if Named(b.actions, id) {
      var j :| 0 <= j < |b.actions| && Serves(b.actions[j], id);
      assert Serves(after[j], id);
    }
    if FellShort(ended.status) && Serves(ended, id) {
      assert after[i] == ended;
    }
  }

  /**
    Ending an action never forgets an obligation exactly when each awaited obligation it names is
    either decided with it or still served by another action.
  */
  lemma EndForgetsNobodyIff(b: Board, i: nat, ended: Action, served: seq<string>, limited: bool, refs: seq<string>,
                            reason: Option<string>)
    requires NobodyForgotten(b) && Ends(b, i, ended, limited)
    ensures NobodyForgotten(AfterEnd(b, i, ended, served, limited, refs, reason)) <==>
            forall k :: 0 <= k < |b.obligations| ==> !LeftAlone(b, i, served, b.obligations[k])
  {
    var after := AfterEnd(b, i, ended, served, limited, refs, reason);
    forall k | 0 <= k < |b.obligations|
      ensures && IsAwaited(after.obligations[k].status) && Named(after.actions, after.obligations[k].id)
              && !StillServed(after.actions, after.obligations[k].id)
              <==> LeftAlone(b, i, served, b.obligations[k])
    {
      var o := b.obligations[k];
      StillServedAfter(b, i, ended, o.id);
      HasPendingMeans(after.actions, o.id);
      assert after.obligations[k].id == o.id;
      if IsAwaited(o.status) && Named(b.actions, o.id) && !Serves(b.actions[i], o.id) {
        var j :| 0 <= j < |b.actions| && Serves(b.actions[j], o.id) && IsPending(b.actions[j].status);
        assert ServedByOthers(b, i, o.id);
      }
      if Serves(b.actions[i], o.id) {
        assert Named(b.actions, o.id);
      }
    }
  }

  /** Ending an action decides an obligation only by what became of everything that names it. */
  lemma EndDevelops(b: Board, i: nat, ended: Action, served: seq<string>, limited: bool, refs: seq<string>,
                    reason: Option<string>)
    requires Ends(b, i, ended, limited) && forall id :: id in served ==> Serves(b.actions[i], id)
    ensures Develops(b, AfterEnd(b, i, ended, served, limited, refs, reason))
  {
    var after := AfterEnd(b, i, ended, served, limited, refs, reason);
    forall k | 0 <= k < |b.obligations|
      ensures ObligationDevelops(after.actions, b.obligations[k], after.obligations[k])
    {
      var o := b.obligations[k];
      HasPendingMeans(after.actions, o.id);
      StillServedAfter(b, i, ended, o.id);
    }
    forall j | 0 <= j < |b.actions|
      ensures ActionDevelops(b.actions[j], after.actions[j])
    {
    }
  }

  lemma StepKeeps(b: Board, i: nat, ended: Action, limited: bool, refs: seq<string>, reason: Option<string>)
    requires WellFormed(b) && NobodyForgotten(b) && Ends(b, i, ended, limited)
    ensures var after := AfterEnd(b, i, ended, b.actions[i].obligationIds, limited, refs, reason);
      WellFormed(after) && NobodyForgotten(after) && Develops(b, after)
  {
    EndForgetsNobodyIff(b, i, ended, b.actions[i].obligationIds, limited, refs, reason);
    EndDevelops(b, i, ended, b.actions[i].obligationIds, limited, refs, reason);
    DevelopmentIsWellFormed(b, AfterEnd(b, i, ended, b.actions[i].obligationIds, limited, refs, reason));
  }

  lemma DevelopmentIsWellFormed(b: Board, after: Board)
    requires WellFormed(b) && Develops(b, after)
    ensures WellFormed(after)
  {
    assert forall i :: 0 <= i < |b.actions| ==> ActionDevelops(b.actions[i], after.actions[i]);
    assert forall k :: 0 <= k < |b.obligations| ==> ObligationDevelops(after.actions, b.obligations[k],
        after.obligations[k]);
  }

  /** Resolving one more id touches the one obligation with that id, unless it was named before. */
  lemma NextResolved(actions: seq<Action>, ids: seq<string>, j: nat, limited: bool, refs: seq<string>,
                     reason: Option<string>, before: seq<Obligation>)
    requires j < |ids| && forall i, k :: 0 <= i < k < |before| ==> before[i].id != before[k].id
    ensures var now, next := Resolved(actions, ids[..j], limited, refs, reason, before),
      Resolved(actions, ids[..j + 1], limited, refs, reason, before);
      var k := IndexOf(before, ids[j]);
      && (k == -1 || ids[j] in ids[..j] ==> next == now)
      && (k >= 0 && ids[j] !in ids[..j] ==>
            now[k] == before[k] && next == now[k := Decide(actions, limited, refs, reason, before[k])])
      && (k >= 0 && ids[j] in ids[..j] ==> now[k] == Decide(actions, limited, refs, reason, before[k]))
  {
    hide Decide;
    var now, next := Resolved(actions, ids[..j], limited, refs, reason, before),
      Resolved(actions, ids[..j + 1], limited, refs, reason, before);
    assert forall id :: id in ids[..j + 1] <==> id in ids[..j] || id == ids[j];
    var k := IndexOf(before, ids[j]);
    hide IndexOf;
    forall m | 0 <= m < |before|
      ensures next[m] == if m == k then Decide(actions, limited, refs, reason, before[m]) else now[m]
    {
      assert m != k ==> before[m].id != ids[j];
    }
  }

  lemma NothingResolved(actions: seq<Action>, ids: seq<string>, limited: bool, refs: seq<string>,
                        reason: Option<string>, before: seq<Obligation>)
    ensures Resolved(actions, ids[..0], limited, refs, reason, before) == before
  {
  }

  /** The first `n` ids name twice an obligation that is decided at its first mention. */
  ghost predicate DecidesTwice(actions: seq<Action>, ids: seq<string>, n: nat, before: seq<Obligation>)
    requires n <= |ids|
  {
    exists j, k {:trigger ids[j], before[k]} :: 0 <= j < n && 0 <= k < |before| && ids[j] in ids[..j]
      && before[k].id == ids[j]
      && IsAwaited(before[k].status) && !HasPending(actions, ids[j])
  }

  // ---- The block pass ----

  /** The actions after the first `n` of a snapshot have been looked at by the block pass. */
  function BlockedUpTo(snapshot: seq<Action>, n: nat): (actions: seq<Action>)
    requires n <= |snapshot|
    ensures |actions| == |snapshot|
  {
    seq(|snapshot|, i requires 0 <= i < |snapshot| =>
      if i < n && IsBlockedIn(snapshot, i)
      then BlockedBy(snapshot[i], FirstFailed(snapshot, snapshot[i].dependsOn).GetOr(""))
      else snapshot[i])
  }

  predicate IsBlockedIn(snapshot: seq<Action>, i: nat)
    requires i < |snapshot|
  {
    snapshot[i].status.Ready? && HasFailedDependency(snapshot, snapshot[i])
  }

  /** What no step of an action changes. */
  predicate SameAssignment(was: Action, now: Action) {
    && now.id == was.id && now.obligationIds == was.obligationIds && now.dependsOn == was.dependsOn
    && now.authorization == was.authorization && now.operation == was.operation
  }

  class InvestigationStore {
    var actions: seq<Action>
    var obligations: seq<Obligation>

    constructor (actions: seq<Action>, obligations: seq<Obligation>)
      ensures this.actions == actions && this.obligations == obligations
    {
      this.actions, this.obligations := actions, obligations;
    }

    function Current(): Board
      reads this
    {
      Board(actions, obligations)
    }

    /** Replaces an obligation if it still has the status that was read; the source throws if not. */
    method UpdateObligation(k: nat, updated: Obligation, expected: ObligationStatus) returns (ok: bool)
      requires k < |obligations|
      modifies this`obligations
      ensures ok == (old(obligations)[k].status == expected)
      ensures obligations == if ok then old(obligations)[k := updated] else old(obligations)
    {
      ok := obligations[k].status == expected;
      if ok {
        obligations := obligations[k := updated];
      }
    }

    method FinishAction(i: nat, revision: nat, ending: Ending)
      requires i < |actions| && actions[i].status.Running? && actions[i].revision == revision
      modifies this`actions
      ensures actions == old(actions)[i := Ended(old(actions)[i], ending)]
      ensures var was, now := old(actions)[i], actions[i];
        && now.status == ending.status && now.resultRefs == ending.refs && now.revision == was.revision + 1
        && now.error == (if ending.reason in {None, Some("")} then was.error else ending.reason)
        && SameAssignment(was, now)
    {
      actions := actions[i := Ended(actions[i], ending)];
    }

    method BlockReadyAction(i: nat, reason: string)
      requires i < |actions| && actions[i].status.Ready?
      modifies this`actions
      ensures actions == old(actions)[i := BlockedBy(old(actions)[i], reason)]
      ensures var was, now := old(actions)[i], actions[i];
        && now.status == Blocked && now.resultRefs == was.resultRefs && now.revision == was.revision + 1
        && now.error == Some(reason) && SameAssignment(was, now)
    {
      actions := actions[i := BlockedBy(actions[i], reason)];
    }

    /** Claims the first action that is ready, authorised, eligible and not waiting. */
    method ClaimNext(authorization: string, eligible: Option<set<string>>) returns (claimed: int)
      modifies this`actions
      ensures claimed == -1 ==> actions == old(actions) && forall i ::
        0 <= i < |actions| ==> !Claimable(actions, authorization, eligible, actions[i])
      ensures claimed != -1 ==>
        && 0 <= claimed < |old(actions)| && Claimable(old(actions), authorization, eligible, old(actions)[claimed])
        && (forall i :: 0 <= i < claimed ==> !Claimable(old(actions), authorization, eligible, old(actions)[i]))
        && actions == old(actions)[claimed := Claimed(old(actions)[claimed])]
      ensures claimed != -1 ==>
        var was, now := old(actions)[claimed], actions[claimed];
        && was.status == Ready && MayRun(old(actions), authorization, eligible, was)
        && now.status == Running && now.revision == was.revision + 1
        && now.resultRefs == was.resultRefs && now.error == was.error && SameAssignment(was, now)
    {
      for i := 0 to |actions|
        invariant actions == old(actions)
        invariant forall j :: 0 <= j < i ==> !Claimable(actions, authorization, eligible, actions[j])
      {
        if Claimable(actions, authorization, eligible, actions[i]) {
          ClaimableMeans(actions, authorization, eligible, actions[i]);
          actions := actions[i := Claimed(actions[i])];
          return i;
        }
      }
      return -1;
    }

    /**
      Decides every obligation an ended action names, as far as no other action is still at work on it.
      The statuses are read once, before the loop, so naming an obligation again after deciding it fails.
    */
    method ResolveObligations(action: Action, limited: bool, refs: seq<string>, reason: Option<string>)
      returns (ok: bool)
      requires forall i, k :: 0 <= i < k < |obligations| ==> obligations[i].id != obligations[k].id
      modifies this`obligations
      ensures ok <==> !DecidesTwice(actions, action.obligationIds, |action.obligationIds|, old(obligations))
      ensures ok ==> obligations == Resolved(actions, action.obligationIds, limited, refs, reason, old(obligations))
      ensures exists n ::
        && 0 <= n <= |action.obligationIds|
        && obligations == Resolved(actions, action.obligationIds[..n], limited, refs, reason, old(obligations))
      ensures NoRepeats(action.obligationIds) ==> ok
    {
      hide HasPending, Resolved;
      var ids := action.obligationIds;
      var snapshot := obligations;
      NothingResolved(actions, ids, limited, refs, reason, snapshot);
      for j := 0 to |ids|
        invariant obligations == Resolved(actions, ids[..j], limited, refs, reason, snapshot)
        invariant !DecidesTwice(actions, ids, j, snapshot)
      {
        var id := ids[j];
        var k := IndexOf(snapshot, id);
        NextResolved(actions, ids, j, limited, refs, reason, snapshot);
        if k >= 0 {
          var current := snapshot[k];
          if IsAwaited(current.status) && !HasPending(actions, id) {
            ok := UpdateObligation(k, Decide(actions, limited, refs, reason, current), current.status);
            if !ok {
              assert id in ids[..j];
              assert ids[j] == id && snapshot[k].id == id;
              return;
            }
          }
        }
      }
      ok := true;
      assert ids[..|ids|] == ids;
    }

    /** Runs one claimed action to its end. */
    method RunClaimed(i: nat, tools: Tools, prior: PriorRuns) returns (status: ActionStatus)
      requires WellFormed(Current()) && NobodyForgotten(Current())
      requires i < |actions| && actions[i].status.Running?
      modifies this
      ensures WellFormed(Current()) && NobodyForgotten(Current()) && Develops(old(Current()), Current())
      ensures var ending := EndingFor(tools, prior, old(actions)[i]);
        && status == ending.status
        && Current() == AfterEnd(old(Current()), i, Ended(old(actions)[i], ending), old(actions)[i].obligationIds,
                                 !ending.status.Succeeded?, ending.refs, ending.reason)
    {
      var action := actions[i];
      var ending: Ending;
      if action.operation !in tools {
        ending := Ending(Failed, [], Some(REASON_UNREGISTERED));
      } else {
        var paged := action.operation in PAGED;
        var reusable := if paged then None else prior(action);
        if reusable.Some? {
          ending := EndingOf(Drain.Finished(reusable.value.partial, reusable.value.refs));
        } else {
          var drained, unread := Drain.DrainPages(tools[action.operation](action), paged, None);
          ending := EndingOf(drained);
        }
      }
      status := ending.status;
      StepKeeps(Current(), i, Ended(action, ending), !status.Succeeded?, ending.refs, ending.reason);
      FinishAction(i, action.revision, ending);
      var ok := ResolveObligations(action, !status.Succeeded?, ending.refs, ending.reason);
    }

    /** Blocks one ready action and limits what only it was still to serve. */
    method BlockOne(i: nat, reason: string)
      requires WellFormed(Current()) && NobodyForgotten(Current()) && i < |actions| && actions[i].status.Ready?
      modifies this
      ensures WellFormed(Current()) && NobodyForgotten(Current()) && Develops(old(Current()), Current())
      ensures actions == old(actions)[i := BlockedBy(old(actions)[i], reason)]
    {
      var action := actions[i];
      StepKeeps(Current(), i, BlockedBy(action, reason), true, [], Some(reason));
      BlockReadyAction(i, reason);
      var ok := ResolveObligations(action, true, [], Some(reason));
    }

    /** Blocks every ready action that waits for one that failed, as the snapshot shows them. */
    method BlockWaiting()
      requires WellFormed(Current()) && NobodyForgotten(Current())
      modifies this
      ensures WellFormed(Current()) && NobodyForgotten(Current()) && Develops(old(Current()), Current())
      ensures actions == BlockedUpTo(old(actions), |old(actions)|)
    {
      hide WellFormed, NobodyForgotten, DependencyFailed;
      var snapshot := actions;
      ghost var before := Current();
      DevelopsReflexively(before);
      hide Develops;
      for i := 0 to |snapshot|
        invariant actions == BlockedUpTo(snapshot, i)
        invariant WellFormed(Current()) && NobodyForgotten(Current()) && Develops(before, Current())
      {
        var action := snapshot[i];
        if action.status.Ready? {
          var failed := FirstFailed(snapshot, action.dependsOn);
          if failed.Some? {
            ghost var middle := Current();
            BlockOne(i, failed.value);
            DevelopsTransitively(before, middle, Current());
          }
        }
        assert actions == BlockedUpTo(snapshot, i + 1);
      }
    }

    /**
      Claims and runs actions until nothing can be claimed or the allowance is used up, then blocks
      what waits for failures.
    */
    method RunUntilIdle(tools: Tools, prior: PriorRuns, authorization: string, maxActions: nat,
                        eligible: Option<set<string>>, aborts: nat -> bool)
      returns (summary: Summary, aborted: bool)
      requires WellFormed(Current()) && NobodyForgotten(Current())
      modifies this
      ensures IsRunOf(tools, prior, old(actions), actions)
      ensures aborted ==> summary.executed < maxActions && aborts(summary.executed)
      ensures forall n :: 0 <= n < summary.executed ==> !aborts(n)
      ensures WellFormed(Current()) && NobodyForgotten(Current()) && Develops(old(Current()), Current())
      ensures summary.executed == summary.succeeded + summary.partial + summary.failed <= maxActions
      ensures RanInOrder(authorization, eligible, old(actions), actions)
      ensures Counts(summary, old(actions), actions)
      ensures summary.executed < maxActions && !aborted ==> NothingLeftToRun(authorization, eligible, actions)
    {
      hide WellFormed, NobodyForgotten, Develops, IsRunOf, EndingFor, Claimable, Resolved, RanInOrder, Counts;
      summary, aborted := Summary(0, 0, 0, 0), false;
      ghost var before := Current();
      DevelopsReflexively(before);
      RunOfNothing(tools, prior, actions);
      NothingRan(authorization, eligible, actions);
      CountsNothing(actions);
      var idle := false;
      while summary.executed < maxActions && !idle
        invariant WellFormed(Current()) && NobodyForgotten(Current()) && Develops(before, Current())
        invariant IsRunOf(tools, prior, before.actions, actions)
        invariant forall n :: 0 <= n < summary.executed ==> !aborts(n)
        invariant summary.executed == summary.succeeded + summary.partial + summary.failed <= maxActions
        invariant RanInOrder(authorization, eligible, before.actions, actions)
        invariant Counts(summary, before.actions, actions)
        invariant idle ==> forall i :: 0 <= i < |actions| ==> !Claimable(actions, authorization, eligible, actions[i])
        decreases maxActions - summary.executed, !idle
      {
        if aborts(summary.executed) {
          aborted := true;
          return;
        }
        ghost var middle := Current();
        BoardsDevelop(before, middle);
        var claimed := ClaimNext(authorization, eligible);
        if claimed == -1 {
          idle := true;
        } else {
          ClaimKeeps(middle, claimed);
          DevelopsTransitively(before, middle, Current());
          ghost var running := Current();
          var status := RunClaimed(claimed, tools, prior);
          DevelopsTransitively(before, running, Current());
          RunGoesOn(tools, prior, before.actions, middle.actions, claimed);
          ghost var begun := Claimed(middle.actions[claimed]);
          assert actions == middle.actions[claimed := Ended(begun, EndingFor(tools, prior, begun))];
          ReadyIsUntouched(tools, prior, before.actions, middle.actions, claimed);
          ActionEndsInOrder(authorization, eligible, before, middle.actions, claimed, EndingFor(tools, prior, begun));
          CountsOneMore(summary, before, middle.actions, claimed, EndingFor(tools, prior, begun));
          summary := summary.(executed := summary.executed + 1);
          if status.Succeeded? {
            summary := summary.(succeeded := summary.succeeded + 1);
          } else if status.Partial? {
            summary := summary.(partial := summary.partial + 1);
          } else {
            summary := summary.(failed := summary.failed + 1);
          }
        }
      }
      ghost var drained := Current();
      BoardsDevelop(before, drained);
      BlockWaiting();
      DevelopsTransitively(before, drained, Current());
      RunBlocks(tools, prior, before.actions, drained.actions);
      BlockingClaimsNothing(drained.actions, authorization, eligible);
      BlocksInOrder(authorization, eligible, before, drained);
      BlockingCountsNothing(summary, before.actions, drained.actions);
      NothingIsClaimable(actions, authorization, eligible);
    }
  }

  // ---- What claiming and blocking mean on the board ----

  lemma ClaimableMeans(actions: seq<Action>, authorization: string, eligible: Option<set<string>>, action: Action)
    ensures Claimable(actions, authorization, eligible, action)
       <==> action.status == Ready && MayRun(actions, authorization, eligible, action)
  {
    forall id
      ensures DependencyDone(actions, id) <==> StandsAs(actions, id, {Succeeded, Partial})
    {
    }
  }

  lemma BlockedMeans(actions: seq<Action>, i: nat)
    requires i < |actions|
    ensures IsBlockedIn(actions, i) <==> actions[i].status == Ready && IsHeldBack(actions, actions[i])
  {
    forall id
      ensures DependencyFailed(actions, id) <==> StandsAs(actions, id, {Failed, Blocked, Cancelled})
    {
    }
  }

  /** Every action that is still READY is not authorised, not eligible, or waits for one that brought nothing home. */
  ghost predicate NothingLeftToRun(authorization: string, eligible: Option<set<string>>, actions: seq<Action>) {
    forall i :: 0 <= i < |actions| && actions[i].status == Ready ==>
      !MayRun(actions, authorization, eligible, actions[i])
  }

  lemma NothingIsClaimable(actions: seq<Action>, authorization: string, eligible: Option<set<string>>)
    ensures NothingLeftToRun(authorization, eligible, actions) <==>
      forall i :: 0 <= i < |actions| ==> !Claimable(actions, authorization, eligible, actions[i])
  {
    hide Claimable, MayRun;
    forall i | 0 <= i < |actions|
      ensures Claimable(actions, authorization, eligible, actions[i])
         <==> actions[i].status == Ready && MayRun(actions, authorization, eligible, actions[i])
    {
      ClaimableMeans(actions, authorization, eligible, actions[i]);
    }
  }

  lemma BoardsDevelop(before: Board, after: Board)
    requires Develops(before, after)
    ensures AllDevelop(before.actions, after.actions)
  {
  }

  lemma ActionEndsInOrder(authorization: string, eligible: Option<set<string>>, before: Board, middle: seq<Action>,
                          i: nat, ending: Ending)
    requires RanInOrder(authorization, eligible, before.actions, middle) && AllDevelop(before.actions, middle)
    requires i < |middle| && Claimable(middle, authorization, eligible, middle[i])
    requires ending.status in {Succeeded, Partial, Failed}
    ensures RanInOrder(authorization, eligible, before.actions, middle[i := Ended(Claimed(middle[i]), ending)])
  {
    var after := middle[i := Ended(Claimed(middle[i]), ending)];
    ClaimableMeans(middle, authorization, eligible, middle[i]);
    assert ActionDevelops(middle[i], after[i]);
    OrderGoesOn(authorization, eligible, before.actions, middle, after);
  }

  lemma BlocksInOrder(authorization: string, eligible: Option<set<string>>, before: Board, middle: Board)
    requires RanInOrder(authorization, eligible, before.actions, middle.actions)
    requires AllDevelop(before.actions, middle.actions)
    ensures RanInOrder(authorization, eligible, before.actions, BlockedUpTo(middle.actions, |middle.actions|))
  {
    var after := BlockedUpTo(middle.actions, |middle.actions|);
    hide IsBlockedIn, FirstFailed, MayRun, IsHeldBack, RanInOrder;
    forall i | 0 <= i < |middle.actions|
      ensures IsBlockedIn(middle.actions, i)
         <==> middle.actions[i].status == Ready && IsHeldBack(middle.actions, middle.actions[i])
    {
      BlockedMeans(middle.actions, i);
    }
    OrderGoesOn(authorization, eligible, before.actions, middle.actions, after);
  }

  /** The summary counts the actions that have come to stand with each status. */
  ghost predicate Counts(summary: Summary, before: seq<Action>, after: seq<Action>) {
    && |before| == |after|
    && summary.succeeded == EndedAs(before, after, Succeeded)
    && summary.partial == EndedAs(before, after, Partial)
    && summary.failed == EndedAs(before, after, Failed)
  }

  lemma CountsNothing(actions: seq<Action>)
    ensures Counts(Summary(0, 0, 0, 0), actions, actions)
  {
    NoneEnded(actions, Succeeded);
    NoneEnded(actions, Partial);
    NoneEnded(actions, Failed);
  }

  lemma CountsOneMore(summary: Summary, before: Board, middle: seq<Action>, i: nat, ending: Ending)
    requires Counts(summary, before.actions, middle)
    requires i < |middle| && middle[i].status.Ready? && before.actions[i] == middle[i]
    ensures Counts(Summary(summary.executed + 1,
                           summary.succeeded + if ending.status.Succeeded? then 1 else 0,
                           summary.partial + if ending.status.Partial? then 1 else 0,
                           summary.failed + if ending.status.Failed? then 1 else 0),
                   before.actions, middle[i := Ended(Claimed(middle[i]), ending)])
  {
    var ended := Ended(Claimed(middle[i]), ending);
    OneMoreEnded(before.actions, middle, i, ended, Succeeded);
    OneMoreEnded(before.actions, middle, i, ended, Partial);
    OneMoreEnded(before.actions, middle, i, ended, Failed);
  }

  lemma BlockingCountsNothing(summary: Summary, before: seq<Action>, middle: seq<Action>)
    requires Counts(summary, before, middle)
    ensures Counts(summary, before, BlockedUpTo(middle, |middle|))
  {
    var after := BlockedUpTo(middle, |middle|);
    hide FirstFailed;
    SameEnded(before, middle, after, Succeeded);
    SameEnded(before, middle, after, Partial);
    SameEnded(before, middle, after, Failed);
  }

  lemma RunOfNothing(tools: Tools, prior: PriorRuns, actions: seq<Action>)
    ensures IsRunOf(tools, prior, actions, actions)
  {
  }

  lemma RunGoesOn(tools: Tools, prior: PriorRuns, before: seq<Action>, middle: seq<Action>, i: nat)
    requires IsRunOf(tools, prior, before, middle) && i < |middle| && middle[i].status.Ready?
    ensures IsRunOf(tools, prior, before,
                    middle[i := Ended(Claimed(middle[i]), EndingFor(tools, prior, Claimed(middle[i])))])
  {
    assert IsOutcomeOf(tools, prior, before[i], middle[i]);
    assert middle[i] == before[i];
  }

  lemma ReadyIsUntouched(tools: Tools, prior: PriorRuns, before: seq<Action>, middle: seq<Action>, i: nat)
    requires IsRunOf(tools, prior, before, middle) && i < |middle| && middle[i].status.Ready?
    ensures middle[i] == before[i]
  {
    hide EndingFor;
    assert IsOutcomeOf(tools, prior, before[i], middle[i]);
    assert EndingIsOver(tools, prior, Claimed(before[i]));
  }

  ghost predicate EndingIsOver(tools: Tools, prior: PriorRuns, action: Action) {
    !IsPending(EndingFor(tools, prior, action).status)
  }

  lemma RunBlocks(tools: Tools, prior: PriorRuns, before: seq<Action>, middle: seq<Action>)
    requires IsRunOf(tools, prior, before, middle)
    ensures IsRunOf(tools, prior, before, BlockedUpTo(middle, |middle|))
  {
    hide EndingFor;
    forall i | 0 <= i < |before|
      ensures IsOutcomeOf(tools, prior, before[i], BlockedUpTo(middle, |middle|)[i])
    {
      assert IsOutcomeOf(tools, prior, before[i], middle[i]);
    }
  }

  lemma ClaimKeeps(b: Board, i: nat)
    requires WellFormed(b) && NobodyForgotten(b) && i < |b.actions| && b.actions[i].status.Ready?
    ensures var after := Board(b.actions[i := Claimed(b.actions[i])], b.obligations);
      WellFormed(after) && NobodyForgotten(after) && Develops(b, after)
  {
    var after := Board(b.actions[i := Claimed(b.actions[i])], b.obligations);
    forall k | 0 <= k < |b.obligations| && IsAwaited(b.obligations[k].status)
      && Named(after.actions, b.obligations[k].id)
      ensures StillServed(after.actions, b.obligations[k].id)
    {
      var id := b.obligations[k].id;
      var n :| 0 <= n < |after.actions| && Serves(after.actions[n], id);
      assert Serves(b.actions[n], id);
      var j :| 0 <= j < |b.actions| && Serves(b.actions[j], id) && IsPending(b.actions[j].status);
      assert Serves(after.actions[j], id) && IsPending(after.actions[j].status);
    }
  }

  /** Blocking opens no action for a claim. */
  lemma BlockingClaimsNothing(actions: seq<Action>, authorization: string, eligible: Option<set<string>>)
    ensures (forall i :: 0 <= i < |actions| ==> !Claimable(actions, authorization, eligible, actions[i])) ==>
      var after := BlockedUpTo(actions, |actions|);
      forall i :: 0 <= i < |after| ==> !Claimable(after, authorization, eligible, after[i])
  {
    var after := BlockedUpTo(actions, |actions|);
    forall id | DependencyDone(after, id)
      ensures DependencyDone(actions, id)
    {
      var i :| 0 <= i < |after| && after[i].id == id && (after[i].status.Succeeded? || after[i].status.Partial?);
      assert actions[i] == after[i];
    }
    forall i | 0 <= i < |after| && Claimable(after, authorization, eligible, after[i])
      ensures Claimable(actions, authorization, eligible, actions[i])
    {
      assert after[i] == actions[i];
    }
  }
}
