/** Actions and the obligations they serve, and the bookkeeping between them. */
module Investigation {
  import opened Wrappers

  datatype ActionStatus = Ready | Running | Blocked | Succeeded | Partial | Failed | Cancelled

  datatype Action = Action(
    id: string,
    obligationIds: seq<string>,
    dependsOn: seq<string>,
    authorization: string,
    operation: string,
    status: ActionStatus,
    revision: nat,
    resultRefs: seq<string>,
    error: Option<string>)

  datatype ObligationStatus = Open | Queued | Satisfied | Limited | Dropped

  datatype Obligation = Obligation(
    id: string,
    required: bool,
    needsEvidence: bool,
    subjectRefs: seq<string>,
    status: ObligationStatus,
    resultRefs: seq<string>,
    gapRefs: seq<string>)

  /** The actions and obligations of one epoch. */
  datatype Board = Board(actions: seq<Action>, obligations: seq<Obligation>)

  predicate IsPending(status: ActionStatus) {
    status.Ready? || status.Running?
  }

  predicate FellShort(status: ActionStatus) {
    status.Partial? || status.Failed? || status.Blocked? || status.Cancelled?
  }

  predicate IsAwaited(status: ObligationStatus) {
    status.Open? || status.Queued?
  }

  predicate Serves(action: Action, obligationId: string) {
    obligationId in action.obligationIds
  }

  /** Some action that names the obligation is not finished. */
  ghost predicate StillServed(actions: seq<Action>, obligationId: string) {
    exists i :: 0 <= i < |actions| && Serves(actions[i], obligationId) && IsPending(actions[i].status)
  }

  /** Some action that names the obligation did not succeed. */
  ghost predicate SomeFellShort(actions: seq<Action>, obligationId: string) {
    exists i :: 0 <= i < |actions| && Serves(actions[i], obligationId) && FellShort(actions[i].status)
  }

  ghost predicate Named(actions: seq<Action>, obligationId: string) {
    exists i :: 0 <= i < |actions| && Serves(actions[i], obligationId)
  }

  ghost predicate AllSucceeded(actions: seq<Action>, obligationId: string) {
    forall i :: 0 <= i < |actions| && Serves(actions[i], obligationId) ==> actions[i].status.Succeeded?
  }

  /** Ids name one record each, and no action names an obligation twice. */
  ghost predicate WellFormed(b: Board) {
    && (forall i, j :: 0 <= i < j < |b.actions| ==> b.actions[i].id != b.actions[j].id)
    && (forall i, j :: 0 <= i < j < |b.obligations| ==> b.obligations[i].id != b.obligations[j].id)
    && (forall i :: 0 <= i < |b.actions| ==> NoRepeats(b.actions[i].obligationIds))
  }

  ghost predicate NoRepeats(ids: seq<string>) {
    forall i, j :: 0 <= i < j < |ids| ==> ids[i] != ids[j]
  }

  /** No awaited obligation that somebody names has been left with nothing but finished actions. */
  ghost predicate NobodyForgotten(b: Board) {
    forall k ::
      0 <= k < |b.obligations| && IsAwaited(b.obligations[k].status) && Named(b.actions, b.obligations[k].id) ==>
        StillServed(b.actions, b.obligations[k].id)
  }

  /**
    How a board may develop: finished actions and decided obligations stay as they are, and an
    obligation is decided by what became of every action that names it.
  */
  ghost predicate Develops(before: Board, after: Board) {
    && |after.actions| == |before.actions| && |after.obligations| == |before.obligations|
    && (forall i :: 0 <= i < |before.actions| ==> ActionDevelops(before.actions[i], after.actions[i]))
    && (forall k :: 0 <= k < |before.obligations| ==> ObligationDevelops(after.actions, before.obligations[k],
        after.obligations[k]))
  }

  ghost predicate ActionDevelops(before: Action, after: Action) {
    && after.id == before.id && after.obligationIds == before.obligationIds
    && after.dependsOn == before.dependsOn && after.authorization == before.authorization
    && (!IsPending(before.status) ==> after == before)
  }

  ghost predicate ObligationDevelops(actions: seq<Action>, before: Obligation, after: Obligation) {
    && after.id == before.id && after.required == before.required
    && (!IsAwaited(before.status) ==> after == before)
    && (IsAwaited(before.status) && after.status != before.status ==>
          && !StillServed(actions, before.id)
          && after.status == (if SomeFellShort(actions, before.id) then Limited else Satisfied))
  }

  lemma DecidedObligationsStay(middle: seq<Action>, after: seq<Action>, id: string)
    requires |middle| == |after| && forall i :: 0 <= i < |middle| ==> ActionDevelops(middle[i], after[i])
    requires !StillServed(middle, id)
    ensures !StillServed(after, id)
    ensures SomeFellShort(middle, id) == SomeFellShort(after, id)
  {
    forall i | 0 <= i < |middle| && Serves(middle[i], id)
      ensures after[i] == middle[i]
    {
      assert !IsPending(middle[i].status);
    }
  }

  lemma DevelopsTransitively(before: Board, middle: Board, after: Board)
    requires Develops(before, middle) && Develops(middle, after)
    ensures Develops(before, after)
  {
    forall k | 0 <= k < |before.obligations|
      ensures ObligationDevelops(after.actions, before.obligations[k], after.obligations[k])
    {
      var o, m := before.obligations[k], middle.obligations[k];
      assert ObligationDevelops(middle.actions, o, m);
      assert ObligationDevelops(after.actions, m, after.obligations[k]);
      if IsAwaited(o.status) && m.status != o.status {
        DecidedObligationsStay(middle.actions, after.actions, o.id);
      }
    }
    forall i | 0 <= i < |before.actions|
      ensures ActionDevelops(before.actions[i], after.actions[i])
    {
      assert ActionDevelops(before.actions[i], middle.actions[i])
        && ActionDevelops(middle.actions[i], after.actions[i]);
    }
  }

  lemma DevelopsReflexively(b: Board)
    ensures Develops(b, b)
  {
  }

  // ---- Deciding obligations ----

  function Deduplicated(ids: seq<string>): seq<string> {
    if ids == [] then []
    else
      var front := Deduplicated(ids[..|ids| - 1]);
      if ids[|ids| - 1] in front then front else front + [ids[|ids| - 1]]
  }

  function ContributorRefs(actions: seq<Action>, obligationId: string): seq<string> {
    if actions == [] then []
    else
      (if Serves(actions[0], obligationId) then actions[0].resultRefs else [])
      + ContributorRefs(actions[1..], obligationId)
  }

  function ContributorErrors(actions: seq<Action>, obligationId: string): seq<string> {
    if actions == [] then []
    else
      (if Serves(actions[0], obligationId) && actions[0].error.Some? && actions[0].error.value != "" then
       [actions[0].error.value] else [])
      + ContributorErrors(actions[1..], obligationId)
  }

  predicate HasPending(actions: seq<Action>, obligationId: string) {
    actions != [] && ((Serves(actions[0], obligationId) && IsPending(actions[0].status))
                      || HasPending(actions[1..], obligationId))
  }

  predicate HasFallenShort(actions: seq<Action>, obligationId: string) {
    actions != [] && ((Serves(actions[0], obligationId) && FellShort(actions[0].status))
                      || HasFallenShort(actions[1..], obligationId))
  }

  lemma {:induction false} HasPendingMeans(actions: seq<Action>, obligationId: string)
    ensures HasPending(actions, obligationId) <==> StillServed(actions, obligationId)
    ensures HasFallenShort(actions, obligationId) <==> SomeFellShort(actions, obligationId)
  {
    if actions != [] {
      HasPendingMeans(actions[1..], obligationId);
      if StillServed(actions[1..], obligationId) {
        var i :| 0 <= i < |actions[1..]| && Serves(actions[1..][i], obligationId) && IsPending(actions[1..][i].status);
        assert actions[i + 1] == actions[1..][i];
      }
      if SomeFellShort(actions[1..], obligationId) {
        var i :| 0 <= i < |actions[1..]| && Serves(actions[1..][i], obligationId) && FellShort(actions[1..][i].status);
        assert actions[i + 1] == actions[1..][i];
      }
      if StillServed(actions, obligationId) && !(Serves(actions[0], obligationId) && IsPending(actions[0].status)) {
        var i :| 0 <= i < |actions| && Serves(actions[i], obligationId) && IsPending(actions[i].status);
        assert actions[1..][i - 1] == actions[i];
      }
      if SomeFellShort(actions, obligationId) && !(Serves(actions[0], obligationId) && FellShort(actions[0].status)) {
        var i :| 0 <= i < |actions| && Serves(actions[i], obligationId) && FellShort(actions[i].status);
        assert actions[1..][i - 1] == actions[i];
      }
    }
  }

  /** What the end of an action does to one obligation. */
  function Decide(actions: seq<Action>, limited: bool, refs: seq<string>, reason: Option<string>,
                  o: Obligation): Obligation {
    if !IsAwaited(o.status) || HasPending(actions, o.id) then o
    else
      o.(status := if limited || HasFallenShort(actions, o.id) then Limited else Satisfied,
         resultRefs := Deduplicated(o.resultRefs + ContributorRefs(actions, o.id) + refs),
         gapRefs := Deduplicated(o.gapRefs + ContributorErrors(actions, o.id)
                                 + (if reason.Some? && reason.value != "" then [reason.value] else [])))
  }

  /** The obligations after `ResolveObligations`. */
  function Resolved(actions: seq<Action>, served: seq<string>, limited: bool, refs: seq<string>, reason: Option<string>,
                    obligations: seq<Obligation>)
    : (resolved: seq<Obligation>)
    ensures |resolved| == |obligations|
  {
    seq(|obligations|, k requires 0 <= k < |obligations| =>
      if obligations[k].id in served then Decide(actions, limited, refs, reason, obligations[k]) else obligations[k])
  }

  function IndexOf(obligations: seq<Obligation>, id: string): (index: int)
    ensures index == -1 || (0 <= index < |obligations| && obligations[index].id == id)
    ensures index == -1 ==> forall k :: 0 <= k < |obligations| ==> obligations[k].id != id
  {
    if obligations == [] then -1
    else if obligations[0].id == id then 0
    else var rest := IndexOf(obligations[1..], id); if rest == -1 then -1 else rest + 1
  }
}
