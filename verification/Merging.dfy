/**
  What happens when the store hangs new obligations on an action it already has: one that is running,
  and one that has finished.
*/
module Merging {
  import opened Wrappers
  import opened Investigation
  import opened Executor
  import opened ExecutorTheorems

  /** The store hangs new obligations on an action it already has, without repeating any. */
  function Merged(action: Action, ids: seq<string>): Action {
    action.(obligationIds := Deduplicated(action.obligationIds + ids))
  }

  // ---- Onto a running action ----

  /**
    An obligation merged onto a running action is not in the list the executor claimed. Ending the
    action by the claimed list forgets it exactly when it is awaited and nobody else serves it.
  */
  lemma MergedWhileRunningIsForgottenIff(b: Board, i: nat, o: nat, ended: Action, limited: bool, refs: seq<string>,
                                         reason: Option<string>)
    requires WellFormed(b) && NobodyForgotten(b) && i < |b.actions| && b.actions[i].status.Running?
    requires o < |b.obligations|
    requires !Serves(b.actions[i], b.obligations[o].id)
    requires var merged := Board(b.actions[i := Merged(b.actions[i], [b.obligations[o].id])], b.obligations);
      Ends(merged, i, ended, limited)
    ensures var merged := Board(b.actions[i := Merged(b.actions[i], [b.obligations[o].id])], b.obligations);
      NobodyForgotten(AfterEnd(merged, i, ended, b.actions[i].obligationIds, limited, refs, reason)) <==>
      !IsAwaited(b.obligations[o].status) || ServedByOthers(b, i, b.obligations[o].id)
  {
    var id := b.obligations[o].id;
    var claimed := b.actions[i].obligationIds;
    var merged := Board(b.actions[i := Merged(b.actions[i], [id])], b.obligations);
    DeduplicatedMembers(claimed + [id]);
    assert forall k :: 0 <= k < |b.obligations| && k != o ==> b.obligations[k].id != id;
    assert forall j :: 0 <= j < |b.actions| && j != i ==> merged.actions[j] == b.actions[j];
    forall x: string
      ensures ServedByOthers(merged, i, x) <==> ServedByOthers(b, i, x)
    {
    }
    assert NobodyForgotten(merged) by {
      forall k | 0 <= k < |b.obligations| && IsAwaited(b.obligations[k].status)
        && Named(merged.actions, b.obligations[k].id)
        ensures StillServed(merged.actions, b.obligations[k].id)
      {
        MergedIsServed(b, i, id, b.obligations[k].id);
      }
    }
    EndForgetsNobodyIff(merged, i, ended, claimed, limited, refs, reason);
  }

  lemma MergedIsServed(b: Board, i: nat, id: string, x: string)
    requires i < |b.actions| && b.actions[i].status.Running?
    requires var actions := b.actions[i := Merged(b.actions[i], [id])]; Named(actions, x)
    requires Named(b.actions, x) ==> StillServed(b.actions, x)
    ensures StillServed(b.actions[i := Merged(b.actions[i], [id])], x)
  {
    var actions := b.actions[i := Merged(b.actions[i], [id])];
    DeduplicatedMembers(b.actions[i].obligationIds + [id]);
    if Serves(actions[i], x) {
      assert IsPending(actions[i].status);
    } else {
      var j :| 0 <= j < |actions| && Serves(actions[j], x);
      assert Serves(b.actions[j], x);
      var n :| 0 <= n < |b.actions| && Serves(b.actions[n], x) && IsPending(b.actions[n].status);
      assert n != i && actions[n] == b.actions[n];
    }
  }

  /**
    A board on which it happens: a running action serves one obligation, a second one is merged onto
    it, the action succeeds, and the second obligation stays queued with nobody left to serve it.
  */
  lemma MergedAndForgotten() returns (b: Board, ended: Action)
    ensures |b.actions| == 1 && b.actions[0].status.Running? && b.actions[0].obligationIds == ["o"]
    ensures |b.obligations| == 2 && b.obligations[1].id == "p" && b.obligations[1].status.Queued?
    ensures WellFormed(b) && NobodyForgotten(b) && ended.status.Succeeded?
    ensures var merged := Board([Merged(b.actions[0], ["p"])], b.obligations);
      var after := AfterEnd(merged, 0, ended, ["o"], false, [], None);
      && Ends(merged, 0, ended, false) && !NobodyForgotten(after)
      && after.obligations[0].status.Satisfied? && after.obligations[1].status.Queued?
  {
    b, ended := TheBoard(), Merged(TheBoard().actions[0], ["p"]).(status := Succeeded, revision := 2);
    TheBoardIsSound();
    hide WellFormed, NobodyForgotten, AfterEnd;
    TheMergedActionEnds(ended);
    MergedWhileRunningIsForgottenIff(b, 0, 1, ended, false, [], None);
    assert b.actions[0 := Merged(b.actions[0], ["p"])] == [Merged(b.actions[0], ["p"])];
    OnlyTheFirstIsDecided(ended);
  }

  function HalfDone(): Board {
    Board([Action("x", [], [], "v", "read", Succeeded, 2, [], None),
           Action("y", ["o"], [], "v", "read", Ready, 0, [], None)],
          [Obligation("o", true, false, [], Queued, [], [])])
  }

  lemma HalfDoneIsSound()
    ensures WellFormed(HalfDone()) && NobodyForgotten(HalfDone())
  {
    var b := HalfDone();
    assert b.actions[0].id == "x" && b.actions[1].id == "y" && b.obligations[0].id == "o";
    assert Serves(b.actions[1], "o") && IsPending(b.actions[1].status);
  }

  function TheBoard(): Board {
    Board([Action("x", ["o"], [], "v", "read", Running, 1, [], None)],
          [Obligation("o", true, false, [], Queued, [], []), Obligation("p", true, false, [], Queued, [], [])])
  }

  lemma TheBoardIsSound()
    ensures var b := TheBoard();
      WellFormed(b) && NobodyForgotten(b) && !Serves(b.actions[0], "p") && !ServedByOthers(b, 0, "p")
  {
    var b := TheBoard();
    assert b.obligations[0].id == "o" && b.obligations[1].id == "p";
    assert forall id :: Serves(b.actions[0], id) <==> id == "o";
    assert Serves(b.actions[0], "o");
  }

  lemma TheMergedActionEnds(ended: Action)
    requires ended == Merged(TheBoard().actions[0], ["p"]).(status := Succeeded, revision := 2)
    ensures Ends(Board([Merged(TheBoard().actions[0], ["p"])], TheBoard().obligations), 0, ended, false)
  {
  }

  lemma OnlyTheFirstIsDecided(ended: Action)
    requires ended == Merged(TheBoard().actions[0], ["p"]).(status := Succeeded, revision := 2)
    ensures var after := AfterEnd(Board([Merged(TheBoard().actions[0], ["p"])], TheBoard().obligations), 0, ended,
                                  ["o"], false, [], None);
      after.obligations[0].status.Satisfied? && after.obligations[1].status.Queued?
  {
    var b := TheBoard();
    assert b.obligations[0].id == "o" && b.obligations[1].id == "p";
    DeduplicatedMembers(["o"] + ["p"]);
    assert "o" in ["o"] + ["p"] && Serves(ended, "o");
    HasPendingMeans([ended], "o");
    assert [Merged(b.actions[0], ["p"])][0 := ended] == [ended];
    assert !StillServed([ended], "o") && !SomeFellShort([ended], "o");
  }

  // ---- Onto a finished action ----

  /** What merging onto a finished action makes of one of the new obligations: it takes the action's end for its own. */
  function Adopt(finished: Action, o: Obligation): Obligation {
    if !IsAwaited(o.status) then o
    else
      o.(status := if finished.status.Succeeded? then Satisfied else Limited,
         resultRefs := Deduplicated(o.resultRefs + finished.resultRefs),
         gapRefs := if finished.status.Succeeded? then o.gapRefs
                    else Deduplicated(o.gapRefs + [finished.error.GetOr(REASON_FAILED)]))
  }

  /**
    The board after the obligations in `ids` have been merged onto finished action `i`; nothing
    happens if it names them all.
  */
  function MergeFinished(b: Board, i: nat, ids: seq<string>): Board
    requires i < |b.actions|
  {
    if forall id :: id in ids ==> id in b.actions[i].obligationIds then b
    else
      Board(b.actions[i := Merged(b.actions[i], ids)],
            seq(|b.obligations|, k requires 0 <= k < |b.obligations| =>
              if b.obligations[k].id in ids then Adopt(b.actions[i], b.obligations[k]) else b.obligations[k]))
  }

  /**
    What a merge onto a finished action comes to: each new obligation that was still open is decided by
    the action's end, with the action's references and, unless it SUCCEEDED, its error besides its own;
    everything else stays, and the action names the new obligations after its own.
  */
  lemma MergedTakesTheEnd(b: Board, i: nat, ids: seq<string>, k: nat)
    requires i < |b.actions| && k < |b.obligations| && exists id :: id in ids && id !in b.actions[i].obligationIds
    ensures var after, action, was := MergeFinished(b, i, ids), b.actions[i], b.obligations[k];
      && |after.obligations| == |b.obligations| && |after.actions| == |b.actions|
      && (forall j :: 0 <= j < |b.actions| && j != i ==> after.actions[j] == b.actions[j])
      && after.actions[i] == action.(obligationIds := after.actions[i].obligationIds)
      && InOrderOfAppearance(action.obligationIds + ids, after.actions[i].obligationIds)
      && var now := after.obligations[k];
      if was.id in ids && was.status in {Open, Queued} then
        && now == was.(status := if action.status == Succeeded then Satisfied else Limited,
                       resultRefs := now.resultRefs, gapRefs := now.gapRefs)
        && InOrderOfAppearance(was.resultRefs + action.resultRefs, now.resultRefs)
        && (if action.status == Succeeded then now.gapRefs == was.gapRefs
            else if action.error.Some? then InOrderOfAppearance(was.gapRefs + [action.error.value], now.gapRefs)
            else forall gap :: gap in was.gapRefs ==> gap in now.gapRefs)
      else now == was
  {
    var action, was := b.actions[i], b.obligations[k];
    var complaint := action.error.GetOr(REASON_FAILED);
    DeduplicatedMeans(action.obligationIds + ids);
    DeduplicatedMeans(was.resultRefs + action.resultRefs);
    DeduplicatedMeans(was.gapRefs + [complaint]);
    hide InOrderOfAppearance;
    assert forall gap :: gap in was.gapRefs ==> gap in Deduplicated(was.gapRefs + [complaint]) by {
      DeduplicatedMembers(was.gapRefs + [complaint]);
    }
  }

  /** The obligation says what became of every action that names it. */
  ghost predicate IsDeserved(actions: seq<Action>, o: Obligation) {
    !StillServed(actions, o.id) && o.status == (if SomeFellShort(actions, o.id) then Limited else Satisfied)
  }

  /** Another action than `i` that names the obligation fell short. */
  ghost predicate OthersFellShort(b: Board, i: nat, obligationId: string) {
    exists j :: 0 <= j < |b.actions| && j != i && Serves(b.actions[j], obligationId) && FellShort(b.actions[j].status)
  }

  lemma ServedAfterMerge(b: Board, i: nat, ids: seq<string>, id: string)
    requires i < |b.actions| && !IsPending(b.actions[i].status) && id in ids
    ensures var actions := b.actions[i := Merged(b.actions[i], ids)];
      && (StillServed(actions, id) <==> ServedByOthers(b, i, id))
      && (SomeFellShort(actions, id) <==> FellShort(b.actions[i].status) || OthersFellShort(b, i, id))
  {
    var actions := b.actions[i := Merged(b.actions[i], ids)];
    DeduplicatedMembers(b.actions[i].obligationIds + ids);
    assert Serves(actions[i], id) && actions[i].status == b.actions[i].status;
    assert forall j :: 0 <= j < |actions| && j != i ==> actions[j] == b.actions[j];
  }

  /**
    Exactly when a merge onto a finished action decides an awaited obligation as it deserves: nobody
    else is at work on it, and, if the action succeeded, nobody else fell short on it.
  */
  lemma MergedDecisionIsDeservedIff(b: Board, i: nat, ids: seq<string>, k: nat)
    requires i < |b.actions| && !IsPending(b.actions[i].status)
    requires k < |b.obligations| && IsAwaited(b.obligations[k].status) && b.obligations[k].id in ids
    requires exists id :: id in ids && id !in b.actions[i].obligationIds
    ensures var after, id := MergeFinished(b, i, ids), b.obligations[k].id;
      && !IsAwaited(after.obligations[k].status)
      && (IsDeserved(after.actions, after.obligations[k]) <==>
            !ServedByOthers(b, i, id) && (b.actions[i].status.Succeeded? ==> !OthersFellShort(b, i, id)))
  {
    ServedAfterMerge(b, i, ids, b.obligations[k].id);
  }

  /** Merging onto a finished action forgets nobody. */
  lemma MergingOntoFinishedForgetsNobody(b: Board, i: nat, ids: seq<string>)
    requires NobodyForgotten(b) && i < |b.actions| && !IsPending(b.actions[i].status)
    ensures NobodyForgotten(MergeFinished(b, i, ids))
  {
    var after := MergeFinished(b, i, ids);
    if after != b {
      DeduplicatedMembers(b.actions[i].obligationIds + ids);
      forall k | 0 <= k < |after.obligations| && IsAwaited(after.obligations[k].status)
        && Named(after.actions, after.obligations[k].id)
        ensures StillServed(after.actions, after.obligations[k].id)
      {
        var o := b.obligations[k];
        assert o.id !in ids && after.obligations[k] == o;
        var n :| 0 <= n < |after.actions| && Serves(after.actions[n], o.id);
        assert Serves(b.actions[n], o.id);
        var j :| 0 <= j < |b.actions| && Serves(b.actions[j], o.id) && IsPending(b.actions[j].status);
        assert after.actions[j] == b.actions[j];
      }
    }
  }

  /**
    A board on which the decision is not deserved: an obligation that a ready action serves is merged
    onto one that succeeded, is satisfied at once, and stays so when the ready action ends partial.
  */
  lemma MergedTooEarly() returns (b: Board, after: Board, ended: Action)
    ensures WellFormed(b) && NobodyForgotten(b) && |b.actions| == 2 && |b.obligations| == 1
    ensures b.obligations[0].required && b.obligations[0].status.Queued?
    ensures after == MergeFinished(b, 0, [b.obligations[0].id]) && after.obligations[0].status.Satisfied?
    ensures Ends(after, 1, ended, true) && ended.status.Partial? && Serves(ended, b.obligations[0].id)
    ensures AfterEnd(after, 1, ended, after.actions[1].obligationIds, true, [], None).obligations[0].status.Satisfied?
  {
    b := HalfDone();
    HalfDoneIsSound();
    hide WellFormed, NobodyForgotten;
    after := MergeFinished(b, 0, ["o"]);
    assert "o" in ["o"] && "o" !in b.actions[0].obligationIds;
    ended := b.actions[1].(status := Partial, revision := 2);
    assert after.actions[1] == b.actions[1];
  }

  // ---- An obligation named twice ----

  /** An action that names an obligation twice: the store keeps such a list, and ending the action then fails. */
  lemma NamedTwiceFails() returns (actions: seq<Action>, obligations: seq<Obligation>)
    ensures |actions| == 1 && actions[0].status.Succeeded? && actions[0].obligationIds == ["o", "o"]
    ensures |obligations| == 1 && obligations[0].id == "o" && IsAwaited(obligations[0].status)
    ensures DecidesTwice(actions, actions[0].obligationIds, 2, obligations)
  {
    actions := [Action("x", ["o", "o"], [], "v", "read", Succeeded, 2, [], None)];
    obligations := [Obligation("o", true, false, [], Queued, [], [])];
    var ids := actions[0].obligationIds;
    assert ids[1] == "o" && ids[..1] == ["o"] && ids[1] in ids[..1] && obligations[0].id == ids[1];
    HasPendingMeans(actions, "o");
    assert !StillServed(actions, "o");
  }
}
