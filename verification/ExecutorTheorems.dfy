/** What the executor's bookkeeping comes to over whole runs. */
module ExecutorTheorems {
  import opened Wrappers
  import opened Investigation
  import opened RunOrder
  import opened Executor

  /** Some action that names the obligation ended otherwise than SUCCEEDED. */
  ghost predicate SomeEndedShort(actions: seq<Action>, obligationId: string) {
    exists i :: 0 <= i < |actions| && obligationId in actions[i].obligationIds
      && actions[i].status in {Partial, Failed, Blocked, Cancelled}
  }

  lemma EndedShortMeans(actions: seq<Action>, obligationId: string)
    ensures SomeEndedShort(actions, obligationId) <==> SomeFellShort(actions, obligationId)
  {
    if i :| 0 <= i < |actions| && obligationId in actions[i].obligationIds
            && actions[i].status in {Partial, Failed, Blocked, Cancelled} {
      assert Serves(actions[i], obligationId) && FellShort(actions[i].status);
    }
    if i :| 0 <= i < |actions| && Serves(actions[i], obligationId) && FellShort(actions[i].status) {
      assert obligationId in actions[i].obligationIds;
    }
  }

  /** A decided obligation says what became of every action that names it. */
  lemma DecisionsAreDeserved(before: Board, after: Board, k: nat)
    requires Develops(before, after) && k < |before.obligations|
    requires before.obligations[k].status in {Open, Queued} && after.obligations[k].status !in {Open, Queued}
    ensures var actions, id := after.actions, after.obligations[k].id;
      && (after.obligations[k].status == Satisfied <==>
            forall i :: 0 <= i < |actions| && id in actions[i].obligationIds ==> actions[i].status == Succeeded)
      && (after.obligations[k].status == Limited <==> SomeEndedShort(actions, id))
      && (forall i :: 0 <= i < |actions| && id in actions[i].obligationIds ==> actions[i].status !in {Ready, Running})
  {
    var o := after.obligations[k];
    assert ObligationDevelops(after.actions, before.obligations[k], o);
    EndedShortMeans(after.actions, o.id);
    forall i | 0 <= i < |after.actions| && o.id in after.actions[i].obligationIds
      ensures after.actions[i].status !in {Ready, Running}
    {
      assert Serves(after.actions[i], o.id);
    }
    if SomeFellShort(after.actions, o.id) {
      var i :| 0 <= i < |after.actions| && Serves(after.actions[i], o.id) && FellShort(after.actions[i].status);
      assert !after.actions[i].status.Succeeded?;
    } else {
      forall i | 0 <= i < |after.actions| && Serves(after.actions[i], o.id)
        ensures after.actions[i].status.Succeeded?
      {
        assert !IsPending(after.actions[i].status) && !FellShort(after.actions[i].status);
      }
    }
  }

  /** Some action that names the obligation produced the reference. */
  ghost predicate IsContributed(actions: seq<Action>, obligationId: string, ref: string) {
    exists i :: 0 <= i < |actions| && Serves(actions[i], obligationId) && ref in actions[i].resultRefs
  }

  ghost predicate IsComplaint(actions: seq<Action>, obligationId: string, error: string) {
    exists i :: 0 <= i < |actions| && Serves(actions[i], obligationId) && actions[i].error == Some(error) && error != ""
  }

  lemma {:induction false} ContributionsAre(actions: seq<Action>, obligationId: string, ref: string)
    ensures ref in ContributorRefs(actions, obligationId) <==> IsContributed(actions, obligationId, ref)
    ensures ref in ContributorErrors(actions, obligationId) <==> IsComplaint(actions, obligationId, ref)
  {
    if actions != [] {
      var rest := actions[1..];
      ContributionsAre(rest, obligationId, ref);
      if IsContributed(rest, obligationId, ref) {
        var i :| 0 <= i < |rest| && Serves(rest[i], obligationId) && ref in rest[i].resultRefs;
        assert actions[i + 1] == rest[i];
      }
      if IsComplaint(rest, obligationId, ref) {
        var i :| 0 <= i < |rest| && Serves(rest[i], obligationId) && rest[i].error == Some(ref);
        assert actions[i + 1] == rest[i];
      }
      if i :| 0 < i < |actions| && Serves(actions[i], obligationId) && ref in actions[i].resultRefs {
        assert rest[i - 1] == actions[i];
      }
      if i :| 0 < i < |actions| && Serves(actions[i], obligationId) && actions[i].error == Some(ref) && ref != "" {
        assert rest[i - 1] == actions[i];
      }
    }
  }

  /** A decided obligation cites everything its contributors produced and complained of, once, and nothing else. */
  lemma DecisionsCiteTheirContributors(actions: seq<Action>, limited: bool, refs: seq<string>, reason: Option<string>,
                                       o: Obligation, ref: string)
    requires IsAwaited(o.status) && !HasPending(actions, o.id)
    ensures var decided := Decide(actions, limited, refs, reason, o);
      && (ref in decided.resultRefs <==> ref in o.resultRefs || IsContributed(actions, o.id, ref) || ref in refs)
      && (ref in decided.gapRefs <==>
            ref in o.gapRefs || IsComplaint(actions, o.id, ref) || (reason == Some(ref) && ref != ""))
      && NoRepeats(decided.resultRefs) && NoRepeats(decided.gapRefs)
  {
    ContributionsAre(actions, o.id, ref);
    DeduplicatedMembers(o.resultRefs + ContributorRefs(actions, o.id) + refs);
    DeduplicatedMembers(o.gapRefs + ContributorErrors(actions, o.id)
                        + (if reason.Some? && reason.value != "" then [reason.value] else []));
  }

  /** What it takes for an action to have been seen in full: an earlier clean run, or pages each complete in itself. */
  ghost predicate SeenInFull(tools: Tools, prior: PriorRuns, action: Action) {
    && action.operation in tools
    && if action.operation !in PAGED && prior(action).Some? then !prior(action).value.partial
       else exists cursors ::
         && Drain.CleanTrace(tools[action.operation](action), action.operation in PAGED, 0, cursors)
         && cursors[0] == None
  }

  /** An action SUCCEEDED exactly if it was seen in full. */
  lemma SucceededIff(tools: Tools, prior: PriorRuns, action: Action)
    ensures EndingFor(tools, prior, action).status.Succeeded? <==> SeenInFull(tools, prior, action)
  {
    if action.operation in tools && (action.operation in PAGED || prior(action).None?) {
      Drain.CleanIff(tools[action.operation](action), action.operation in PAGED, 0, None, []);
    }
  }

  // ---- What an action brings home ----

  /** Read page by page, or not run before. */
  ghost predicate IsRunAfresh(tools: Tools, prior: PriorRuns, action: Action) {
    action.operation in tools && (action.operation in {"enumerate", "relate"} || prior(action) == None)
  }

  ghost predicate ReadsFor(tools: Tools, action: Action, cursors: seq<Option<string>>, stop: Drain.Stop)
    requires action.operation in tools
  {
    && Drain.Reads(tools[action.operation](action), action.operation in {"enumerate", "relate"}, 0, cursors, stop)
    && cursors[0] == None
  }

  /**
    An action that is run afresh ends with the references of all pages it has read, those of incomplete
    pages included, each once and in the order in which they first came; it is PARTIAL exactly if a page
    fell short or there was more to read, and FAILED exactly if it could not read its first page or its
    arguments did not fit on the way.
  */
  lemma EndingIsWhatWasRead(tools: Tools, prior: PriorRuns, action: Action)
    requires IsRunAfresh(tools, prior, action)
    ensures EndingFor(tools, prior, action).status == Failed <==>
      !exists cursors, stop :: ReadsFor(tools, action, cursors, stop)
    ensures EndingFor(tools, prior, action).status == Failed ==> EndingFor(tools, prior, action).refs == []
    ensures forall cursors, stop :: ReadsFor(tools, action, cursors, stop) ==>
      var tool, ending := tools[action.operation](action), EndingFor(tools, prior, action);
      && ending.status == (if Drain.SomeFallsShort(tool, 0, cursors) || stop != Drain.NoFurtherPage then Partial
                           else Succeeded)
      && InOrderOfAppearance(Drain.RowsAlong(tool, 0, cursors), ending.refs)
      && (ending.reason == None <==> ending.status == Succeeded)
  {
    hide Drain.DrainFrom, Drain.SomeFallsShort, Drain.RowsAlong, Deduplicated, InOrderOfAppearance;
    var tool, paged := tools[action.operation](action), action.operation in PAGED;
    Drain.FinishesIff(tool, paged, None);
    assert EndingFor(tools, prior, action) == EndingOf(Drain.DrainFrom(tool, paged, 0, None, false, []));
    if cursors, stop :| Drain.Reads(tool, paged, 0, cursors, stop) && cursors[0] == None {
      assert ReadsFor(tools, action, cursors, stop);
    }
    forall cursors, stop | ReadsFor(tools, action, cursors, stop)
      ensures InOrderOfAppearance(Drain.RowsAlong(tool, 0, cursors), EndingFor(tools, prior, action).refs)
    {
      DeduplicatedMeans(Drain.RowsAlong(tool, 0, cursors));
    }
  }

  /**
    An action that is not run afresh is FAILED if its operation is unknown, and otherwise ends as
    the earlier run did.
  */
  lemma OtherwiseReused(tools: Tools, prior: PriorRuns, action: Action)
    requires !IsRunAfresh(tools, prior, action)
    ensures var ending := EndingFor(tools, prior, action);
      if action.operation !in tools then ending.status == Failed && ending.refs == []
      else
        var earlier := prior(action).value;
        && ending.status == (if earlier.partial then Partial else Succeeded)
        && InOrderOfAppearance(earlier.refs, ending.refs)
  {
    if action.operation in tools {
      DeduplicatedMeans(prior(action).value.refs);
    }
  }

  /** `x` first comes at place `n`. */
  predicate FirstComesAt(ids: seq<string>, x: string, n: nat) {
    n < |ids| && ids[n] == x && x !in ids[..n]
  }

  ghost predicate ComesEarlier(ids: seq<string>, x: string, y: string) {
    exists m: nat, n: nat :: m < n && FirstComesAt(ids, x, m) && FirstComesAt(ids, y, n)
  }

  /** The members of a list, each once, in the order in which they first come. */
  ghost predicate InOrderOfAppearance(ids: seq<string>, once: seq<string>) {
    && (forall x :: x in once <==> x in ids)
    && (forall i, j :: 0 <= i < j < |once| ==> once[i] != once[j] && ComesEarlier(ids, once[i], once[j]))
  }

  lemma {:induction false} FirstComes(ids: seq<string>, x: string) returns (n: nat)
    requires x in ids
    ensures FirstComesAt(ids, x, n)
  {
    if ids[0] == x {
      n := 0;
    } else {
      var rest := FirstComes(ids[1..], x);
      n := rest + 1;
      assert ids[..n] == [ids[0]] + ids[1..][..rest];
    }
  }

  lemma {:induction false} DeduplicatedMeans(ids: seq<string>)
    ensures InOrderOfAppearance(ids, Deduplicated(ids))
  {
    DeduplicatedMembers(ids);
    if ids != [] {
      var front, last := ids[..|ids| - 1], ids[|ids| - 1];
      var earlier, once := Deduplicated(front), Deduplicated(ids);
      DeduplicatedMeans(front);
      DeduplicatedMembers(front);
      forall i, j | 0 <= i < j < |once|
        ensures ComesEarlier(ids, once[i], once[j])
      {
        AppearsLater(ids, front, earlier, i, j);
      }
    }
  }

  lemma AppearsLater(ids: seq<string>, front: seq<string>, earlier: seq<string>, i: nat, j: nat)
    requires ids != [] && front == ids[..|ids| - 1] && InOrderOfAppearance(front, earlier)
    requires var once := if ids[|ids| - 1] in earlier then earlier else earlier + [ids[|ids| - 1]]; i < j < |once|
    ensures var once := if ids[|ids| - 1] in earlier then earlier else earlier + [ids[|ids| - 1]];
      ComesEarlier(ids, once[i], once[j])
  {
    var last := ids[|ids| - 1];
    if j < |earlier| {
      assert ComesEarlier(front, earlier[i], earlier[j]);
      var m: nat, n: nat :| m < n && FirstComesAt(front, earlier[i], m) && FirstComesAt(front, earlier[j], n);
      assert front[..m] == ids[..m] && front[..n] == ids[..n];
      assert FirstComesAt(ids, earlier[i], m) && FirstComesAt(ids, earlier[j], n);
    } else {
      assert earlier[i] in earlier;
      var m := FirstComes(front, earlier[i]);
      assert front[..m] == ids[..m];
      assert FirstComesAt(ids, earlier[i], m) && FirstComesAt(ids, last, |ids| - 1);
    }
  }

  // ---- Dependencies ----

  /** Every dependency is an action of the board, put there before what depends on it. */
  ghost predicate DependenciesComeFirst(actions: seq<Action>, arrival: map<string, nat>) {
    forall i, id :: 0 <= i < |actions| && id in actions[i].dependsOn ==>
      IsEarlierAction(actions, arrival, actions[i].id, id)
  }

  ghost predicate IsEarlierAction(actions: seq<Action>, arrival: map<string, nat>, later: string, id: string) {
    && id in arrival && later in arrival && arrival[id] < arrival[later]
    && exists j :: 0 <= j < |actions| && actions[j].id == id
  }

  /** Nothing can be claimed, nothing is running, and the block pass has nothing left to block. */
  ghost predicate IsIdle(actions: seq<Action>, authorization: string) {
    forall i :: 0 <= i < |actions| ==>
      && actions[i].authorization == authorization && actions[i].status != Running
      && (actions[i].status == Ready ==>
            !MayRun(actions, authorization, None, actions[i]) && !IsHeldBack(actions, actions[i]))
  }

  /** In an idle investigation no action is left waiting: a waiting one would wait for an earlier waiting one. */
  lemma {:induction false} NobodyWaits(actions: seq<Action>, authorization: string, arrival: map<string, nat>, i: nat)
    requires IsIdle(actions, authorization) && DependenciesComeFirst(actions, arrival)
    requires i < |actions| && (actions[i].dependsOn != [] ==> actions[i].id in arrival)
    ensures actions[i].status !in {Ready, Running}
    decreases if actions[i].id in arrival then arrival[actions[i].id] else 0
  {
    hide StandsAs, MayRun, IsHeldBack;
    if actions[i].status.Ready? {
      var id := WhatItWaitsFor(actions, authorization, i);
      assert IsEarlierAction(actions, arrival, actions[i].id, id);
      var j :| 0 <= j < |actions| && actions[j].id == id;
      NobodyWaits(actions, authorization, arrival, j);
    }
  }

  lemma WhatItWaitsFor(actions: seq<Action>, authorization: string, i: nat) returns (id: string)
    requires IsIdle(actions, authorization) && i < |actions| && actions[i].status.Ready?
    ensures id in actions[i].dependsOn
    ensures forall j :: 0 <= j < |actions| && actions[j].id == id ==> actions[j].status in {Ready, Running}
  {
    id :| id in actions[i].dependsOn && !StandsAs(actions, id, {Succeeded, Partial});
    assert !StandsAs(actions, id, {Failed, Blocked, Cancelled});
  }

  /** An idle investigation has decided every obligation that any action was meant to serve. */
  lemma IdleMeansDecided(b: Board, authorization: string, arrival: map<string, nat>)
    requires NobodyForgotten(b) && IsIdle(b.actions, authorization) && DependenciesComeFirst(b.actions, arrival)
    ensures forall i :: 0 <= i < |b.actions| ==> b.actions[i].status !in {Ready, Running}
    ensures forall k :: 0 <= k < |b.obligations| && Named(b.actions, b.obligations[k].id) ==>
      b.obligations[k].status in {Satisfied, Limited, Dropped}
  {
    forall i | 0 <= i < |b.actions|
      ensures b.actions[i].status !in {Ready, Running}
    {
      if b.actions[i].dependsOn != [] {
        assert IsEarlierAction(b.actions, arrival, b.actions[i].id, b.actions[i].dependsOn[0]);
      }
      NobodyWaits(b.actions, authorization, arrival, i);
    }
  }

  // ---- The block pass ----

  function ReadyCount(actions: seq<Action>): nat {
    if actions == [] then 0 else (if actions[0].status.Ready? then 1 else 0) + ReadyCount(actions[1..])
  }

  lemma {:induction false} FewerReady(before: seq<Action>, after: seq<Action>)
    requires |before| == |after| && forall i :: 0 <= i < |before| ==> after[i] == before[i] || !after[i].status.Ready?
    ensures ReadyCount(after) <= ReadyCount(before)
    ensures ReadyCount(after) == ReadyCount(before) ==> forall i ::
      0 <= i < |before| && before[i].status.Ready? ==> after[i].status.Ready?
  {
    if before != [] {
      FewerReady(before[1..], after[1..]);
      if ReadyCount(after) == ReadyCount(before) {
        forall i | 0 <= i < |before| && before[i].status.Ready?
          ensures after[i].status.Ready?
        {
          if i > 0 {
            assert before[1..][i - 1] == before[i] && after[1..][i - 1] == after[i];
          }
        }
      }
    }
  }

  /**
    One pass follows failed dependencies one step: what stays ready beside a failed dependency waits
    for an action that this same pass blocked.
  */
  lemma OnePassIsOneStep(actions: seq<Action>, i: nat, j: nat)
    requires i < |actions| && j < |actions|
    requires (forall m, n :: 0 <= m < n < |actions| ==> actions[m].id != actions[n].id)
    requires var after := BlockedUpTo(actions, |actions|);
      after[i].status.Ready? && actions[j].id in after[i].dependsOn && HasFailed(after[j].status)
    ensures IsBlockedIn(actions, j) && actions[i].status.Ready? && !HasFailedDependency(actions, actions[i])
  {
    assert HasFailed(actions[j].status) ==> DependencyFailed(actions, actions[j].id);
  }

  /** No ready action waits for one that failed. */
  predicate IsSettled(actions: seq<Action>) {
    forall i :: 0 <= i < |actions| && actions[i].status.Ready? ==> !HasFailedDependency(actions, actions[i])
  }

  /** Action `i` is left ready by a pass that blocks action `j`, for which it waits. */
  ghost predicate WaitsForBlocked(actions: seq<Action>, i: nat, j: nat)
    requires i < |actions| && j < |actions|
  {
    actions[i].status.Ready? && !IsBlockedIn(actions, i) && IsBlockedIn(actions, j)
      && actions[j].id in actions[i].dependsOn
  }

  /**
    Exactly when one pass blocks everything that waits for a failure: when no ready action that it
    leaves alone depends on one that it blocks.
  */
  lemma OnePassSettlesIff(actions: seq<Action>)
    requires forall m, n :: 0 <= m < n < |actions| ==> actions[m].id != actions[n].id
    ensures IsSettled(BlockedUpTo(actions, |actions|)) <==>
            forall i, j :: 0 <= i < |actions| && 0 <= j < |actions| ==> !WaitsForBlocked(actions, i, j)
  {
    hide BlockedUpTo, IsBlockedIn, DependencyFailed, HasFailedDependency;
    var after := BlockedUpTo(actions, |actions|);
    if i, j :| 0 <= i < |actions| && 0 <= j < |actions| && WaitsForBlocked(actions, i, j) {
      WaitingIsUnsettled(actions, i, j);
    } else if !IsSettled(after) {
      var i, j := UnsettledIsWaiting(actions);
      assert WaitsForBlocked(actions, i, j);
    }
  }

  lemma WaitingIsUnsettled(actions: seq<Action>, i: nat, j: nat)
    requires i < |actions| && j < |actions| && WaitsForBlocked(actions, i, j)
    ensures !IsSettled(BlockedUpTo(actions, |actions|))
  {
    var after := BlockedUpTo(actions, |actions|);
    assert after[j].status.Blocked? && after[j].id == actions[j].id && after[i] == actions[i];
    hide BlockedUpTo, IsBlockedIn;
    assert DependencyFailed(after, actions[j].id);
    assert HasFailedDependency(after, after[i]);
  }

  lemma UnsettledIsWaiting(actions: seq<Action>) returns (i: nat, j: nat)
    requires !IsSettled(BlockedUpTo(actions, |actions|))
    requires forall m, n :: 0 <= m < n < |actions| ==> actions[m].id != actions[n].id
    ensures i < |actions| && j < |actions| && WaitsForBlocked(actions, i, j)
  {
    hide BlockedUpTo, FirstFailed;
    var after := BlockedUpTo(actions, |actions|);
    i :| 0 <= i < |after| && after[i].status.Ready? && HasFailedDependency(after, after[i]);
    var id :| id in after[i].dependsOn && DependencyFailed(after, id);
    j :| 0 <= j < |after| && after[j].id == id && HasFailed(after[j].status);
    PassLeavesReady(actions, i);
    PassLeavesReady(actions, j);
    OnePassIsOneStep(actions, i, j);
  }

  lemma PassLeavesReady(actions: seq<Action>, k: nat)
    requires k < |actions|
    ensures var after := BlockedUpTo(actions, |actions|);
      after[k].id == actions[k].id && (after[k].status.Ready? ==> after[k] == actions[k])
  {
    hide FirstFailed, IsBlockedIn;
  }

  function ChainAction(id: string, dependsOn: seq<string>, status: ActionStatus): Action {
    Action(id, [], dependsOn, "v", "read", status, 0, [], None)
  }

  function Chain(): seq<Action> {
    [ChainAction("a", [], Failed), ChainAction("b", ["a"], Ready), ChainAction("c", ["b"], Ready)]
  }

  lemma FirstOfTheChain()
    ensures !IsBlockedIn(Chain(), 0) && IsBlockedIn(Chain(), 1) && !IsBlockedIn(Chain(), 2)
  {
    var actions := Chain();
    assert actions[0].id == "a" && actions[1].id == "b" && actions[2].id == "c";
    assert DependencyFailed(actions, "a") && !DependencyFailed(actions, "b");
    assert "a" in actions[1].dependsOn && HasFailedDependency(actions, actions[1])
      && !HasFailedDependency(actions, actions[2]);
  }

  lemma OncePassed() returns (once: seq<Action>)
    ensures once == BlockedUpTo(Chain(), 3) && |once| == 3
    ensures once[0].status.Failed? && once[1].status.Blocked? && once[1].id == Chain()[1].id && once[2] == Chain()[2]
    ensures !IsSettled(once)
  {
    var actions := Chain();
    FirstOfTheChain();
    hide IsBlockedIn, FirstFailed;
    once := BlockedUpTo(actions, 3);
    assert once[0] == actions[0] && once[2] == actions[2];
    assert actions[1].id in actions[2].dependsOn && WaitsForBlocked(actions, 2, 1);
    WaitingIsUnsettled(actions, 2, 1);
  }

  /** When only the last action is ready and waits for a blocked one, a pass leaves none ready. */
  lemma LastIsBlocked(once: seq<Action>)
    requires |once| == 3 && !once[0].status.Ready? && once[1].status.Blocked? && once[2].status.Ready?
    requires once[1].id in once[2].dependsOn
    ensures IsSettled(BlockedUpTo(once, 3))
  {
    hide FirstFailed;
    assert DependencyFailed(once, once[1].id);
    assert HasFailedDependency(once, once[2]);
    assert IsBlockedIn(once, 2);
    hide IsBlockedIn, DependencyFailed, HasFailedDependency;
    assert forall i :: 0 <= i < 3 ==> !BlockedUpTo(once, 3)[i].status.Ready?;
  }

  lemma TwoPasses(actions: seq<Action>)
    ensures Passes(actions, 1) == BlockedUpTo(actions, |actions|)
    ensures Passes(actions, 2) == BlockedUpTo(BlockedUpTo(actions, |actions|), |actions|)
  {
    hide BlockedUpTo;
    var once := BlockedUpTo(actions, |actions|);
    var twice := BlockedUpTo(once, |once|);
    assert Passes(actions, 1) == Passes(once, 0) == once;
    assert Passes(actions, 2) == Passes(once, 1) == Passes(twice, 0) == twice;
  }

  /**
    A chain of three: after one pass the last action is still ready beside a blocked dependency; a
    second pass blocks it.
  */
  lemma AChainNeedsTwoPasses() returns (actions: seq<Action>)
    ensures actions == [ChainAction("a", [], Failed), ChainAction("b", ["a"], Ready), ChainAction("c", ["b"], Ready)]
    ensures !IsSettled(Passes(actions, 1)) && IsSettled(Passes(actions, 2))
  {
    hide BlockedUpTo, Passes, IsSettled;
    actions := Chain();
    var once := OncePassed();
    LastIsBlocked(once);
    TwoPasses(actions);
  }

  /** A pass that blocks nothing leaves no ready action beside a failed dependency; any other pass makes progress. */
  lemma PassesSettle(actions: seq<Action>)
    ensures var after := BlockedUpTo(actions, |actions|);
      if IsSettled(actions) then after == actions else ReadyCount(after) < ReadyCount(actions)
  {
    var after := BlockedUpTo(actions, |actions|);
    if i :| 0 <= i < |actions| && actions[i].status.Ready? && HasFailedDependency(actions, actions[i]) {
      FewerReady(actions, after);
      assert IsBlockedIn(actions, i);
      assert !after[i].status.Ready?;
    }
  }

  /** The actions after a number of block passes. */
  function Passes(actions: seq<Action>, n: nat): seq<Action>
    decreases n
  {
    if n == 0 then actions else Passes(BlockedUpTo(actions, |actions|), n - 1)
  }

  /** As many passes as there are ready actions are enough. */
  lemma {:induction false} EnoughPasses(actions: seq<Action>, n: nat)
    requires n >= ReadyCount(actions)
    ensures IsSettled(Passes(actions, n))
    decreases n
  {
    PassesSettle(actions);
    var once := BlockedUpTo(actions, |actions|);
    if n == 0 {
      if i :| 0 <= i < |actions| && actions[i].status.Ready? {
        SomeReady(actions, i);
      }
    } else if once == actions {
      SettledStaysSettled(actions, n);
    } else {
      EnoughPasses(once, n - 1);
    }
  }

  lemma {:induction false} SettledStaysSettled(actions: seq<Action>, n: nat)
    requires BlockedUpTo(actions, |actions|) == actions
    ensures Passes(actions, n) == actions
    decreases n
  {
    if n > 0 {
      SettledStaysSettled(actions, n - 1);
    }
  }

  lemma {:induction false} SomeReady(actions: seq<Action>, i: nat)
    requires i < |actions| && actions[i].status.Ready?
    ensures ReadyCount(actions) > 0
  {
    if i > 0 {
      SomeReady(actions[1..], i - 1);
    }
  }

  lemma {:induction false} DeduplicatedMembers(ids: seq<string>)
    ensures forall x :: x in Deduplicated(ids) <==> x in ids
    ensures NoRepeats(Deduplicated(ids))
  {
    if ids != [] {
      DeduplicatedMembers(ids[..|ids| - 1]);
      assert ids == ids[..|ids| - 1] + [ids[|ids| - 1]];
    }
  }
}
