/**
  In which order a run may end actions, and how many of each it ends, said of the statuses on the
  board before and after.
*/
module RunOrder {
  import opened Wrappers
  import opened Investigation

  /** An action with the id stands on the board with one of these statuses. */
  ghost predicate StandsAs(actions: seq<Action>, id: string, statuses: set<ActionStatus>) {
    exists j :: 0 <= j < |actions| && actions[j].id == id && actions[j].status in statuses
  }

  /** Authorised, eligible, and everything it depends on has brought something home. */
  ghost predicate MayRun(actions: seq<Action>, authorization: string, eligible: Option<set<string>>, action: Action) {
    && action.authorization == authorization && (eligible == None || action.id in eligible.value)
    && forall id :: id in action.dependsOn ==> StandsAs(actions, id, {Succeeded, Partial})
  }

  ghost predicate IsHeldBack(actions: seq<Action>, action: Action) {
    exists id :: id in action.dependsOn && StandsAs(actions, id, {Failed, Blocked, Cancelled})
  }

  /** What became of the READY actions is warranted by how the others stand at the end. */
  ghost predicate RanInOrder(authorization: string, eligible: Option<set<string>>, before: seq<Action>,
                             after: seq<Action>) {
    && |after| == |before|
    && forall i :: 0 <= i < |before| && before[i].status == Ready ==>
         && (after[i].status in {Succeeded, Partial, Failed} ==> MayRun(after, authorization, eligible, before[i]))
         && (after[i].status == Blocked ==> IsHeldBack(after, before[i]))
         && after[i].status in {Ready, Succeeded, Partial, Failed, Blocked}
  }

  ghost predicate AllDevelop(before: seq<Action>, after: seq<Action>) {
    |after| == |before| && forall i :: 0 <= i < |before| ==> ActionDevelops(before[i], after[i])
  }

  lemma FinishedStand(middle: seq<Action>, after: seq<Action>, id: string, statuses: set<ActionStatus>)
    requires AllDevelop(middle, after) && Ready !in statuses && Running !in statuses
    requires StandsAs(middle, id, statuses)
    ensures StandsAs(after, id, statuses)
  {
    var j :| 0 <= j < |middle| && middle[j].id == id && middle[j].status in statuses;
    assert ActionDevelops(middle[j], after[j]);
    assert !IsPending(middle[j].status);
  }

  lemma WarrantsStay(middle: seq<Action>, after: seq<Action>, authorization: string, eligible: Option<set<string>>,
                     a: Action)
    requires AllDevelop(middle, after)
    ensures MayRun(middle, authorization, eligible, a) ==> MayRun(after, authorization, eligible, a)
    ensures IsHeldBack(middle, a) ==> IsHeldBack(after, a)
  {
    forall id | id in a.dependsOn && StandsAs(middle, id, {Succeeded, Partial})
      ensures StandsAs(after, id, {Succeeded, Partial})
    {
      FinishedStand(middle, after, id, {Succeeded, Partial});
    }
    if id :| id in a.dependsOn && StandsAs(middle, id, {Failed, Blocked, Cancelled}) {
      FinishedStand(middle, after, id, {Failed, Blocked, Cancelled});
    }
  }

  lemma NothingRan(authorization: string, eligible: Option<set<string>>, actions: seq<Action>)
    ensures RanInOrder(authorization, eligible, actions, actions)
  {
  }

  /** Going on from a board in order, with every new end warranted, is in order. */
  lemma OrderGoesOn(authorization: string, eligible: Option<set<string>>, before: seq<Action>, middle: seq<Action>,
                    after: seq<Action>)
    requires RanInOrder(authorization, eligible, before, middle)
    requires AllDevelop(before, middle) && AllDevelop(middle, after)
    requires forall i :: 0 <= i < |middle| && after[i] != middle[i] ==>
      && middle[i].status == Ready
      && (|| (after[i].status in {Succeeded, Partial, Failed} && MayRun(middle, authorization, eligible, middle[i]))
          || (after[i].status == Blocked && IsHeldBack(middle, middle[i])))
    ensures RanInOrder(authorization, eligible, before, after)
  {
    hide MayRun, IsHeldBack;
    forall i | 0 <= i < |before| && before[i].status == Ready
      ensures after[i].status in {Succeeded, Partial, Failed} ==> MayRun(after, authorization, eligible, before[i])
      ensures after[i].status == Blocked ==> IsHeldBack(after, before[i])
      ensures after[i].status in {Ready, Succeeded, Partial, Failed, Blocked}
    {
      WarrantsStay(middle, after, authorization, eligible, before[i]);
      assert ActionDevelops(before[i], middle[i]);
      SameWarrants(middle, authorization, eligible, before[i], middle[i]);
    }
  }

  lemma SameWarrants(actions: seq<Action>, authorization: string, eligible: Option<set<string>>, a: Action, b: Action)
    requires ActionDevelops(a, b)
    ensures MayRun(actions, authorization, eligible, a) <==> MayRun(actions, authorization, eligible, b)
    ensures IsHeldBack(actions, a) <==> IsHeldBack(actions, b)
  {
  }

  // ---- Counting ----

  /** How many READY actions have come to stand with a status. */
  function EndedAs(before: seq<Action>, after: seq<Action>, status: ActionStatus): nat
    requires |before| == |after|
  {
    if before == [] then 0
    else
      (if before[0].status == Ready && after[0].status == status then 1 else 0)
      + EndedAs(before[1..], after[1..], status)
  }

  lemma {:induction false} OneMoreEnded(before: seq<Action>, middle: seq<Action>, i: nat, ended: Action,
                                        status: ActionStatus)
    requires |before| == |middle| && i < |middle| && before[i].status == Ready && middle[i].status == Ready
    requires status != Ready
    ensures EndedAs(before, middle[i := ended], status)
         == EndedAs(before, middle, status) + if ended.status == status then 1 else 0
  {
    if i == 0 {
      assert middle[i := ended][1..] == middle[1..];
    } else {
      OneMoreEnded(before[1..], middle[1..], i - 1, ended, status);
      assert middle[i := ended][1..] == middle[1..][i - 1 := ended];
    }
  }

  lemma {:induction false} SameEnded(before: seq<Action>, middle: seq<Action>, after: seq<Action>, status: ActionStatus)
    requires |before| == |middle| == |after|
    requires forall i :: 0 <= i < |middle| ==>
      after[i] == middle[i] || (middle[i].status != status && after[i].status != status)
    ensures EndedAs(before, middle, status) == EndedAs(before, after, status)
  {
    if before != [] {
      SameEnded(before[1..], middle[1..], after[1..], status);
    }
  }

  lemma {:induction false} NoneEnded(actions: seq<Action>, status: ActionStatus)
    requires status != Ready
    ensures EndedAs(actions, actions, status) == 0
  {
    if actions != [] {
      NoneEnded(actions[1..], status);
    }
  }
}
