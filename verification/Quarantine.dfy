/**
  Quarantining a file, as a state machine over the steps of the helper. The helper may crash or be
  run again at any point, and another process may put something else at the source path between any
  two steps. The quarantine directory is private to the helper, and one helper at a time works on an
  action.
*/
module Quarantine {
  import opened Wrappers

  /** A file object: device and inode number. */
  type Inode = nat

  /** The arguments a request is bound to; different arguments have different digests. */
  datatype Args = Args(operation: string, digest: string, expected: Inode)

  datatype ReceiptStatus = Started | Succeeded(verifiedMode000: bool, verifiedMissing: bool) | Failed

  datatype Receipt = Receipt(args: Args, status: ReceiptStatus)

  /** Where the helper is: the last thing it has done. */
  datatype Stage =
    | Opened      // holds the descriptor of the expected inode
    | Bound       // the receipt exists and is for this request
    | Hashed      // the content digest is the approved one
    | Prepared    // the quarantine directory exists
    | SameDevice  // source and quarantine share a file system
    | Checked     // the source path still names the expected inode
    | Renamed     // the rename has happened
    | Mismatched  // the moved object is not the expected one
    | RollingBack // the source path was taken to be free
    | RolledBack  // the rollback is over, done or not
    | Confirmed   // the moved object is the expected one
    | Sealed      // its mode has been cleared
    | Measured    // its mode has been read back

  datatype Helper = Idle | Running(args: Args, stage: Stage)

  /** The file system and the helper; `links` are the objects that are symbolic links. */
  datatype State = State(
    links: set<Inode>,
    source: Option<Inode>,
    target: Option<Inode>,
    cleared: set<Inode>,
    receipt: Option<Receipt>,
    helper: Helper)

  datatype Event =
    /** The helper is invoked. */
    | Start(args: Args)
    /**
      The helper takes its next step; a check it makes comes out one way or the other, or the call
      raises. Where it asks whether the source exists, the check says whether a link there resolves.
    */
    | Advance(check: bool, raises: bool)
    /** The helper dies. */
    | Crash
    /** Another process changes what the source path names. */
    | Swap(inode: Option<Inode>)

  function Begin(s: State, args: Args): State {
    if s.helper != Idle then s
    else if s.source != Some(args.expected) || args.expected in s.links then
            s // not the regular file asked for: an error, nothing written
    else s.(helper := Running(args, Opened))
  }

  function Finish(s: State, args: Args, status: ReceiptStatus): State {
    s.(receipt := Some(Receipt(args, status)), helper := Idle)
  }

  /** Renaming onto another name of the same object does nothing. */
  function RenameOver(from: Option<Inode>, to: Option<Inode>): (Option<Inode>, Option<Inode>) {
    if from == to then (from, to) else (None, from)
  }

  /** Asking whether a path exists follows links, so a link that does not resolve is not seen. */
  predicate SeesSource(s: State, resolves: bool) {
    s.source.Some? && (s.source.value in s.links ==> resolves)
  }

  /** One step of a running helper. */
  function AdvanceHelper(s: State, args: Args, stage: Stage, check: bool): State {
    match stage
    case Opened =>
      if s.receipt.None? then s.(receipt := Some(Receipt(args, Started)), helper := Running(args, Bound))
      else if s.receipt.value.args != args then s.(helper := Idle)
      else if s.receipt.value.status.Succeeded? then s.(helper := Idle)
      else s.(helper := Running(args, Bound))
    case Bound => if check then s.(helper := Running(args, Hashed)) else Finish(s, args, Failed)
    case Hashed => s.(helper := Running(args, Prepared))
    case Prepared =>
      if s.source.None? then s.(helper := Idle)
      else if check then s.(helper := Running(args, SameDevice)) else Finish(s, args, Failed)
    case SameDevice =>
      if s.source.None? then s.(helper := Idle)
      else if s.source == Some(args.expected) then s.(helper := Running(args, Checked)) else Finish(s, args, Failed)
    case Checked =>
      if s.source.None? then s.(helper := Idle)
      else
        var (source, target) := RenameOver(s.source, s.target);
        s.(source := source, target := target, helper := Running(args, Renamed))
    case Renamed => s.(helper := Running(args, if s.target == Some(args.expected) then Confirmed else Mismatched))
    case Mismatched => s.(helper := Running(args, if SeesSource(s, check) then RolledBack else RollingBack))
    case RollingBack =>
      if s.target.None? then s.(helper := Idle)
      else
        var (target, source) := RenameOver(s.target, s.source);
        s.(source := source, target := target, helper := Running(args, RolledBack))
    case RolledBack => Finish(s, args, Failed)
    case Confirmed =>
      s.(cleared := if s.target.Some? then s.cleared + {s.target.value} else s.cleared, helper := Running(args, Sealed))
    case Sealed => s.(helper := if s.target.Some? then Running(args, Measured) else Idle)
    case Measured => Finish(s, args, Succeeded(s.target.Some? && s.target.value in s.cleared, !SeesSource(s, check)))
  }

  function Next(s: State, e: Event): State {
    match e
    case Start(args) => Begin(s, args)
    case Crash => s.(helper := Idle)
    case Swap(inode) => s.(source := inode)
    case Advance(check, raises) =>
      if s.helper.Idle? then s
      else if raises then s.(helper := Idle)
      else AdvanceHelper(s, s.helper.args, s.helper.stage, check)
  }

  function Run(s: State, events: seq<Event>): State {
    if events == [] then s else Next(Run(s, events[..|events| - 1]), events[|events| - 1])
  }

  predicate IsInitial(s: State) {
    s.receipt.None? && s.helper.Idle?
  }

  // ---- What every step keeps ----

  predicate PastReceipt(stage: Stage) {
    !stage.Opened?
  }

  predicate Holds(s: State) {
    && (s.helper.Running? && PastReceipt(s.helper.stage) ==>
          s.receipt.Some? && s.receipt.value.args == s.helper.args && !s.receipt.value.status.Succeeded?)
    && (s.helper.Running? && s.helper.stage in {Confirmed, Sealed, Measured} ==>
        s.target == Some(s.helper.args.expected))
    && (s.helper.Running? && s.helper.stage in {Sealed, Measured} ==> s.helper.args.expected in s.cleared)
    && (s.receipt.Some? && s.receipt.value.status.Succeeded? ==>
          && s.target == Some(s.receipt.value.args.expected) && s.receipt.value.args.expected in s.cleared
          && s.receipt.value.status.verifiedMode000)
  }

  lemma StepsKeepInvariant(s: State, e: Event)
    requires Holds(s)
    ensures Holds(Next(s, e))
  {
  }

  lemma {:induction false} RunsKeepInvariant(s: State, events: seq<Event>)
    requires IsInitial(s)
    ensures Holds(Run(s, events))
  {
    if events != [] {
      RunsKeepInvariant(s, events[..|events| - 1]);
      StepsKeepInvariant(Run(s, events[..|events| - 1]), events[|events| - 1]);
    }
  }

  /**
    Whatever crashes, retries and swaps of the source happen, in any order: while the receipt says
    SUCCEEDED, the quarantine path names exactly the approved inode and its mode is 000.
  */
  lemma SucceededMeansApprovedIsSealed(s: State, events: seq<Event>)
    requires IsInitial(s)
    requires Run(s, events).receipt.Some? && Run(s, events).receipt.value.status.Succeeded?
    ensures var end := Run(s, events);
      && end.target == Some(end.receipt.value.args.expected) && end.receipt.value.args.expected in end.cleared
      && end.receipt.value.status.verifiedMode000
  {
    RunsKeepInvariant(s, events);
  }

  // ---- Receipts ----

  /** How a receipt may develop: its arguments never change, and SUCCEEDED is final. */
  predicate Develops(before: Option<Receipt>, after: Option<Receipt>) {
    before.Some? ==>
      && after.Some? && after.value.args == before.value.args
      && (before.value.status.Succeeded? ==> after == before)
  }

  lemma {:induction false} ReceiptsOnlyDevelop(s: State, earlier: seq<Event>, later: seq<Event>)
    requires IsInitial(s)
    ensures Develops(Run(s, earlier).receipt, Run(s, earlier + later).receipt)
  {
    if later == [] {
      assert earlier + later == earlier;
    } else {
      var front := later[..|later| - 1];
      ReceiptsOnlyDevelop(s, earlier, front);
      RunsKeepInvariant(s, earlier + front);
      assert (earlier + later)[..|earlier + later| - 1] == earlier + front;
      assert (earlier + later)[|earlier + later| - 1] == later[|later| - 1];
    }
  }

  // ---- Crashes and retries alone ----

  predicate NoSwaps(events: seq<Event>) {
    forall i :: 0 <= i < |events| ==> !events[i].Swap?
  }

  /** Exactly one of the two paths names the inode. */
  predicate LinkedOnce(s: State, inode: Inode) {
    (s.source == Some(inode)) != (s.target == Some(inode))
  }

  predicate UndisturbedHolds(s: State, inode: Inode) {
    && ((s.source == Some(inode) && s.target.None?) || (s.source.None? && s.target == Some(inode)))
    && (s.helper.Running? ==>
          && s.helper.args.expected == inode
          && (s.helper.stage in {Opened, Bound, Hashed, Prepared, SameDevice, Checked} ==> s.source == Some(inode))
          && (s.helper.stage in {Renamed, Confirmed, Sealed, Measured} ==> s.target == Some(inode))
          && s.helper.stage !in {Mismatched, RollingBack, RolledBack})
  }

  lemma UndisturbedStep(s: State, e: Event, inode: Inode)
    requires UndisturbedHolds(s, inode) && !e.Swap?
    ensures UndisturbedHolds(Next(s, e), inode)
  {
  }

  /**
    With crashes and retries at any step and nobody else at the source, the file is always at
    exactly one of the two paths: never lost, never in both.
  */
  lemma {:induction false} CrashesNeverLoseTheFile(s: State, events: seq<Event>, inode: Inode)
    requires IsInitial(s) && s.source == Some(inode) && s.target.None? && NoSwaps(events)
    ensures LinkedOnce(Run(s, events), inode)
    ensures UndisturbedHolds(Run(s, events), inode)
  {
    if events != [] {
      var front := events[..|events| - 1];
      CrashesNeverLoseTheFile(s, front, inode);
      UndisturbedStep(Run(s, front), events[|events| - 1], inode);
    }
  }

  // ---- One run left alone ----

  function StepsLeft(helper: Helper): nat {
    match helper
    case Idle => 0
    case Running(_, stage) =>
      match stage
      case Opened => 10
      case Bound => 9
      case Hashed => 8
      case Prepared => 7
      case SameDevice => 6
      case Checked => 5
      case Renamed => 4
      case Mismatched => 3
      case RollingBack => 2
      case RolledBack => 1
      case Confirmed => 3
      case Sealed => 2
      case Measured => 1
  }

  /** The outcome of the check a stage makes: the content is the approved one, the file systems agree. */
  function CheckAt(stage: Stage, approved: bool, together: bool): bool {
    if stage.Bound? then approved else if stage.Prepared? then together else true
  }

  /** The rest of a run in which nobody interferes and no call raises. */
  function LeftAlone(s: State, approved: bool, together: bool): State
    decreases StepsLeft(s.helper)
  {
    if s.helper.Idle? then s
    else LeftAlone(Next(s, Advance(CheckAt(s.helper.stage, approved, together), false)), approved, together)
  }

  /**
    What a run left alone comes to, whatever there was before: refused without a trace if the file asked
    for is not there, the receipt is for something else or has already SUCCEEDED; FAILED with the file
    where it was if its content is not the approved one or the quarantine is on another file system; and
    otherwise moved and sealed. Where the quarantine path already names the file, moving it does nothing.
  */
  function Outcome(s: State, args: Args, approved: bool, together: bool): State {
    if s.source != Some(args.expected) || args.expected in s.links then s
    else if s.receipt.Some? && (s.receipt.value.args != args || s.receipt.value.status.Succeeded?) then s
    else if !approved || !together then s.(receipt := Some(Receipt(args, Failed)))
    else
      var already := s.target == Some(args.expected);
      s.(source := if already then s.source else None, target := Some(args.expected),
         cleared := s.cleared + {args.expected}, receipt := Some(Receipt(args, Succeeded(true, !already))))
  }

  lemma MovesAndSeals(s: State, together: bool)
    requires s.helper.Running? && s.helper.stage.Checked?
    requires s.source == Some(s.helper.args.expected) && s.helper.args.expected !in s.links
    ensures var args := s.helper.args;
      var already := s.target == Some(args.expected);
      LeftAlone(s, true, together)
      == s.(source := if already then s.source else None, target := Some(args.expected),
            cleared := s.cleared + {args.expected}, receipt := Some(Receipt(args, Succeeded(true, !already))),
            helper := Idle)
  {
    hide LeftAlone;
    var renamed := AloneSteps(s, true, together);
    var confirmed := AloneSteps(renamed, true, together);
    var sealed := AloneSteps(confirmed, true, together);
    var measured := AloneSteps(sealed, true, together);
    var end := AloneSteps(measured, true, together);
    AloneStops(end, true, together);
  }

  /**
    When the moved object turns out to be another one, a run left alone ends FAILED, with the object back
    at the source if nothing is seen there, and in quarantine if something is.
  */
  lemma MismatchComesTo(s: State, approved: bool, together: bool)
    requires s.helper.Running? && s.helper.stage.Renamed? && s.target != Some(s.helper.args.expected) && s.target.Some?
    ensures var seen := s.source.Some?;
      LeftAlone(s, approved, together)
      == s.(source := if seen then s.source else s.target, target := if seen then s.target else None,
            receipt := Some(Receipt(s.helper.args, Failed)), helper := Idle)
  {
    hide LeftAlone;
    var mismatched := AloneSteps(s, approved, together);
    var looked := AloneSteps(mismatched, approved, together);
    var back := AloneSteps(looked, approved, together);
    if s.source.None? {
      var end := AloneSteps(back, approved, together);
      AloneStops(end, approved, together);
    } else {
      AloneStops(back, approved, together);
    }
  }

  lemma ChecksDecide(s: State, approved: bool, together: bool)
    requires s.helper.Running? && s.helper.stage.Bound? && s.source == Some(s.helper.args.expected)
    ensures LeftAlone(s, approved, together)
         == if approved && together then LeftAlone(s.(helper := Running(s.helper.args, Checked)), true, true)
            else s.(receipt := Some(Receipt(s.helper.args, Failed)), helper := Idle)
  {
    hide LeftAlone;
    var next := AloneSteps(s, approved, together);
    if approved {
      var prepared := AloneSteps(next, approved, together);
      var checked := AloneSteps(prepared, approved, together);
      if together {
        var last := AloneSteps(checked, approved, together);
      } else {
        AloneStops(checked, approved, together);
      }
    } else {
      AloneStops(next, approved, together);
    }
  }

  /** Every run left alone comes to its outcome. */
  lemma RunsComeToTheirOutcome(s: State, args: Args, approved: bool, together: bool)
    requires s.helper.Idle?
    ensures LeftAlone(Begin(s, args), approved, together) == Outcome(s, args, approved, together)
  {
    hide LeftAlone;
    var begun := Begin(s, args);
    if begun == s {
      AloneStops(s, approved, together);
    } else {
      var bound := AloneSteps(begun, approved, together);
      if bound.helper.Idle? {
        AloneStops(bound, approved, together);
      } else {
        ChecksDecide(bound, approved, together);
        MovesAndSeals(bound.(helper := Running(args, Checked)), true);
      }
    }
  }

  datatype Refusal = StaleRef | BoundToOtherArguments

  /** The host as the program sees it. */
  class Host {
    const links: set<Inode>
    var source: Option<Inode>
    var target: Option<Inode>
    var cleared: set<Inode>
    var receipt: Option<Receipt>

    constructor (links: set<Inode>, source: Option<Inode>)
      ensures Abstract(Idle) == State(links, source, None, {}, None, Idle)
    {
      this.links, this.source, this.target, this.cleared, this.receipt := links, source, None, {}, None;
    }

    function Abstract(helper: Helper): State
      reads this
    {
      State(links, source, target, cleared, receipt, helper)
    }

    method BeginReceipt(args: Args) returns (begun: Result<Receipt, Refusal>)
      modifies this`receipt
      ensures old(receipt).None? ==> receipt == Some(Receipt(args, Started)) && begun == Ok(receipt.value)
      ensures old(receipt).Some? ==>
        && receipt == old(receipt)
        && begun == if receipt.value.args == args then Ok(receipt.value) else Err(BoundToOtherArguments)
    {
      if receipt.Some? {
        return if receipt.value.args == args then Ok(receipt.value) else Err(BoundToOtherArguments);
      }
      receipt := Some(Receipt(args, Started));
      return Ok(receipt.value);
    }

    method FinishReceipt(begun: Receipt, status: ReceiptStatus) returns (finished: Receipt)
      modifies this`receipt
      ensures finished == Receipt(begun.args, status) && receipt == Some(finished)
    {
      finished := begun.(status := status);
      receipt := Some(finished);
    }

    /**
      The program from start to end is the state machine left alone. With nobody else at the source
      the identity checks after the first one cannot fail, so their branches appear only as steps of
      the machine.
    */
    method QuarantineFile(args: Args, approved: bool, together: bool) returns (answer: Result<Receipt, Refusal>)
      modifies this
      ensures Abstract(Idle) == LeftAlone(Begin(old(Abstract(Idle)), args), approved, together)
      ensures answer.Ok? ==> receipt == Some(answer.value)
      ensures answer.Err? ==> Abstract(Idle) == old(Abstract(Idle))
      ensures answer == Err(StaleRef) <==> old(source) != Some(args.expected) || args.expected in links
      ensures answer == Err(BoundToOtherArguments) <==>
        && old(source) == Some(args.expected) && args.expected !in links
        && old(receipt).Some? && old(receipt).value.args != args
      ensures answer.Ok? && answer.value.status.Succeeded? && old(receipt) != receipt ==> approved && together
      ensures answer.Ok? && old(receipt) != receipt && !(approved && together) ==>
        && receipt == Some(Receipt(args, Failed))
        && source == old(source) && target == old(target) && cleared == old(cleared)
      ensures answer.Ok? && old(receipt) == receipt ==>
        && receipt.value.args == args && Abstract(Idle) == old(Abstract(Idle))
        && (receipt.value.status.Succeeded? || (receipt.value.status == Failed && !(approved && together)))
      ensures answer.Ok? && old(receipt) != receipt && approved && together ==>
        && target == Some(args.expected) && cleared == old(cleared) + {args.expected}
        && source == (if old(target) == old(source) then old(source) else None)
        && receipt == Some(Receipt(args, Succeeded(true, source == None)))
    {
      hide LeftAlone;
      ghost var s := Begin(Abstract(Idle), args);
      RunsComeToTheirOutcome(Abstract(Idle), args, approved, together);
      if source != Some(args.expected) || args.expected in links {
        AloneStops(s, approved, together);
        return Err(StaleRef);
      }
      s := AloneSteps(s, approved, together);
      var begun := BeginReceipt(args);
      if begun.Err? {
        AloneStops(s, approved, together);
        return Err(begun.error);
      }
      if begun.value.status.Succeeded? {
        AloneStops(s, approved, together);
        return Ok(begun.value);
      }
      s := AloneSteps(s, approved, together);
      var finished: Receipt;
      if !approved {
        finished := FinishReceipt(begun.value, Failed);
        AloneStops(s, approved, together);
        return Ok(finished);
      }
      s := AloneSteps(s, approved, together);
      s := AloneSteps(s, approved, together);
      if !together {
        finished := FinishReceipt(begun.value, Failed);
        AloneStops(s, approved, together);
        return Ok(finished);
      }
      s := AloneSteps(s, approved, together);
      s := AloneSteps(s, approved, together);
      finished := MoveAndSeal(begun.value, approved, together);
      return Ok(finished);
    }

    /** The rename and what follows it. */
    method MoveAndSeal(begun: Receipt, ghost approved: bool, ghost together: bool) returns (finished: Receipt)
      requires receipt == Some(begun) && source == Some(begun.args.expected)
      modifies this
      ensures Abstract(Idle) == LeftAlone(old(Abstract(Running(begun.args, Checked))), approved, together)
      ensures receipt == Some(finished)
    {
      hide LeftAlone;
      ghost var s := Abstract(Running(begun.args, Checked));
      source, target := RenameOver(source, target).0, RenameOver(source, target).1;
      s := AloneSteps(s, approved, together);
      s := AloneSteps(s, approved, together);
      cleared := cleared + {target.value};
      s := AloneSteps(s, approved, together);
      s := AloneSteps(s, approved, together);
      finished := FinishReceipt(begun, Succeeded(target.value in cleared, source.None?));
      s := AloneSteps(s, approved, together);
      AloneStops(s, approved, together);
    }
  }

  lemma AloneStops(s: State, approved: bool, together: bool)
    ensures s.helper.Idle? ==> LeftAlone(s, approved, together) == s
  {
  }

  /** One step further on a run left alone. */
  lemma AloneSteps(s: State, approved: bool, together: bool) returns (next: State)
    requires s.helper.Running?
    ensures next == AdvanceHelper(s, s.helper.args, s.helper.stage, CheckAt(s.helper.stage, approved, together))
    ensures LeftAlone(next, approved, together) == LeftAlone(s, approved, together)
  {
    next := Next(s, Advance(CheckAt(s.helper.stage, approved, together), false));
  }

  lemma {:induction false} UndisturbedFinishes(s: State)
    requires s.helper.Running? && UndisturbedHolds(s, s.helper.args.expected)
    requires s.receipt.Some? ==> s.receipt.value.args == s.helper.args && !s.receipt.value.status.Succeeded?
    requires Holds(s)
    ensures var args := s.helper.args;
      LeftAlone(s, true, true)
      == State(s.links, None, Some(args.expected), s.cleared + {args.expected},
               Some(Receipt(args, Succeeded(true, true))), Idle)
    decreases StepsLeft(s.helper)
  {
    hide LeftAlone;
    var next := AloneSteps(s, true, true);
    UndisturbedStep(s, Advance(true, false), s.helper.args.expected);
    StepsKeepInvariant(s, Advance(true, false));
    if !s.helper.stage.Measured? {
      UndisturbedFinishes(next);
      assert next.cleared + {s.helper.args.expected} == s.cleared + {s.helper.args.expected};
    } else {
      AloneStops(next, true, true);
      assert s.cleared + {s.helper.args.expected} == s.cleared;
    }
  }

  /** As long as the file is still at its path, a retry that is left alone carries the quarantine through. */
  lemma RetrySucceeds(s: State, args: Args)
    requires s.helper.Idle? && s.source == Some(args.expected) && args.expected !in s.links && s.target.None?
    requires Holds(s)
    requires s.receipt.Some? ==> s.receipt.value.args == args
    ensures LeftAlone(Next(s, Start(args)), true, true)
         == State(s.links, None, Some(args.expected), s.cleared + {args.expected},
                  Some(Receipt(args, Succeeded(true, true))), Idle)
  {
    UndisturbedFinishes(Next(s, Start(args)));
  }

  // ---- What must have been checked ----

  /** After `n` events the helper is at work on a request and has come to a stage. */
  predicate StandsAt(s: State, events: seq<Event>, n: nat, args: Args, stage: Stage) {
    n <= |events| && Run(s, events[..n]).helper == Running(args, stage)
  }

  /** At event `n` the helper makes the check of a stage, and it comes out well. */
  predicate ChecksOut(s: State, events: seq<Event>, n: nat, args: Args, stage: Stage) {
    n < |events| && StandsAt(s, events, n, args, stage) && events[n] == Advance(true, false)
  }

  /** From one event to another it is the same attempt: the helper neither ends nor dies. */
  predicate SameAttempt(s: State, events: seq<Event>, from: nat, to: nat, args: Args) {
    forall k :: from <= k <= to && k <= |events| ==>
      Run(s, events[..k]).helper.Running? && Run(s, events[..k]).helper.args == args
  }

  /**
    Where an attempt has to have been before: the digest was right, then the file systems agreed,
    then the path still named the file.
  */
  predicate CheckedBefore(s: State, events: seq<Event>, args: Args, m: nat, n: nat, o: nat) {
    && m < n < o < |events|
    && ChecksOut(s, events, m, args, Bound) && ChecksOut(s, events, n, args, Prepared)
    && StandsAt(s, events, o, args, SameDevice) && Run(s, events[..o]).source == Some(args.expected)
  }

  /** How far through its checks a stage is. */
  function ChecksBehind(stage: Stage): nat {
    match stage
    case Opened => 0
    case Bound => 0
    case Hashed => 1
    case Prepared => 1
    case SameDevice => 2
    case _ => 3
  }

  lemma PrefixRuns(s: State, events: seq<Event>, n: nat)
    requires events != [] && n < |events|
    ensures events[..|events| - 1][..n] == events[..n]
  {
  }

  /** What an attempt at a stage has behind it: the events at which its checks came out well. */
  predicate HasBehind(s: State, events: seq<Event>, args: Args, stage: Stage, m: nat, n: nat, o: nat) {
    && (ChecksBehind(stage) >= 1 ==> ChecksOut(s, events, m, args, Bound) && SameAttempt(s, events, m, |events|, args))
    && (ChecksBehind(stage) >= 2 ==> m < n && ChecksOut(s, events, n, args, Prepared))
    && (ChecksBehind(stage) >= 3 ==> CheckedBefore(s, events, args, m, n, o))
  }

  lemma {:induction false} AttemptsHaveChecked(s: State, events: seq<Event>) returns (m: nat, n: nat, o: nat)
    requires IsInitial(s) && Run(s, events).helper.Running?
    ensures var helper := Run(s, events).helper; HasBehind(s, events, helper.args, helper.stage, m, n, o)
  {
    m, n, o := 0, 0, 0;
    if events != [] {
      var front, last := events[..|events| - 1], events[|events| - 1];
      var was, now := Run(s, front).helper, Run(s, events).helper;
      if was.Running? {
        m, n, o := AttemptsHaveChecked(s, front);
        StepKeepsArgs(Run(s, front), last);
        LongerHistory(s, events, now.args);
        m, n, o := OneMoreBehind(s, events, m, n, o);
      }
    }
  }

  lemma OneMoreBehind(s: State, events: seq<Event>, m0: nat, n0: nat, o0: nat) returns (m: nat, n: nat, o: nat)
    requires events != []
    requires var front := events[..|events| - 1];
      && Run(s, front).helper.Running? && Run(s, events).helper.Running?
      && HasBehind(s, front, Run(s, front).helper.args, Run(s, front).helper.stage, m0, n0, o0)
    ensures HasBehind(s, events, Run(s, events).helper.args, Run(s, events).helper.stage, m, n, o)
  {
    var front, last := events[..|events| - 1], events[|events| - 1];
    var was, now := Run(s, front).helper, Run(s, events).helper;
    var here := |front|;
    StepKeepsArgs(Run(s, front), last);
    LongerHistory(s, events, now.args);
    assert events[..here] == front && events[..|events|] == events && events[here] == last;
    m, n, o := m0, n0, o0;
    if ChecksBehind(now.stage) > ChecksBehind(was.stage) {
      hide Run, LeftAlone;
      if was.stage == Bound {
        m := here;
      } else if was.stage == Prepared {
        n := here;
      } else {
        o := here;
      }
    }
  }

  lemma StepKeepsArgs(s: State, e: Event)
    requires s.helper.Running? && Next(s, e).helper.Running?
    ensures Next(s, e).helper.args == s.helper.args
    ensures var was, now := s.helper.stage, Next(s, e).helper.stage;
      && (ChecksBehind(now) == ChecksBehind(was)
          || (ChecksBehind(now) == ChecksBehind(was) + 1 && e.Advance? && !e.raises
              && was in {Bound, Prepared, SameDevice}
              && (was in {Bound, Prepared} ==> e.check)
                 && (was == SameDevice ==> s.source == Some(s.helper.args.expected))))
  {
  }

  lemma LongerHistory(s: State, events: seq<Event>, args: Args)
    requires events != []
    requires Run(s, events).helper.Running? && Run(s, events).helper.args == args
    ensures var front := events[..|events| - 1];
      && (forall n: nat, stage :: ChecksOut(s, front, n, args, stage) ==> ChecksOut(s, events, n, args, stage))
      && (forall m: nat :: SameAttempt(s, front, m, |front|, args) ==> SameAttempt(s, events, m, |events|, args))
      && (forall m: nat, n: nat, o: nat :: CheckedBefore(s, front, args, m, n, o) ==>
            CheckedBefore(s, events, args, m, n, o))
  {
    var front := events[..|events| - 1];
    hide Run;
    assert forall n: nat :: n <= |front| ==> front[..n] == events[..n];
    assert events[..|events|] == events;
  }

  /**
    A receipt says SUCCEEDED only after one attempt at the recorded request in which the content digest
    came out right, then the file systems agreed, then the path still named the approved file, and which
    was not interrupted until it had measured the seal.
  */
  lemma {:induction false} SucceededWasChecked(s: State, events: seq<Event>) returns (m: nat, n: nat, o: nat, end: nat)
    requires IsInitial(s)
    requires Run(s, events).receipt.Some? && Run(s, events).receipt.value.status.Succeeded?
    ensures var args := Run(s, events).receipt.value.args;
      && end < |events| && CheckedBefore(s, events[..end], args, m, n, o)
      && SameAttempt(s, events[..end], m, end, args)
      && StandsAt(s, events, end, args, Measured) && events[end].Advance?
  {
    var front, last := events[..|events| - 1], events[|events| - 1];
    if Run(s, front).receipt == Run(s, events).receipt {
      m, n, o, end := SucceededWasChecked(s, front);
      assert front[..end] == events[..end];
    } else {
      OnlyMeasuringSucceeds(Run(s, front), last);
      m, n, o := AttemptsHaveChecked(s, front);
      end := |front|;
      assert events[..end] == front;
    }
  }

  lemma OnlyMeasuringSucceeds(s: State, e: Event)
    requires Next(s, e).receipt != s.receipt && Next(s, e).receipt.Some? && Next(s, e).receipt.value.status.Succeeded?
    ensures s.helper == Running(Next(s, e).receipt.value.args, Measured) && e.Advance?
  {
  }

  // ---- What a swap costs, and whom ----

  predicate Linked(s: State, inode: Inode) {
    s.source == Some(inode) || s.target == Some(inode)
  }

  /** No attempt has been made yet: the quarantine path is free. */
  predicate IsFresh(s: State) {
    IsInitial(s) && s.target.None?
  }

  /** How many invocations of the helper got past its first identity check. */
  function Attempts(s: State, events: seq<Event>): nat {
    if events == [] then 0
    else
      var front := events[..|events| - 1];
      Attempts(s, front) + if Run(s, front).helper.Idle? && Run(s, events).helper.Running? then 1 else 0
  }

  /**
    The quarantine path is only taken by a rename, so early in an attempt it is taken only if an
    earlier attempt took it.
  */
  predicate TakenByAnAttempt(s: State, attempts: nat) {
    && (s.target.Some? ==> attempts >= 1)
    && (s.helper.Running? ==> attempts >= 1)
    && (s.target.Some? && s.helper.Running? && s.helper.stage in {Opened, Bound, Hashed, Prepared, SameDevice, Checked}
        ==> attempts >= 2)
  }

  lemma {:induction false} TargetsAreTakenByAttempts(s: State, events: seq<Event>)
    requires IsFresh(s)
    ensures TakenByAnAttempt(Run(s, events), Attempts(s, events))
  {
    if events != [] {
      TargetsAreTakenByAttempts(s, events[..|events| - 1]);
    }
  }

  /** Event `n` puts the object at the source after the helper has seen the path free and before it rolls back. */
  predicate ArrivesLate(s: State, events: seq<Event>, n: nat, inode: Inode) {
    && n < |events| && events[n] == Swap(Some(inode))
    && Run(s, events[..n]).helper.Running? && Run(s, events[..n]).helper.stage.RollingBack?
  }

  /** At event `n` the helper overlooks a link that does not resolve, and takes the source path to be free. */
  predicate Overlooked(s: State, events: seq<Event>, n: nat, inode: Inode) {
    && n < |events| && events[n] == Advance(false, false)
    && var before := Run(s, events[..n]);
    && before.helper.Running? && before.helper.stage.Mismatched?
    && before.source == Some(inode) && inode in before.links
  }

  lemma {:induction false} RollbackFindsAnObject(s: State, events: seq<Event>, inode: Inode) returns (n: nat)
    requires IsFresh(s) && Run(s, events).helper.Running? && Run(s, events).helper.stage.RollingBack?
    requires Run(s, events).source == Some(inode)
    ensures ArrivesLate(s, events, n, inode) || Overlooked(s, events, n, inode)
  {
    var last := |events| - 1;
    var front := events[..last];
    if events[last].Swap? || events[last].Advance? {
      n := last;
    } else {
      n := RollbackFindsAnObject(s, front, inode);
      assert front[..n] == events[..n];
    }
  }

  /** The next step of the helper takes the object off both paths. */
  predicate LosesNext(s: State, events: seq<Event>, check: bool, raises: bool, inode: Inode) {
    Linked(Run(s, events), inode) && !Linked(Run(s, events + [Advance(check, raises)]), inode)
  }

  /** The rename into quarantine replaces what an earlier attempt left there. */
  predicate RenamesOver(s: State, inode: Inode) {
    && s.helper.Running? && s.helper.stage.Checked?
    && s.source.Some? && s.target == Some(inode) && s.source != s.target
  }

  /** The rollback replaces what stands at the source path. */
  predicate RollsBackOver(s: State, inode: Inode) {
    && s.helper.Running? && s.helper.stage.RollingBack?
    && s.source == Some(inode) && s.target.Some? && s.source != s.target
  }

  /** In any state, a step of the helper unlinks an object exactly by renaming another one over it. */
  lemma HelperUnlinksIff(s: State, check: bool, raises: bool, inode: Inode)
    requires Linked(s, inode)
    ensures !Linked(Next(s, Advance(check, raises)), inode)
      <==> !raises && (RenamesOver(s, inode) || RollsBackOver(s, inode))
  {
  }

  /**
    Over every run from a fresh start: the helper unlinks an object in exactly three ways. A second or
    later attempt renames over what an earlier one had moved into quarantine; or a rollback renames over
    what was put at the source after the helper had looked there, or over a link that it overlooked
    because it did not resolve.
  */
  lemma HelperLosesIff(s: State, events: seq<Event>, check: bool, raises: bool, inode: Inode)
    requires IsFresh(s)
    ensures LosesNext(s, events, check, raises, inode) <==>
            !raises && (RenamesOver(Run(s, events), inode) || RollsBackOver(Run(s, events), inode))
    ensures RenamesOver(Run(s, events), inode) ==> Attempts(s, events) >= 2
    ensures RollsBackOver(Run(s, events), inode) ==>
            exists n :: ArrivesLate(s, events, n, inode) || Overlooked(s, events, n, inode)
  {
    assert (events + [Advance(check, raises)])[..|events|] == events;
    TargetsAreTakenByAttempts(s, events);
    if Linked(Run(s, events), inode) {
      HelperUnlinksIff(Run(s, events), check, raises, inode);
    }
    if RollsBackOver(Run(s, events), inode) {
      var n := RollbackFindsAnObject(s, events, inode);
    }
  }

  /**
    Hence a first attempt costs nobody a link, unless something is put at the source during its
    rollback or a link that does not resolve is overlooked there.
  */
  lemma AFirstAttemptLosesNothing(s: State, events: seq<Event>, check: bool, raises: bool, inode: Inode)
    requires IsFresh(s) && Attempts(s, events) <= 1
    requires forall n :: !ArrivesLate(s, events, n, inode) && !Overlooked(s, events, n, inode)
    ensures !LosesNext(s, events, check, raises, inode)
  {
    HelperLosesIff(s, events, check, raises, inode);
  }

  // ---- Three runs that lose a foreign object ----

  function Approve(inode: Inode): Args {
    Args("quarantine_file", "d", inode)
  }

  lemma {:induction false} RunAppends(s: State, earlier: seq<Event>, later: seq<Event>)
    ensures Run(s, earlier + later) == Run(Run(s, earlier), later)
  {
    if later == [] {
      assert earlier + later == earlier;
    } else {
      var n := |later| - 1;
      RunAppends(s, earlier, later[..n]);
      assert (earlier + later)[..|earlier + later| - 1] == earlier + later[..n];
    }
  }

  lemma RunThen(s: State, earlier: seq<Event>, e: Event)
    ensures Run(s, earlier + [e]) == Next(Run(s, earlier), e)
  {
    assert (earlier + [e])[..|earlier + [e]| - 1] == earlier;
  }

  /** An attempt up to the last check before the rename. */
  function UpToTheRename(args: Args): seq<Event> {
    [Start(args), Advance(true, false), Advance(true, false), Advance(true, false), Advance(true, false),
     Advance(true, false)]
  }

  lemma FirstHasNoSwap(args: Args)
    ensures forall i :: 0 <= i < |UpToTheRename(args)| ==> !UpToTheRename(args)[i].Swap?
  {
  }

  lemma RunOfSix(s: State, a: Event, e: Event)
    ensures Run(s, [a, e, e, e, e, e]) == Next(Next(Next(Next(Next(Next(s, a), e), e), e), e), e)
  {
    hide Next;
    RunAppends(s, [a, e, e], [e, e, e]);
    assert [a, e, e] + [e, e, e] == [a, e, e, e, e, e];
    RunOfThree(s, a, e, e);
    RunOfThree(Run(s, [a, e, e]), e, e, e);
  }

  lemma RunOfThree(s: State, a: Event, b: Event, c: Event)
    ensures Run(s, [a, b, c]) == Next(Next(Next(s, a), b), c)
  {
    hide Next;
    var none: seq<Event> := [];
    RunThen(s, none, a);
    RunThen(s, [a], b);
    RunThen(s, [a, b], c);
    assert none + [a] == [a] && [a] + [b] == [a, b] && [a, b] + [c] == [a, b, c];
  }

  lemma RunThenThree(s: State, earlier: seq<Event>, a: Event, b: Event, c: Event)
    ensures Run(s, earlier + [a, b, c]) == Next(Next(Next(Run(s, earlier), a), b), c)
  {
    hide Next;
    RunAppends(s, earlier, [a, b, c]);
    RunOfThree(Run(s, earlier), a, b, c);
  }

  lemma SixSteps(s: State, args: Args)
    requires s.helper.Idle? && s.source == Some(args.expected) && args.expected !in s.links
    requires s.receipt.Some? ==> s.receipt.value.args == args && !s.receipt.value.status.Succeeded?
    ensures var e := Advance(true, false);
      Next(Next(Next(Next(Next(Next(s, Start(args)), e), e), e), e), e)
      == s.(receipt := if s.receipt.None? then Some(Receipt(args, Started)) else s.receipt,
            helper := Running(args, Checked))
  {
    var e := Advance(true, false);
    var bound := Next(Next(s, Start(args)), e);
    assert bound.helper == Running(args, Bound) && bound.source == s.source;
    assert Next(Next(Next(Next(bound, e), e), e), e) == bound.(helper := Running(args, Checked));
  }

  lemma ReachesTheRename(s: State, args: Args)
    requires s.helper.Idle? && s.source == Some(args.expected) && args.expected !in s.links
    requires s.receipt.Some? ==> s.receipt.value.args == args && !s.receipt.value.status.Succeeded?
    ensures Run(s, UpToTheRename(args))
         == s.(receipt := if s.receipt.None? then Some(Receipt(args, Started)) else s.receipt,
               helper := Running(args, Checked))
  {
    hide Next;
    RunOfSix(s, Start(args), Advance(true, false));
    SixSteps(s, args);
    assert UpToTheRename(args)
        == [Start(args), Advance(true, false), Advance(true, false), Advance(true, false), Advance(true, false),
            Advance(true, false)];
  }

  /** From the last check on, with another object put at the source: it is moved, and found to be the wrong one. */
  lemma MovesTheWrongObject(s: State, args: Args, other: Inode)
    requires s.helper == Running(args, Checked) && other != args.expected && s.target.None?
    ensures Next(Next(Next(s, Swap(Some(other))), Advance(true, false)), Advance(true, false))
         == s.(source := None, target := Some(other), helper := Running(args, Mismatched))
  {
  }

  /** From the last check on, with nobody in the way: up to the measured seal. */
  lemma SealsTheObject(s: State, args: Args)
    requires s.helper == Running(args, Checked) && s.source == Some(args.expected) && s.target.None?
    ensures var e := Advance(true, false);
      Next(Next(Next(Next(s, e), e), e), e)
      == s.(source := None, target := Some(args.expected), cleared := s.cleared + {args.expected},
            helper := Running(args, Measured))
  {
  }

  /**
    A second attempt loses a foreign object: object 2 takes the place of object 1 after the last check
    and is renamed into quarantine, the helper dies, object 1 comes back, and the next attempt renames
    it over object 2.
  */
  lemma ASecondAttemptLosesAnObject() returns (s: State, events: seq<Event>)
    ensures IsFresh(s) && s.source == Some(1) && Attempts(s, events) >= 2
    ensures Run(s, events).target == Some(2) && LosesNext(s, events, true, false, 2)
  {
    s := State({}, Some(1), None, {}, None, Idle);
    var args := Approve(1);
    var first, e := UpToTheRename(args), Advance(true, false);
    ReachesTheRename(s, args);
    hide Run, Attempts, UpToTheRename;
    RunThenThree(s, first, Swap(Some(2)), e, Crash);
    var crashed := first + [Swap(Some(2)), e, Crash];
    RunThen(s, crashed, Swap(Some(1)));
    var before := crashed + [Swap(Some(1))];
    assert Run(s, before) == State({}, Some(1), Some(2), {}, Some(Receipt(args, Started)), Idle);
    ReachesTheRename(Run(s, before), args);
    RunAppends(s, before, first);
    events := before + first;
    assert RenamesOver(Run(s, events), 2);
    HelperLosesIff(s, events, true, false, 2);
  }

  /**
    A rollback loses a foreign object: object 2 was renamed into quarantine by mistake, the helper sees
    the source path free, object 3 appears there, and the rollback renames object 2 over it.
  */
  lemma ARollbackLosesAnObject() returns (s: State, events: seq<Event>)
    ensures IsFresh(s) && s.source == Some(1) && LosesNext(s, events, true, false, 3)
    ensures exists n :: ArrivesLate(s, events, n, 3)
  {
    s := State({}, Some(1), None, {}, None, Idle);
    var args := Approve(1);
    var first, e := UpToTheRename(args), Advance(true, false);
    ReachesTheRename(s, args);
    MovesTheWrongObject(Run(s, first), args, 2);
    hide Run, Attempts, UpToTheRename;
    RunThenThree(s, first, Swap(Some(2)), e, e);
    var moved := first + [Swap(Some(2)), e, e];
    RunThen(s, moved, e);
    RunThen(s, moved + [e], Swap(Some(3)));
    events := moved + [e] + [Swap(Some(3))];
    HelperLosesIff(s, events, true, false, 3);
    assert ArrivesLate(s, events, |moved| + 1, 3) by {
      assert events[..|moved| + 1] == moved + [e];
    }
  }

  /**
    A first attempt loses a link: object 2 was renamed into quarantine by mistake, object 3, a link that
    does not resolve, is put at the source before the helper looks, and the rollback renames object 2
    over it.
  */
  lemma ARollbackLosesALink() returns (s: State, events: seq<Event>)
    ensures IsFresh(s) && s.source == Some(1) && 3 in s.links && LosesNext(s, events, true, false, 3)
    ensures exists n :: Overlooked(s, events, n, 3)
    ensures forall n: nat :: !ArrivesLate(s, events, n, 3)
  {
    s := State({3}, Some(1), None, {}, None, Idle);
    var args := Approve(1);
    var first, e, overlook := UpToTheRename(args), Advance(true, false), Advance(false, false);
    ReachesTheRename(s, args);
    MovesTheWrongObject(Run(s, first), args, 2);
    hide Run, Attempts, UpToTheRename;
    RunThenThree(s, first, Swap(Some(2)), e, e);
    var moved := first + [Swap(Some(2)), e, e];
    RunThen(s, moved, Swap(Some(3)));
    var before := moved + [Swap(Some(3))];
    RunThen(s, before, overlook);
    events := before + [overlook];
    assert events[..|before|] == before && events[..|moved|] == moved;
    assert Overlooked(s, events, |before|, 3);
    HelperLosesIff(s, events, true, false, 3);
    FirstHasNoSwap(args);
    assert forall n: nat :: n < |events| && n != |moved| ==> events[n] != Swap(Some(3));
  }

  // ---- What `verifiedMissing` says ----

  /** A run ends with a receipt that calls the source missing. */
  predicate ReportsMissing(s: State, events: seq<Event>, check: bool) {
    && Run(s, events).helper.Running? && Run(s, events).helper.stage.Measured?
    && var end := Run(s, events + [Advance(check, false)]);
    end.receipt.Some? && end.receipt.value.status == Succeeded(true, true)
  }

  /** A source reported missing is missing, unless a link that does not resolve stands there. */
  lemma ReportedMissingIff(s: State, events: seq<Event>, check: bool)
    requires IsInitial(s) && Run(s, events).helper.Running? && Run(s, events).helper.stage.Measured?
    ensures var end := Run(s, events);
      ReportsMissing(s, events, check) <==> end.source.None? || (end.source.value in end.links && !check)
  {
    RunThen(s, events, Advance(check, false));
    RunsKeepInvariant(s, events);
  }

  /** A run whose receipt calls the source missing although a link stands there. */
  lemma ALinkIsReportedMissing() returns (s: State, events: seq<Event>)
    ensures IsFresh(s) && ReportsMissing(s, events, false) && Run(s, events).source == Some(3)
  {
    s := State({3}, Some(1), None, {}, None, Idle);
    var args := Approve(1);
    var first, e := UpToTheRename(args), Advance(true, false);
    ReachesTheRename(s, args);
    SealsTheObject(Run(s, first), args);
    hide Run, UpToTheRename, AdvanceHelper;
    RunThenThree(s, first, e, e, e);
    RunThen(s, first + [e, e, e], e);
    RunThen(s, first + [e, e, e] + [e], Swap(Some(3)));
    events := first + [e, e, e] + [e] + [Swap(Some(3))];
    assert Run(s, events).helper == Running(args, Measured) && Run(s, events).links == {3};
    ReportedMissingIff(s, events, false);
  }
}
