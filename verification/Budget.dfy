/** Fitting a result into the text budget of the model, without lying about what was left out. */
module Budget {
  import opened Wrappers

  datatype Budgeted<+T> = Budgeted(
    value: T,
    truncated: bool,
    omitted: nat,
    originalBytes: nat,
    outputBytes: nat,
    overBudget: bool)

  predicate Fits<T>(rebuild: nat -> T, bytes: T -> nat, maxBytes: int, keep: nat) {
    bytes(rebuild(keep)) <= maxBytes
  }

  /** Keeping more never takes less room. */
  ghost predicate GrowsWithKeep<T>(rebuild: nat -> T, bytes: T -> nat, total: nat) {
    forall j, k :: 0 <= j <= k <= total ==> bytes(rebuild(j)) <= bytes(rebuild(k))
  }

  /** How many probes a binary search over `n` candidates may take. */
  function Rounds(n: nat): nat {
    if n == 0 then 0 else 1 + Rounds(n / 2)
  }

  function PowerOfTwo(n: nat): nat {
    if n == 0 then 1 else 2 * PowerOfTwo(n - 1)
  }

  /** The rounds are one more than the binary logarithm. */
  lemma {:induction false} RoundsAreLogarithmic(n: nat)
    requires n > 0
    ensures Rounds(n) > 0 && PowerOfTwo(Rounds(n) - 1) <= n < PowerOfTwo(Rounds(n))
  {
    hide PowerOfTwo;
    if n > 1 {
      RoundsAreLogarithmic(n / 2);
      Doubles(Rounds(n / 2));
      Doubles(Rounds(n / 2) - 1);
    } else {
      assert Rounds(0) == 0;
      Doubles(0);
    }
  }

  lemma Doubles(n: nat)
    ensures PowerOfTwo(n + 1) == 2 * PowerOfTwo(n) && PowerOfTwo(0) == 1
  {
  }

  lemma {:induction false} RoundsGrow(m: nat, n: nat)
    requires m <= n
    ensures Rounds(m) <= Rounds(n)
  {
    if m > 0 {
      RoundsGrow(m / 2, n / 2);
    }
  }

  lemma RoundsFall(m: nat, n: nat)
    requires n > 0 && m <= n / 2
    ensures Rounds(m) + 1 <= Rounds(n)
  {
    RoundsGrow(m, n / 2);
  }

  /** If sizes grow, nothing longer fits than what one more item already exceeds. */
  lemma NothingLongerFits<T>(rebuild: nat -> T, bytes: T -> nat, total: nat, maxBytes: int, keep: nat)
    requires keep <= total && !Fits(rebuild, bytes, maxBytes, keep)
    ensures GrowsWithKeep(rebuild, bytes, total) ==> forall k ::
      keep <= k <= total ==> !Fits(rebuild, bytes, maxBytes, k)
  {
  }

  /** None of the prefixes fits that the search looks at while it has found none that does. */
  predicate NoProbeFits<T>(rebuild: nat -> T, bytes: T -> nat, maxBytes: int, n: nat)
    decreases n
  {
    n == 0 || (!Fits(rebuild, bytes, maxBytes, (n - 1) / 2) && NoProbeFits(rebuild, bytes, maxBytes, (n - 1) / 2))
  }

  lemma ProbesUnfold<T>(rebuild: nat -> T, bytes: T -> nat, maxBytes: int, n: nat)
    requires n > 0
    ensures NoProbeFits(rebuild, bytes, maxBytes, n)
       <==> !Fits(rebuild, bytes, maxBytes, (n - 1) / 2) && NoProbeFits(rebuild, bytes, maxBytes, (n - 1) / 2)
  {
  }

  lemma NothingToProbe<T>(rebuild: nat -> T, bytes: T -> nat, maxBytes: int)
    ensures NoProbeFits(rebuild, bytes, maxBytes, 0)
  {
  }

  /** The last of these prefixes is empty, and where sizes grow it decides for all. */
  lemma {:induction false} EmptyPrefixDecides<T>(rebuild: nat -> T, bytes: T -> nat, maxBytes: int, n: nat, total: nat)
    requires 0 < n <= total
    ensures NoProbeFits(rebuild, bytes, maxBytes, n) ==> !Fits(rebuild, bytes, maxBytes, 0)
    ensures GrowsWithKeep(rebuild, bytes, total) && !Fits(rebuild, bytes, maxBytes, 0) ==>
      NoProbeFits(rebuild, bytes, maxBytes, n)
    decreases n
  {
    if n > 2 {
      EmptyPrefixDecides(rebuild, bytes, maxBytes, (n - 1) / 2, total);
    }
  }

  /** The binary search for a prefix that fits, below a length that does not. */
  method SearchPrefix<T>(total: nat, rebuild: nat -> T, bytes: T -> nat, maxBytes: int)
    returns (best: Option<(nat, T)>, ghost encodings: nat)
    requires !Fits(rebuild, bytes, maxBytes, total)
    ensures best.None? <==> NoProbeFits(rebuild, bytes, maxBytes, total)
    ensures best.Some? ==>
      && best.value.0 < total && best.value.1 == rebuild(best.value.0)
      && Fits(rebuild, bytes, maxBytes, best.value.0) && !Fits(rebuild, bytes, maxBytes, best.value.0 + 1)
    ensures best.None? && total > 0 ==> !Fits(rebuild, bytes, maxBytes, 0)
    ensures encodings <= Rounds(total)
  {
    hide Rounds, NoProbeFits;
    NothingToProbe(rebuild, bytes, maxBytes);
    var low, high: int := 0, total - 1;
    best, encodings := None, 0;
    while low <= high
      invariant 0 <= low <= high + 1 <= total
      invariant !Fits(rebuild, bytes, maxBytes, high + 1)
      invariant best.None? ==> low == 0
      invariant NoProbeFits(rebuild, bytes, maxBytes, total)
        == (best.None? && NoProbeFits(rebuild, bytes, maxBytes, high + 1))
      invariant best.Some? ==>
        best.value.0 == low - 1 && best.value.1 == rebuild(low - 1) && Fits(rebuild, bytes, maxBytes, low - 1)
      invariant encodings + Rounds(high + 1 - low) <= Rounds(total)
      decreases high - low
    {
      ProbesUnfold(rebuild, bytes, maxBytes, high + 1);
      var middle: nat := (low + high) / 2;
      var attempt := rebuild(middle);
      encodings := encodings + 1;
      if bytes(attempt) <= maxBytes {
        RoundsFall(high - middle, high + 1 - low);
        best := Some((middle, attempt));
        low := middle + 1;
      } else {
        RoundsFall(middle - low, high + 1 - low);
        high := middle - 1;
      }
    }
  }

  /**
    Finds a prefix of the droppable items that fits. Without any assumption on how sizes grow, the
    prefix kept fits and one more item would not; and it is over budget exactly when none of its probes fits.
  */
  method EncodeWithinBudget<T>(total: nat, rebuild: nat -> T, bytes: T -> nat, maxBytes: int)
    returns (r: Budgeted<T>, ghost encodings: nat)
    ensures r.omitted <= total && r.value == rebuild(total - r.omitted) && r.outputBytes == bytes(r.value)
    ensures r.originalBytes == bytes(rebuild(total)) && r.truncated == !Fits(rebuild, bytes, maxBytes, total)
    ensures !r.truncated ==> r.omitted == 0 && !r.overBudget
    ensures r.overBudget == !Fits(rebuild, bytes, maxBytes, total - r.omitted)
    ensures r.overBudget ==> r.omitted == total
    ensures r.overBudget <==> !Fits(rebuild, bytes, maxBytes, total) && NoProbeFits(rebuild, bytes, maxBytes, total)
    ensures !r.overBudget && r.omitted > 0 ==> !Fits(rebuild, bytes, maxBytes, total - r.omitted + 1)
    ensures GrowsWithKeep(rebuild, bytes, total) ==> forall k ::
      total - r.omitted < k <= total ==> !Fits(rebuild, bytes, maxBytes, k)
    ensures encodings <= Rounds(total) + 2
  {
    hide Rounds, GrowsWithKeep, NoProbeFits;
    var full := rebuild(total);
    encodings := 1;
    if bytes(full) <= maxBytes {
      r := Budgeted(full, false, 0, bytes(full), bytes(full), false);
      return;
    }
    ghost var probes: nat;
    var best;
    best, probes := SearchPrefix(total, rebuild, bytes, maxBytes);
    encodings := encodings + probes;
    if best.None? {
      var floor := rebuild(0);
      encodings := encodings + 1;
      r := Budgeted(floor, true, total, bytes(full), bytes(floor), true);
    } else {
      r := Budgeted(best.value.1, true, total - best.value.0, bytes(full), bytes(best.value.1), false);
    }
    NothingLongerFits(rebuild, bytes, total, maxBytes, if best.None? then 0 else best.value.0 + 1);
  }

  // ---- Tool results ----

  /** The part of a page's summary that tells the model where to go on. */
  datatype PageSummary = PageSummary(offset: int, returned: int, nextOffset: Option<int>, total: Option<int>,
                                     remaining: Option<int>)

  datatype Warning = Said(text: string) | Omission(omitted: nat, total: nat)

  datatype Payload<+T> =
    | Opaque(body: T)
    | Items(partial: bool, page: Option<PageSummary>, items: seq<T>, itemsOmitted: Option<nat>, warnings: seq<Warning>)
    /** The fixed small envelope. */
    | Reduced(itemsOmitted: Option<nat>, warning: Warning)

  function AdjustPage(page: Option<PageSummary>, keep: nat): Option<PageSummary> {
    match page
    case None => None
    case Some(p) =>
      var next := p.offset + keep;
      Some(PageSummary(p.offset, keep, Some(next), p.total,
                       match p.total case None => p.remaining
                         case Some(total) => Some(if total - next > 0 then total - next else 0)))
  }

  /** A result of which only the first `keep` items are shown. */
  function Cut<T>(result: Payload<T>, keep: nat): Payload<T>
    requires result.Items? && keep <= |result.items|
  {
    if keep == |result.items| then result
    else
      Items(true, AdjustPage(result.page, keep), result.items[..keep], Some(|result.items| - keep),
            result.warnings + [Omission(|result.items| - keep, |result.items|)])
  }

  /** What a shown result must own up to, given the result there was. */
  predicate IsHonest<T(==)>(result: Payload<T>, shown: Payload<T>) {
    match shown
    case Opaque(_) => shown == result
    case Reduced(omitted, warning) =>
      if result.Items? then omitted == Some(|result.items|) && warning == Omission(|result.items|, |result.items|)
      else omitted == None && warning == Omission(0, 0)
    case Items(partial, page, items, omitted, warnings) =>
      && result.Items? && items <= result.items
      && (|items| < |result.items| ==>
            && partial && omitted == Some(|result.items| - |items|)
            && warnings == result.warnings + [Omission(|result.items| - |items|, |result.items|)]
            && (page.Some? <==> result.page.Some?)
            && (page.Some? ==>
                  && page.value.offset == result.page.value.offset && page.value.total == result.page.value.total
                  && page.value.returned == |items| && page.value.nextOffset == Some(page.value.offset + |items|)
                  && (page.value.total.None? ==> page.value.remaining == result.page.value.remaining)
                  && (page.value.total.Some? ==>
                        var ahead := page.value.total.value - (page.value.offset + |items|);
                        page.value.remaining == Some(if ahead > 0 then ahead else 0))))
      && (|items| == |result.items| ==> shown == result)
  }

  /** How many items the model does not get to see. */
  function LeftOut<T>(result: Payload<T>, shown: Payload<T>): int {
    if !result.Items? then 0 else |result.items| - (if shown.Items? then |shown.items| else 0)
  }

  function Cuts<T>(result: Payload<T>): nat -> Payload<T>
    requires result.Items?
  {
    (keep: nat) => if keep <= |result.items| then Cut(result, keep) else result
  }

  /** The small envelope that stands for a result. */
  function EnvelopeOf<T>(result: Payload<T>): Payload<T> {
    if result.Items? then Reduced(Some(|result.items|), Omission(|result.items|, |result.items|))
    else Reduced(None, Omission(0, 0))
  }

  /** The result does not fit, and neither does any of its cuts that the search looks at. */
  predicate GivesWay<T>(result: Payload<T>, bytes: Payload<T> -> nat, maxBytes: int) {
    && bytes(result) > maxBytes
    && (result.Items? ==> NoProbeFits(Cuts(result), bytes, maxBytes, |result.items|))
  }

  /** What serialising a result for the model comes to. */
  ghost predicate SerializedAs<T(!new)>(result: Payload<T>, bytes: Payload<T> -> nat, maxBytes: int,
                                        r: Budgeted<Payload<T>>) {
    && IsHonest(result, r.value)
    && r.outputBytes == bytes(r.value) && r.overBudget == (bytes(r.value) > maxBytes)
    && r.originalBytes == bytes(if GivesWay(result, bytes, maxBytes) then EnvelopeOf(result) else result)
    && if GivesWay(result, bytes, maxBytes) then
         r.value == EnvelopeOf(result) && r.omitted == 0 && r.truncated == r.overBudget
       else
         && !r.value.Reduced? && !r.overBudget && r.omitted == LeftOut(result, r.value)
            && r.truncated == (bytes(result) > maxBytes)
         && (bytes(result) <= maxBytes ==> r.value == result)
         && (bytes(result) > maxBytes ==>
               && r.value.Items? && |r.value.items| < |result.items| && r.value == Cut(result, |r.value.items|)
               && bytes(Cut(result, |r.value.items| + 1)) > maxBytes)
  }

  lemma ShownAsItIs<T>(result: Payload<T>)
    requires !result.Reduced?
    ensures IsHonest(result, result)
  {
  }

  lemma EnvelopeIsHonest<T>(result: Payload<T>)
    ensures IsHonest(result, EnvelopeOf(result))
  {
  }

  lemma CutsAreHonest<T>(result: Payload<T>, keep: nat)
    requires result.Items? && keep <= |result.items|
    ensures Cut(result, keep).Items? && |Cut(result, keep).items| == keep && IsHonest(result, Cut(result, keep))
    ensures Cut(result, |result.items|) == result
  {
    var dropped := Omission(|result.items| - keep, |result.items|);
    assert (result.warnings + [dropped])[|result.warnings|] == dropped;
  }

  /** The only way a tool result reaches the model. */
  method SerializeToolResult<T(==, !new)>(result: Payload<T>, bytes: Payload<T> -> nat, maxBytes: int)
    returns (r: Budgeted<Payload<T>>)
    requires !result.Reduced?
    ensures SerializedAs(result, bytes, maxBytes, r)
  {
    hide NoProbeFits, Cut, IsHonest;
    ghost var encodings: nat;
    NothingToProbe((keep: nat) => result, bytes, maxBytes);
    ShownAsItIs(result);
    EnvelopeIsHonest(result);
    if result.Opaque? {
      r, encodings := EncodeWithinBudget(0, (keep: nat) => result, bytes, maxBytes);
      if r.overBudget {
        r, encodings := EncodeWithinBudget(0, (keep: nat) => Reduced(None, Omission(0, 0)), bytes, maxBytes);
      }
      return;
    }
    var total := |result.items|;
    r, encodings := EncodeWithinBudget(total, Cuts(result), bytes, maxBytes);
    CutsAreHonest(result, total - r.omitted);
    if r.overBudget {
      r, encodings := EncodeWithinBudget(0, (keep: nat) => Reduced(Some(total), Omission(total, total)), bytes,
                                         maxBytes);
    }
  }

  /** Halving a length again and again. */
  function Halved(n: nat, times: nat): nat {
    if times == 0 then n else Halved(n / 2, times - 1)
  }

  lemma {:induction false} NothingToHalve(times: nat)
    ensures Halved(0, times) == 0
  {
    if times > 0 {
      NothingToHalve(times - 1);
    }
  }

  /** The cut to one less than a halving of the length and one does not fit; there is none where the halving is 0. */
  predicate HalvingMisses<T>(rebuild: nat -> T, bytes: T -> nat, maxBytes: int, n: nat, times: nat) {
    Halved(n + 1, times) > 0 ==> !Fits(rebuild, bytes, maxBytes, Halved(n + 1, times) - 1)
  }

  ghost predicate NoHalvingFits<T>(rebuild: nat -> T, bytes: T -> nat, maxBytes: int, n: nat) {
    forall times: nat :: times >= 1 ==> HalvingMisses(rebuild, bytes, maxBytes, n, times)
  }

  lemma HalvingTwice<T>(rebuild: nat -> T, bytes: T -> nat, maxBytes: int, n: nat, times: nat)
    requires n > 0
    ensures HalvingMisses(rebuild, bytes, maxBytes, n, times + 1)
       <==> HalvingMisses(rebuild, bytes, maxBytes, (n - 1) / 2, times)
    ensures HalvingMisses(rebuild, bytes, maxBytes, n, 1) <==> !Fits(rebuild, bytes, maxBytes, (n - 1) / 2)
  {
    hide Fits;
    assert (n + 1) / 2 == (n - 1) / 2 + 1;
    assert Halved(n + 1, times + 1) == Halved((n + 1) / 2, times);
    assert Halved(n + 1, 1) == Halved((n + 1) / 2, 0) == (n + 1) / 2;
  }

  /** The prefixes that the search looks at while it has found none that fits, in closed form. */
  lemma {:induction false} ProbesAreHalvings<T>(rebuild: nat -> T, bytes: T -> nat, maxBytes: int, n: nat)
    ensures NoProbeFits(rebuild, bytes, maxBytes, n) <==> NoHalvingFits(rebuild, bytes, maxBytes, n)
    decreases n
  {
    hide Fits;
    if n == 0 {
      forall times: nat | times >= 1
        ensures HalvingMisses(rebuild, bytes, maxBytes, 0, times)
      {
        NothingToHalve(times - 1);
      }
    } else {
      var m := (n - 1) / 2;
      hide HalvingMisses;
      ProbesAreHalvings(rebuild, bytes, maxBytes, m);
      HalvingTwice(rebuild, bytes, maxBytes, n, 0);
      if NoHalvingFits(rebuild, bytes, maxBytes, n) {
        forall times: nat | times >= 1
          ensures HalvingMisses(rebuild, bytes, maxBytes, m, times)
        {
          HalvingTwice(rebuild, bytes, maxBytes, n, times);
        }
      }
      if NoProbeFits(rebuild, bytes, maxBytes, n) {
        forall times: nat | times >= 1
          ensures HalvingMisses(rebuild, bytes, maxBytes, n, times)
        {
          HalvingTwice(rebuild, bytes, maxBytes, n, times - 1);
        }
      }
    }
  }

  /** The result does not fit, and neither does any of its cuts to a halving of its length. */
  ghost predicate OutOfReach<T>(result: Payload<T>, bytes: Payload<T> -> nat, maxBytes: int) {
    && bytes(result) > maxBytes
    && (result.Items? ==> NoHalvingFits(Cuts(result), bytes, maxBytes, |result.items|))
  }

  /**
    Exactly when the record around a shown result says how many items were left out: unless the result
    is a non-empty list that is out of reach.
  */
  lemma OmittedIsRightIff<T(!new)>(result: Payload<T>, bytes: Payload<T> -> nat, maxBytes: int, r: Budgeted<Payload<T>>)
    requires !result.Reduced? && SerializedAs(result, bytes, maxBytes, r)
    ensures r.omitted == LeftOut(result, r.value)
       <==> !(result.Items? && result.items != [] && OutOfReach(result, bytes, maxBytes))
  {
    hide NoProbeFits, IsHonest, NoHalvingFits;
    if result.Items? {
      ProbesAreHalvings(Cuts(result), bytes, maxBytes, |result.items|);
    }
  }

  /**
    Exactly when the record says whether anything was changed: unless the result is out of reach and
    its envelope is not.
  */
  lemma TruncatedIsRightIff<T(!new)>(result: Payload<T>, bytes: Payload<T> -> nat, maxBytes: int,
                                     r: Budgeted<Payload<T>>)
    requires !result.Reduced? && SerializedAs(result, bytes, maxBytes, r)
    ensures (r.truncated <==> r.value != result)
       <==> !(OutOfReach(result, bytes, maxBytes) && bytes(EnvelopeOf(result)) <= maxBytes)
  {
    hide NoProbeFits, IsHonest, NoHalvingFits;
    if result.Items? {
      ProbesAreHalvings(Cuts(result), bytes, maxBytes, |result.items|);
    }
    if !GivesWay(result, bytes, maxBytes) && bytes(result) > maxBytes {
      assert |r.value.items| < |result.items|;
    }
  }

  /** Where longer cuts are no smaller, a list gives way exactly when it does not fit without its items. */
  lemma GivesWayWhereCutsGrow<T>(result: Payload<T>, bytes: Payload<T> -> nat, maxBytes: int)
    requires result.Items? && GrowsWithKeep(Cuts(result), bytes, |result.items|)
    ensures GivesWay(result, bytes, maxBytes) <==> bytes(Cut(result, 0)) > maxBytes
  {
    var total := |result.items|;
    assert Cuts(result)(total) == result && Cuts(result)(0) == Cut(result, 0);
    if total > 0 {
      EmptyPrefixDecides(Cuts(result), bytes, maxBytes, total, total);
    }
  }

  /** The envelope takes four bytes and everything else ten. */
  function EnvelopeIsSmall(): Payload<int> -> nat {
    (payload: Payload<int>) => if payload.Reduced? then 4 else 10
  }

  /** A list of one item, too long for the budget: it is left out, and the record reports that nothing is. */
  lemma TheEnvelopeForgetsItsItem(r: Budgeted<Payload<int>>)
    requires SerializedAs(Items(false, None, [1], None, []), EnvelopeIsSmall(), 5, r)
    ensures r.value.Reduced? && LeftOut(Items(false, None, [1], None, []), r.value) == 1
    ensures r.omitted == 0 && !r.truncated && !r.overBudget
  {
    var result: Payload<int> := Items(false, None, [1], None, []);
    NothingToProbe(Cuts(result), EnvelopeIsSmall(), 5);
    assert !Fits(Cuts(result), EnvelopeIsSmall(), 5, 0);
    assert GivesWay(result, EnvelopeIsSmall(), 5);
  }

  // ---- Reading on ----

  /** What a paging tool offers: everything from an offset on. */
  function PageFrom<T>(rows: seq<T>, offset: nat): (page: Payload<T>)
    requires offset <= |rows|
    ensures page.Items? && |page.items| == |rows| - offset
  {
    Items(false, Some(PageSummary(offset, |rows| - offset, Some(|rows|), Some(|rows|), Some(0))), rows[offset..], None,
          [])
  }

  /** A reader that follows the next offset it is shown; each page shows `keep` of what it could. */
  function ReadOn<T>(rows: seq<T>, offset: nat, keep: nat -> nat): seq<T>
    requires offset <= |rows| && forall o: nat :: o < |rows| ==> 1 <= keep(o) <= |rows| - o
    decreases |rows| - offset
  {
    if offset == |rows| then []
    else
      var shown := Cut(PageFrom(rows, offset), keep(offset));
      shown.items + ReadOn(rows, shown.page.value.nextOffset.value, keep)
  }

  /** However the pages are cut, following the next offset reads every row once and in order. */
  lemma {:induction false} NothingIsSkipped<T>(rows: seq<T>, offset: nat, keep: nat -> nat)
    requires offset <= |rows| && forall o: nat :: o < |rows| ==> 1 <= keep(o) <= |rows| - o
    ensures ReadOn(rows, offset, keep) == rows[offset..]
    decreases |rows| - offset
  {
    hide Cut, PageFrom;
    if offset < |rows| {
      CutPage(rows, offset, keep(offset));
      NothingIsSkipped(rows, offset + keep(offset), keep);
      RestIsTwo(rows, offset, offset + keep(offset));
    }
  }

  lemma RestIsTwo<T>(rows: seq<T>, from: nat, to: nat)
    requires from <= to <= |rows|
    ensures rows[from..] == rows[from..to] + rows[to..]
  {
  }

  lemma CutPage<T>(rows: seq<T>, offset: nat, keep: nat)
    requires offset + keep <= |rows|
    ensures var shown := Cut(PageFrom(rows, offset), keep);
      && shown.Items? && shown.items == rows[offset..offset + keep]
      && shown.page.Some? && shown.page.value.nextOffset == Some(offset + keep)
  {
  }
}
