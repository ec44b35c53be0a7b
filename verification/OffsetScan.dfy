/**
  Offset paging. A source is a finite list of logical nodes, some of which yield a row. A page
  starts at an offset, visits nodes until it has `limit` matching rows or has visited
  `ENUMERATE_SCAN_PAGE_LIMIT` nodes, and says where it stopped.
*/
module OffsetScan {
  import opened Wrappers

  /** The most nodes one page may visit. */
  const ENUMERATE_SCAN_PAGE_LIMIT: nat := 5000

  /** The largest offset a cursor may carry. */
  const MAX_CURSOR_OFFSET: nat := 10_000_000

  /** What a collector hands to the enumerate operation. */
  datatype Collected<+R> = Collected(
    rows: seq<R>,
    partial: bool,
    scannedCount: nat,
    matchedCount: nat,
    nextOffset: nat,
    upperBound: Option<nat>,
    complete: bool)

  /** Without a predicate every row is wanted. */
  function Wanted<R>(predicate_: Option<R -> bool>): R -> bool {
    row => predicate_.None? || predicate_.value(row)
  }

  /** Where a page begins that starts at an offset of a source of the given size. */
  function First(start: nat, size: nat): nat {
    if start <= size then start else size
  }

  predicate Hits<R>(matches: R -> bool, node: Option<R>) {
    node.Some? && matches(node.value)
  }

  /** The rows of the matching nodes, in order. */
  function Filtered<R>(matches: R -> bool, nodes: seq<Option<R>>): seq<R> {
    if nodes == [] then []
    else (if Hits(matches, nodes[0]) then [nodes[0].value] else []) + Filtered(matches, nodes[1..])
  }

  /** Where a page starting at `from` stops. */
  function ScanEnd<R>(matches: R -> bool, nodes: seq<Option<R>>, from: nat, limit: nat, budget: nat): (end: nat)
    requires from <= |nodes|
    ensures from <= end <= |nodes| && end - from <= budget
    decreases |nodes| - from
  {
    if from == |nodes| || limit == 0 || budget == 0 then from
    else ScanEnd(matches, nodes, from + 1, if Hits(matches, nodes[from]) then limit - 1 else limit, budget - 1)
  }

  lemma {:induction false} FilteredAppend<R>(matches: R -> bool, a: seq<Option<R>>, b: seq<Option<R>>)
    ensures Filtered(matches, a + b) == Filtered(matches, a) + Filtered(matches, b)
  {
    if a == [] {
      assert a + b == b;
    } else {
      FilteredAppend(matches, a[1..], b);
      assert (a + b)[1..] == a[1..] + b && (a + b)[0] == a[0];
      var head := if Hits(matches, a[0]) then [a[0].value] else [];
      var middle, tail := Filtered(matches, a[1..]), Filtered(matches, b);
      assert head + (middle + tail) == head + middle + tail;
    }
  }

  lemma FilteredOne<R>(matches: R -> bool, nodes: seq<Option<R>>, from: nat, to: nat)
    requires from <= to < |nodes|
    ensures Filtered(matches, nodes[from..to + 1])
         == Filtered(matches, nodes[from..to]) + (if Hits(matches, nodes[to]) then [nodes[to].value] else [])
  {
    FilteredAppend(matches, nodes[from..to], [nodes[to]]);
    assert nodes[from..to + 1] == nodes[from..to] + [nodes[to]];
    assert Filtered(matches, [nodes[to]]) == if Hits(matches, nodes[to]) then [nodes[to].value] else [];
  }

  /** A page stops because the source ended, because it is full, or because its budget is spent, and not before. */
  lemma {:induction false} WhereAPageStops<R>(matches: R -> bool, nodes: seq<Option<R>>, from: nat, limit: nat,
                                              budget: nat)
    requires from <= |nodes|
    ensures var end := ScanEnd(matches, nodes, from, limit, budget);
      var rows := Filtered(matches, nodes[from..end]);
      && |rows| <= limit
      && (end == |nodes| || |rows| == limit || end - from == budget)
      && (from < |nodes| && limit > 0 && budget > 0 ==> end > from)
      && (end > from && |rows| == limit ==> Hits(matches, nodes[end - 1]))
    decreases |nodes| - from
  {
    if !(from == |nodes| || limit == 0 || budget == 0) {
      var hit := Hits(matches, nodes[from]);
      WhereAPageStops(matches, nodes, from + 1, if hit then limit - 1 else limit, budget - 1);
      var end := ScanEnd(matches, nodes, from, limit, budget);
      assert nodes[from..end] == [nodes[from]] + nodes[from + 1..end];
    } else {
      assert nodes[from..from] == [];
    }
  }

  /** The stop is determined by where the first of the three reasons applies. */
  lemma {:induction false} ScanEndIsUnique<R>(matches: R -> bool, nodes: seq<Option<R>>, from: nat, limit: nat,
                                              budget: nat, end: nat)
    requires from <= end <= |nodes| && end - from <= budget
    requires |Filtered(matches, nodes[from..end])| <= limit
    requires end > from && |Filtered(matches, nodes[from..end])| == limit ==> Hits(matches, nodes[end - 1])
    requires end == |nodes| || |Filtered(matches, nodes[from..end])| == limit || end - from == budget
    ensures limit > 0 ==> end == ScanEnd(matches, nodes, from, limit, budget)
    decreases end - from
  {
    if limit > 0 && from < end {
      var hit := Hits(matches, nodes[from]);
      assert nodes[from..end] == [nodes[from]] + nodes[from + 1..end];
      if hit && limit == 1 {
        if from + 1 < end {
          assert nodes[from + 1..end] == nodes[from + 1..end - 1] + [nodes[end - 1]];
          FilteredAppend(matches, nodes[from + 1..end - 1], [nodes[end - 1]]);
          assert false;
        }
      } else {
        ScanEndIsUnique(matches, nodes, from + 1, if hit then limit - 1 else limit, budget - 1, end);
      }
    } else {
      assert nodes[from..from] == [];
    }
  }

  // ---- A scan in progress ----

  /** The scan that started at `first` has come to `at` and has `rows` to show for it. */
  ghost predicate Walked<R>(matches: R -> bool, nodes: seq<Option<R>>, first: nat, at: nat, limit: nat, budget: nat,
                            rows: seq<R>) {
    && first <= at <= |nodes| && at - first <= budget
    && rows == Filtered(matches, nodes[first..at]) && |rows| <= limit
    && ScanEnd(matches, nodes, first, limit, budget)
       == ScanEnd(matches, nodes, at, limit - |rows|, budget - (at - first))
  }

  lemma WalkStarts<R>(matches: R -> bool, nodes: seq<Option<R>>, first: nat, limit: nat, budget: nat)
    requires first <= |nodes|
    ensures Walked(matches, nodes, first, first, limit, budget, [])
  {
    assert nodes[first..first] == [];
  }

  lemma WalkGoesOn<R>(matches: R -> bool, nodes: seq<Option<R>>, first: nat, at: nat, limit: nat, budget: nat,
                      rows: seq<R>)
    requires Walked(matches, nodes, first, at, limit, budget, rows)
    requires at < |nodes| && |rows| < limit && at - first < budget
    ensures Walked(matches, nodes, first, at + 1, limit, budget,
                   rows + (if Hits(matches, nodes[at]) then [nodes[at].value] else []))
  {
    FilteredOne(matches, nodes, first, at);
  }

  lemma WalkStops<R>(matches: R -> bool, nodes: seq<Option<R>>, first: nat, at: nat, limit: nat, budget: nat,
                     rows: seq<R>)
    requires Walked(matches, nodes, first, at, limit, budget, rows)
    requires at == |nodes| || |rows| == limit || at - first == budget
    ensures ScanEnd(matches, nodes, first, limit, budget) == at
  {
  }

  lemma WalkedRows<R>(matches: R -> bool, nodes: seq<Option<R>>, first: nat, at: nat, limit: nat, budget: nat,
                      rows: seq<R>)
    requires Walked(matches, nodes, first, at, limit, budget, rows)
    ensures first <= at <= |nodes| && at - first <= budget
    ensures |rows| <= limit && rows == Filtered(matches, nodes[first..at])
  {
  }

  /** The page of an offset scan: what it returned and where it stopped. */
  ghost predicate IsOffsetPage<R>(matches: R -> bool, nodes: seq<Option<R>>, start: nat, limit: nat,
                                  page: Collected<R>) {
    var first := First(start, |nodes|);
    var end := ScanEnd(matches, nodes, first, limit, ENUMERATE_SCAN_PAGE_LIMIT);
    && page.rows == Filtered(matches, nodes[first..end])
    && page.matchedCount == |page.rows|
    && page.scannedCount == end - first
    && page.nextOffset == start + page.scannedCount
    && page.upperBound == None
    && (page.complete ==> end == |nodes|)
  }
}
