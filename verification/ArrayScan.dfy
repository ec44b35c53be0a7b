/** Paging over rows the collector has already materialised and sorted. */
module ArrayScan {
  import opened Wrappers
  import opened OffsetScan

  function RowNodes<R>(rows: seq<R>): (nodes: seq<Option<R>>)
    ensures |nodes| == |rows|
  {
    seq(|rows|, i requires 0 <= i < |rows| => Some(rows[i]))
  }

  lemma {:induction false} EveryRowWanted<R>(rows: seq<R>, from: nat, limit: nat, budget: nat)
    requires from <= |rows| && limit <= budget
    ensures var end := ScanEnd(Wanted<R>(None), RowNodes(rows), from, limit, budget);
      && end == (if from + limit <= |rows| then from + limit else |rows|)
      && Filtered(Wanted<R>(None), RowNodes(rows)[from..end]) == rows[from..end]
    decreases limit
  {
    var nodes, all := RowNodes(rows), Wanted<R>(None);
    var end := ScanEnd(all, nodes, from, limit, budget);
    if from < |rows| && limit > 0 {
      EveryRowWanted(rows, from + 1, limit - 1, budget - 1);
      assert Hits(all, nodes[from]);
      assert nodes[from..end] == [nodes[from]] + nodes[from + 1..end];
      assert rows[from..end] == [rows[from]] + rows[from + 1..end];
    } else {
      assert nodes[from..from] == [];
    }
  }

  /** Evaluates the predicate row by row from the offset on. */
  method Search<R>(rows: seq<R>, predicate_: Option<R -> bool>, offset: nat, limit: nat)
    returns (window: seq<R>, nextOffset: nat)
    requires predicate_.Some? && offset <= |rows|
    ensures nextOffset == ScanEnd(Wanted(predicate_), RowNodes(rows), offset, limit, ENUMERATE_SCAN_PAGE_LIMIT)
    ensures window == Filtered(Wanted(predicate_), RowNodes(rows)[offset..nextOffset])
  {
    hide Filtered, ScanEnd, Walked;
    ghost var nodes, matches := RowNodes(rows), Wanted(predicate_);
    window := [];
    nextOffset := offset;
    var ceiling := if offset + ENUMERATE_SCAN_PAGE_LIMIT <= |rows| then offset + ENUMERATE_SCAN_PAGE_LIMIT else |rows|;
    WalkStarts(matches, nodes, offset, limit, ENUMERATE_SCAN_PAGE_LIMIT);
    while nextOffset < ceiling && |window| < limit
      invariant offset <= nextOffset <= ceiling && |window| <= limit
      invariant Walked(matches, nodes, offset, nextOffset, limit, ENUMERATE_SCAN_PAGE_LIMIT, window)
    {
      var row := rows[nextOffset];
      WalkGoesOn(matches, nodes, offset, nextOffset, limit, ENUMERATE_SCAN_PAGE_LIMIT, window);
      assert nodes[nextOffset] == Some(row) && window + [] == window;
      nextOffset := nextOffset + 1;
      if predicate_.value(row) {
        window := window + [row];
      }
    }
    WalkStops(matches, nodes, offset, nextOffset, limit, ENUMERATE_SCAN_PAGE_LIMIT, window);
    WalkedRows(matches, nodes, offset, nextOffset, limit, ENUMERATE_SCAN_PAGE_LIMIT, window);
  }

  method PageOfRows<R>(rows: seq<R>, predicate_: Option<R -> bool>, partial: bool, offset: nat, limit: nat)
    returns (page: Collected<R>)
    requires 1 <= limit <= 500
    ensures IsOffsetPage(Wanted(predicate_), RowNodes(rows), offset, limit, page)
    ensures page.partial == partial && page.complete == (page.nextOffset >= |rows|)
  {
    hide Filtered, ScanEnd;
    var window: seq<R>;
    var nextOffset: nat;
    if predicate_.None? {
      var lower := if offset <= |rows| then offset else |rows|;
      var upper := if offset + limit <= |rows| then offset + limit else if offset <= |rows| then |rows| else lower;
      window := rows[lower..upper];
      nextOffset := offset + |window|;
      EveryRowWanted(rows, lower, limit, ENUMERATE_SCAN_PAGE_LIMIT);
    } else if offset <= |rows| {
      window, nextOffset := Search(rows, predicate_, offset, limit);
    } else {
      // The loop condition is false at once: the offset lies beyond the ceiling.
      window, nextOffset := [], offset;
      NothingLeft(Wanted(predicate_), RowNodes(rows), limit);
    }
    page := Collected(window, partial, nextOffset - offset, |window|, nextOffset, None, nextOffset >= |rows|);
  }

  lemma NothingLeft<R>(matches: R -> bool, nodes: seq<Option<R>>, limit: nat)
    ensures ScanEnd(matches, nodes, |nodes|, limit, ENUMERATE_SCAN_PAGE_LIMIT) == |nodes|
    ensures Filtered(matches, nodes[|nodes|..|nodes|]) == []
  {
  }
}
