/**
  Keyset paging over the process table. The cursor carries the last visited PID and the highest PID
  of the first page, so processes may come and go between pages without shifting anything.
*/
module ProcessScan {
  import opened Wrappers
  import opened Ordering
  import opened OffsetScan

  datatype ProcessRow<+R> = ProcessRow(pid: nat, facts: R)

  /** What reading one process gives: its row, nothing because it has gone, or an error. */
  datatype Reading<+R> = Observed(facts: R) | Vanished | Failed

  /**
    The host while one page is collected: the numeric names in the process directory, what reading
    each process gives at that time, and how many can be visited before the deadline.
  */
  datatype Host<!R> = Host(listing: seq<nat>, read: nat -> Reading<R>, timeFor: nat)

  predicate PidLe(a: nat, b: nat) {
    a <= b
  }

  function Highest(pids: seq<nat>, default: nat): nat {
    if pids == [] then default
    else if |pids| == 1 || Highest(pids[1..], default) < pids[0] then pids[0]
    else Highest(pids[1..], default)
  }

  function Between(pids: seq<nat>, low: nat, high: nat): seq<nat> {
    if pids == [] then []
    else (if low < pids[0] <= high then [pids[0]] else []) + Between(pids[1..], low, high)
  }

  /** The processes a page may visit, in ascending order. */
  function Entries(pids: seq<nat>, low: nat, high: nat): seq<nat> {
    StableSort(PidLe, Between(pids, low, high))
  }

  predicate Wants<R>(matches: ProcessRow<R> -> bool, pid: nat, reading: Reading<R>) {
    reading.Observed? && matches(ProcessRow(pid, reading.facts))
  }

  function Rows<R>(host: Host<R>, matches: ProcessRow<R> -> bool, entries: seq<nat>): seq<ProcessRow<R>> {
    if entries == [] then []
    else
      var last := entries[|entries| - 1];
      Rows(host, matches, entries[..|entries| - 1])
      + (if Wants(matches, last, host.read(last)) then [ProcessRow(last, host.read(last).facts)] else [])
  }

  lemma {:induction false} HighestBounds(pids: seq<nat>, default: nat)
    ensures forall p :: p in pids ==> p <= Highest(pids, default)
    ensures pids == [] ==> Highest(pids, default) == default
  {
    if |pids| > 1 {
      HighestBounds(pids[1..], default);
      assert pids == [pids[0]] + pids[1..];
    }
  }

  lemma {:induction false} BetweenMembers(pids: seq<nat>, low: nat, high: nat, p: nat)
    ensures multiset(Between(pids, low, high))[p] == if low < p <= high then multiset(pids)[p] else 0
  {
    if pids != [] {
      BetweenMembers(pids[1..], low, high, p);
      assert pids == [pids[0]] + pids[1..];
    }
  }

  lemma CountTellsMembership<T>(s: seq<T>, x: T)
    ensures x in s <==> multiset(s)[x] > 0
  {
  }

  ghost predicate DistinctPids(pids: seq<nat>) {
    forall p: nat :: multiset(pids)[p] <= 1
  }

  /** The entries are exactly the listed processes in range, strictly ascending. */
  lemma EntriesMeaning(pids: seq<nat>, low: nat, high: nat)
    requires DistinctPids(pids)
    ensures forall p :: p in Entries(pids, low, high) <==> p in pids && low < p <= high
    ensures forall i, j :: 0 <= i < j < |Entries(pids, low, high)| ==>
      Entries(pids, low, high)[i] < Entries(pids, low, high)[j]
  {
    var chosen := Between(pids, low, high);
    var entries := Entries(pids, low, high);
    SortIsPermutation(PidLe, chosen);
    SortIsOrdered(PidLe, chosen);
    forall p: nat
      ensures p in entries <==> p in pids && low < p <= high
      ensures multiset(entries)[p] <= 1
    {
      BetweenMembers(pids, low, high, p);
      CountTellsMembership(chosen, p);
      CountTellsMembership(pids, p);
    }
    forall i, j | 0 <= i < j < |entries|
      ensures entries[i] < entries[j]
    {
      if entries[i] == entries[j] {
        TwiceCountsTwo(entries, i, j);
      }
      assert PidLe(entries[i], entries[j]);
    }
  }

  /** What one page is. */
  ghost predicate ProcessPage<R>(host: Host<R>, matches: ProcessRow<R> -> bool, startAfter: nat, maximum: nat,
                                 bound: Option<nat>, page: Collected<ProcessRow<R>>) {
    && page.upperBound.Some?
    && page.upperBound.value == (if bound.Some? then bound.value else Highest(host.listing, startAfter))
    && var entries := Entries(host.listing, startAfter, page.upperBound.value);
    && page.scannedCount <= |entries|
    && page.nextOffset == (if page.scannedCount == 0 then startAfter else entries[page.scannedCount - 1])
    && page.rows == Rows(host, matches, entries[..page.scannedCount])
    && page.matchedCount == |page.rows| && |page.rows| <= maximum && page.scannedCount <= ENUMERATE_SCAN_PAGE_LIMIT
    && (page.complete <==> page.scannedCount == |entries|)
    && (!page.complete ==>
          || |page.rows| == maximum
          || page.scannedCount == ENUMERATE_SCAN_PAGE_LIMIT
          || (page.scannedCount >= host.timeFor && page.partial))
    && (page.partial <==>
          || (exists i :: 0 <= i < page.scannedCount && host.read(entries[i]).Failed?)
          || (!page.complete && |page.rows| < maximum && page.scannedCount < ENUMERATE_SCAN_PAGE_LIMIT))
  }

  lemma RowsNext<R>(host: Host<R>, matches: ProcessRow<R> -> bool, entries: seq<nat>, n: nat)
    requires n < |entries|
    ensures Rows(host, matches, entries[..n + 1])
         == Rows(host, matches, entries[..n])
            + (if Wants(matches, entries[n], host.read(entries[n])) then
               [ProcessRow(entries[n], host.read(entries[n]).facts)] else [])
  {
    assert entries[..n + 1][..n] == entries[..n];
  }

  method ProcessInventory<R>(host: Host<R>, predicate_: Option<ProcessRow<R> -> bool>, startAfter: nat, maximum: nat,
                             bound: Option<nat>)
    returns (page: Collected<ProcessRow<R>>)
    requires maximum >= 1
    ensures ProcessPage(host, Wanted(predicate_), startAfter, maximum, bound, page)
  {
    hide Highest, Entries, Rows;
    var upper := if bound.Some? then bound.value else Highest(host.listing, startAfter);
    var entries := Entries(host.listing, startAfter, upper);
    var rows: seq<ProcessRow<R>> := [];
    var warnings, complete := false, true;
    var scanned, nextPid := 0, startAfter;
    NoRows(host, Wanted(predicate_), entries);
    while scanned < |entries|
      invariant scanned <= |entries| && scanned <= ENUMERATE_SCAN_PAGE_LIMIT
      invariant nextPid == (if scanned == 0 then startAfter else entries[scanned - 1])
      invariant rows == Rows(host, Wanted(predicate_), entries[..scanned]) && |rows| < maximum
      invariant warnings <==> exists i :: 0 <= i < scanned && host.read(entries[i]).Failed?
      invariant complete
    {
      if scanned >= ENUMERATE_SCAN_PAGE_LIMIT {
        complete := false;
        break;
      }
      if scanned >= host.timeFor {
        warnings, complete := true, false;
        break;
      }
      RowsNext(host, Wanted(predicate_), entries, scanned);
      nextPid := entries[scanned];
      scanned := scanned + 1;
      var reading := host.read(nextPid);
      if reading.Failed? {
        warnings := true;
      }
      if reading.Observed? {
        var row := ProcessRow(nextPid, reading.facts);
        if predicate_.None? || predicate_.value(row) {
          rows := rows + [row];
          if |rows| >= maximum {
            complete := false;
            break;
          }
        }
      }
    }
    if scanned == |entries| {
      complete := true;
    }
    page := Collected(rows, warnings, scanned, |rows|, nextPid, Some(upper), complete);
  }

  lemma NoRows<R>(host: Host<R>, matches: ProcessRow<R> -> bool, entries: seq<nat>)
    ensures Rows(host, matches, entries[..0]) == []
  {
  }

  // ---- A walk of several pages over a changing host ----

  datatype Visit<!R> = Visit(host: Host<R>, page: Collected<ProcessRow<R>>)

  /** Page after page along the cursors; the host may be a different one for every page. */
  ghost predicate IsWalk<R>(matches: ProcessRow<R> -> bool, maximum: nat, startAfter: nat, bound: Option<nat>,
                            walk: seq<Visit<R>>)
    decreases |walk|
  {
    walk != []
    ==> && DistinctPids(walk[0].host.listing)
        && ProcessPage(walk[0].host, matches, startAfter, maximum, bound, walk[0].page)
        && (|walk| > 1 ==> !walk[0].page.complete)
        && IsWalk(matches, maximum, walk[0].page.nextOffset, walk[0].page.upperBound, walk[1..])
  }

  function Returned<R>(walk: seq<Visit<R>>): seq<ProcessRow<R>> {
    if walk == [] then [] else walk[0].page.rows + Returned(walk[1..])
  }

  ghost predicate Ascending<R>(rows: seq<ProcessRow<R>>, low: nat, high: nat) {
    && (forall i :: 0 <= i < |rows| ==> low < rows[i].pid <= high)
    && (forall i, j :: 0 <= i < j < |rows| ==> rows[i].pid < rows[j].pid)
  }

  ghost predicate ReadAs<R>(host: Host<R>, matches: ProcessRow<R> -> bool, row: ProcessRow<R>) {
    host.read(row.pid) == Observed(row.facts) && matches(row)
  }

  lemma {:induction false} RowsMembers<R>(host: Host<R>, matches: ProcessRow<R> -> bool, entries: seq<nat>,
                                          row: ProcessRow<R>)
    ensures row in Rows(host, matches, entries) <==> row.pid in entries && ReadAs(host, matches, row)
  {
    if entries != [] {
      var front, last := entries[..|entries| - 1], entries[|entries| - 1];
      assert entries == front + [last];
      RowsMembers(host, matches, front, row);
    }
  }

  lemma {:induction false} RowsAscend<R>(host: Host<R>, matches: ProcessRow<R> -> bool, entries: seq<nat>, low: nat,
                                         high: nat)
    requires forall i :: 0 <= i < |entries| ==> low < entries[i] <= high
    requires forall i, j :: 0 <= i < j < |entries| ==> entries[i] < entries[j]
    ensures Ascending(Rows(host, matches, entries), low, high)
  {
    if entries != [] {
      var n := |entries| - 1;
      var front, last := entries[..n], entries[n];
      RowsAscend(host, matches, front, low, high);
      forall i | 0 <= i < |Rows(host, matches, front)|
        ensures Rows(host, matches, front)[i].pid < last
      {
        RowsMembers(host, matches, front, Rows(host, matches, front)[i]);
      }
    }
  }

  /** One page: where it ends, what it returns, and what it has passed. */
  lemma PageSweepsItsRange<R>(host: Host<R>, matches: ProcessRow<R> -> bool, startAfter: nat, maximum: nat,
                              bound: Option<nat>, page: Collected<ProcessRow<R>>)
    requires ProcessPage(host, matches, startAfter, maximum, bound, page) && DistinctPids(host.listing)
    requires bound.Some? ==> startAfter <= bound.value
    ensures startAfter <= page.nextOffset && (page.scannedCount > 0 ==> startAfter < page.nextOffset)
    ensures startAfter <= page.upperBound.value ==> page.nextOffset <= page.upperBound.value
    ensures page.scannedCount > 0 ==> page.nextOffset <= page.upperBound.value
    ensures Ascending(page.rows, startAfter, page.nextOffset)
    ensures forall row :: row in page.rows <==>
      && row.pid in host.listing && startAfter < row.pid <= page.nextOffset && row.pid <= page.upperBound.value
      && ReadAs(host, matches, row)
    ensures page.complete ==> forall p :: p in host.listing && startAfter < p <= page.upperBound.value ==>
      p <= page.nextOffset
  {
    var entries := Entries(host.listing, startAfter, page.upperBound.value);
    var seen := entries[..page.scannedCount];
    EntriesMeaning(host.listing, startAfter, page.upperBound.value);
    forall i | 0 <= i < |seen|
      ensures startAfter < seen[i] <= page.nextOffset && seen[i] <= page.upperBound.value
    {
      assert entries[i] in entries;
    }
    RowsAscend(host, matches, seen, startAfter, page.nextOffset);
    forall p: nat
      ensures p in seen <==> p in host.listing && startAfter < p <= page.nextOffset && p <= page.upperBound.value
    {
      if p in host.listing && startAfter < p <= page.nextOffset && p <= page.upperBound.value {
        assert p in entries;
        var i :| 0 <= i < |entries| && entries[i] == p;
        assert i < page.scannedCount;
        assert seen[i] == p;
      }
    }
    forall row
      ensures row in page.rows <==> row.pid in seen && ReadAs(host, matches, row)
    {
      RowsMembers(host, matches, seen, row);
    }
    if page.complete {
      assert seen == entries;
    }
  }

  /**
    A page is complete exactly if nobody in its range is left, and partial exactly if a read failed
    or time ran out.
  */
  lemma ProcessPageOwnsUp<R>(host: Host<R>, matches: ProcessRow<R> -> bool, startAfter: nat, maximum: nat,
                             bound: Option<nat>, page: Collected<ProcessRow<R>>)
    requires ProcessPage(host, matches, startAfter, maximum, bound, page) && DistinctPids(host.listing)
    requires bound.Some? ==> startAfter <= bound.value
    ensures page.complete <==>
      forall p :: p in host.listing && startAfter < p <= page.upperBound.value ==> p <= page.nextOffset
    ensures page.partial <==>
      || (exists p :: p in host.listing && startAfter < p <= page.nextOffset && p <= page.upperBound.value
                      && host.read(p) == Failed)
      || (!page.complete && |page.rows| < maximum && page.scannedCount < 5000)
    ensures page.scannedCount <= 5000 && |page.rows| <= maximum && page.matchedCount == |page.rows|
  {
    var entries := Entries(host.listing, startAfter, page.upperBound.value);
    var seen := entries[..page.scannedCount];
    EntriesMeaning(host.listing, startAfter, page.upperBound.value);
    hide Rows, Entries;
    if !page.complete {
      assert entries[page.scannedCount] in entries;
    }
    forall i | 0 <= i < |entries|
      ensures i < page.scannedCount <==> entries[i] <= page.nextOffset
    {
      assert entries[i] in entries;
    }
    if p :|
      p in host.listing && startAfter < p <= page.nextOffset && p <= page.upperBound.value && host.read(p) == Failed {
      assert p in entries;
      var i :| 0 <= i < |entries| && entries[i] == p;
      assert i < page.scannedCount;
    }
    if i :| 0 <= i < page.scannedCount && host.read(entries[i]).Failed? {
      assert entries[i] in entries;
    }
  }

  /** The returned PIDs strictly increase over the whole walk and stay within the first page's bound. */
  lemma {:induction false} ReturnedPidsAscend<R>(matches: ProcessRow<R> -> bool, maximum: nat, startAfter: nat,
                                                 bound: Option<nat>, walk: seq<Visit<R>>, high: nat)
    requires IsWalk(matches, maximum, startAfter, bound, walk)
    requires bound.Some? ==> startAfter <= bound.value && high == bound.value
    requires bound.None? && walk != [] ==> high == walk[0].page.upperBound.value
    ensures Ascending(Returned(walk), startAfter, high)
    decreases |walk|
  {
    if walk != [] {
      var page := walk[0].page;
      PageSweepsItsRange(walk[0].host, matches, startAfter, maximum, bound, page);
      if |walk| > 1 {
        assert page.nextOffset <= high by {
          if page.scannedCount == 0 && bound.None? {
            NothingVisitedMeansComplete(walk[0].host, matches, startAfter, maximum, page);
          }
        }
        ReturnedPidsAscend(matches, maximum, page.nextOffset, page.upperBound, walk[1..], high);
      } else {
        assert walk[1..] == [];
      }
      AscendingAppend(page.rows, Returned(walk[1..]), startAfter, page.nextOffset, high);
    }
  }

  /** An unfinished first page has somebody above its start, so its bound is not below it. */
  lemma NothingVisitedMeansComplete<R>(host: Host<R>, matches: ProcessRow<R> -> bool, startAfter: nat, maximum: nat,
                                       page: Collected<ProcessRow<R>>)
    requires ProcessPage(host, matches, startAfter, maximum, None, page) && DistinctPids(host.listing) && !page.complete
    ensures startAfter <= page.upperBound.value
  {
    var entries := Entries(host.listing, startAfter, page.upperBound.value);
    EntriesMeaning(host.listing, startAfter, page.upperBound.value);
    assert entries[0] in entries;
  }

  lemma AscendingAppend<R>(a: seq<ProcessRow<R>>, b: seq<ProcessRow<R>>, low: nat, middle: nat, high: nat)
    requires Ascending(a, low, middle) && Ascending(b, middle, high) && low <= middle
    requires a != [] || b != [] ==> middle <= high || b == []
    requires forall row :: row in a ==> row.pid <= high
    ensures Ascending(a + b, low, high)
  {
    assert forall i :: 0 <= i < |a| ==> a[i] in a;
  }

  /** The page of a walk that passes a given PID. */
  ghost predicate Passes<R>(walk: seq<Visit<R>>, startAfter: nat, k: nat, p: nat)
    requires k < |walk|
  {
    (if k == 0 then startAfter else walk[k - 1].page.nextOffset) < p <= walk[k].page.nextOffset
  }

  /**
    No process is lost: a PID present in every listing of a finished walk is passed by one of its
    pages, and is returned there exactly when it could be read then and matched.
  */
  lemma {:induction false} NoProcessIsLost<R>(matches: ProcessRow<R> -> bool, maximum: nat, startAfter: nat,
                                              bound: Option<nat>, walk: seq<Visit<R>>, p: nat) returns (k: nat)
    requires IsWalk(matches, maximum, startAfter, bound, walk) && walk != [] && walk[|walk| - 1].page.complete
    requires forall i :: 0 <= i < |walk| ==> p in walk[i].host.listing
    requires startAfter < p && (bound.Some? ==> startAfter <= bound.value && p <= bound.value)
    ensures k < |walk| && Passes(walk, startAfter, k, p)
    ensures forall facts :: ProcessRow(p, facts) in walk[k].page.rows <==>
      walk[k].host.read(p) == Observed(facts) && matches(ProcessRow(p, facts))
    decreases |walk|
  {
    var page := walk[0].page;
    PageSweepsItsRange(walk[0].host, matches, startAfter, maximum, bound, page);
    HighestBounds(walk[0].host.listing, startAfter);
    assert p <= page.upperBound.value;
    if p <= page.nextOffset {
      k := 0;
    } else {
      assert |walk| > 1;
      var rest := NoProcessIsLost(matches, maximum, page.nextOffset, page.upperBound, walk[1..], p);
      k := rest + 1;
      assert walk[k] == walk[1..][rest];
    }
  }

  lemma {:induction false} ReturnedContains<R>(walk: seq<Visit<R>>, k: nat, row: ProcessRow<R>)
    requires k < |walk| && row in walk[k].page.rows
    ensures row in Returned(walk)
  {
    if k > 0 {
      ReturnedContains(walk[1..], k - 1, row);
    }
  }

  /** Hence a process that is listed, readable and matching throughout is returned, exactly once. */
  lemma SteadyProcessesAreReturnedOnce<R>(matches: ProcessRow<R> -> bool, maximum: nat, walk: seq<Visit<R>>, p: nat)
    requires IsWalk(matches, maximum, 0, None, walk) && walk != [] && walk[|walk| - 1].page.complete && p > 0
    requires forall i :: 0 <= i < |walk| ==> p in walk[i].host.listing && Wants(matches, p, walk[i].host.read(p))
    ensures exists i :: 0 <= i < |Returned(walk)| && Returned(walk)[i].pid == p
    ensures forall i, j :: 0 <= i < j < |Returned(walk)| ==> Returned(walk)[i].pid < Returned(walk)[j].pid
  {
    var k := NoProcessIsLost(matches, maximum, 0, None, walk, p);
    assert Wants(matches, p, walk[k].host.read(p));
    var facts := walk[k].host.read(p).facts;
    var row := ProcessRow(p, facts);
    assert walk[k].host.read(p) == Observed(facts);
    assert row in walk[k].page.rows;
    ReturnedContains(walk, k, row);
    ReturnedPidsAscend(matches, maximum, 0, None, walk, walk[0].page.upperBound.value);
    var i :| 0 <= i < |Returned(walk)| && Returned(walk)[i] == row;
  }

  /** The page of a walk that passes a process found it listed, could read it, and wanted what it read. */
  ghost predicate ReturnedBy<R>(matches: ProcessRow<R> -> bool, startAfter: nat, walk: seq<Visit<R>>, k: nat,
                                row: ProcessRow<R>)
    requires k < |walk|
  {
    && Passes(walk, startAfter, k, row.pid)
    && row.pid in walk[k].host.listing && ReadAs(walk[k].host, matches, row)
  }

  lemma FirstPageReturns<R>(matches: ProcessRow<R> -> bool, maximum: nat, startAfter: nat, bound: Option<nat>,
                            walk: seq<Visit<R>>, row: ProcessRow<R>)
    requires IsWalk(matches, maximum, startAfter, bound, walk) && walk != []
    requires (bound.Some? ==> startAfter <= bound.value)
    ensures row in walk[0].page.rows <==> ReturnedBy(matches, startAfter, walk, 0, row)
    ensures |walk| > 1 ==> walk[0].page.upperBound.Some? && walk[0].page.nextOffset <= walk[0].page.upperBound.value
  {
    var page := walk[0].page;
    PageSweepsItsRange(walk[0].host, matches, startAfter, maximum, bound, page);
    if page.scannedCount == 0 && bound.None? && |walk| > 1 {
      NothingVisitedMeansComplete(walk[0].host, matches, startAfter, maximum, page);
    }
  }

  /** A walk returns exactly what the page that passes each process read and wanted. */
  lemma {:induction false} ReturnedIff<R>(matches: ProcessRow<R> -> bool, maximum: nat, startAfter: nat,
                                          bound: Option<nat>, walk: seq<Visit<R>>, row: ProcessRow<R>)
    requires IsWalk(matches, maximum, startAfter, bound, walk) && (bound.Some? ==> startAfter <= bound.value)
    ensures row in Returned(walk) <==> exists k :: 0 <= k < |walk| && ReturnedBy(matches, startAfter, walk, k, row)
    decreases |walk|
  {
    hide ProcessPage, DistinctPids, ReadAs;
    if walk != [] {
      var rest, next := walk[1..], walk[0].page.nextOffset;
      FirstPageReturns(matches, maximum, startAfter, bound, walk, row);
      if rest != [] {
        ReturnedIff(matches, maximum, next, walk[0].page.upperBound, rest, row);
        forall k | 0 <= k < |rest|
          ensures ReturnedBy(matches, next, rest, k, row) <==> ReturnedBy(matches, startAfter, walk, k + 1, row)
        {
          assert rest[k] == walk[k + 1];
        }
        if row in Returned(rest) {
          var k :| 0 <= k < |rest| && ReturnedBy(matches, next, rest, k, row);
          assert ReturnedBy(matches, startAfter, walk, k + 1, row);
        }
        if k :| 0 <= k < |walk| && ReturnedBy(matches, startAfter, walk, k, row) {
          assert k > 0 ==> ReturnedBy(matches, next, rest, k - 1, row);
        }
      }
    }
  }

  /** Over an unchanged process table a finished walk returns exactly its processes that can be read and match. */
  lemma UnchangedTableIsReturned<R>(matches: ProcessRow<R> -> bool, maximum: nat, walk: seq<Visit<R>>, table: Host<R>,
                                    row: ProcessRow<R>)
    requires IsWalk(matches, maximum, 0, None, walk) && walk != [] && walk[|walk| - 1].page.complete
    requires forall i {:trigger walk[i]} :: 0 <= i < |walk| ==>
      walk[i].host.listing == table.listing && walk[i].host.read == table.read
    ensures row in Returned(walk) <==> row.pid > 0 && row.pid in table.listing && ReadAs(table, matches, row)
  {
    hide IsWalk, Returned;
    ReturnedIff(matches, maximum, 0, None, walk, row);
    if row.pid > 0 && row.pid in table.listing && ReadAs(table, matches, row) {
      var k := NoProcessIsLost(matches, maximum, 0, None, walk, row.pid);
      assert ReturnedBy(matches, 0, walk, k, row);
    }
  }

  /** Every page that visits anybody brings the walk closer to its bound. */
  lemma VisitingPagesMakeProgress<R>(host: Host<R>, matches: ProcessRow<R> -> bool, startAfter: nat, maximum: nat,
                                     bound: Option<nat>, page: Collected<ProcessRow<R>>)
    requires ProcessPage(host, matches, startAfter, maximum, bound, page) && DistinctPids(host.listing)
    requires bound.Some? ==> startAfter <= bound.value
    ensures page.scannedCount > 0 ==> page.upperBound.value - page.nextOffset < page.upperBound.value - startAfter
    ensures page.scannedCount > 0 ==> page.nextOffset <= page.upperBound.value
    ensures host.timeFor > 0 && maximum > 0 && !page.complete ==> page.scannedCount > 0
  {
    PageSweepsItsRange(host, matches, startAfter, maximum, bound, page);
    if page.scannedCount == 0 {
      NoRows(host, matches, Entries(host.listing, startAfter, page.upperBound.value));
    }
  }
}
