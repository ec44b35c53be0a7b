/**
  The pages of the collectors read off their sources: which nodes a page returns, where it stops, when
  it may call itself complete, and what it has to own up to.
*/
module PageMeaning {
  import opened Wrappers
  import opened OffsetScan
  import ArrayScan
  import FileScan
  import LogScan

  // ---- Which nodes ----

  predicate IsWanted<R>(predicate_: Option<R -> bool>, row: R) {
    predicate_ == None || predicate_.value(row)
  }

  /**
    The rows are those of the nodes at the given places, which are all the nodes in a range that
    yield a wanted row.
  */
  ghost predicate ArePicked<R>(predicate_: Option<R -> bool>, nodes: seq<Option<R>>, from: nat, to: nat, rows: seq<R>,
                               places: seq<nat>)
    requires to <= |nodes|
  {
    && |places| == |rows|
    && (forall j, k :: 0 <= j < k < |places| ==> places[j] < places[k])
    && (forall k :: 0 <= k < |places| ==>
          from <= places[k] < to && nodes[places[k]] == Some(rows[k]) && IsWanted(predicate_, rows[k]))
    && (forall i :: from <= i < to && nodes[i].Some? && IsWanted(predicate_, nodes[i].value) ==> i in places)
  }

  lemma KeepsPlaces(places: seq<nat>, last: nat)
    ensures forall i: nat :: i in places + [last] <==> i in places || i == last
  {
  }

  lemma OneMorePicked<R>(predicate_: Option<R -> bool>, nodes: seq<Option<R>>, from: nat, at: nat, rows: seq<R>,
                         places: seq<nat>)
    requires from <= at < |nodes| && ArePicked(predicate_, nodes, from, at, rows, places)
    requires nodes[at].Some? && IsWanted(predicate_, nodes[at].value)
    ensures ArePicked(predicate_, nodes, from, at + 1, rows + [nodes[at].value], places + [at])
  {
    hide IsWanted;
    KeepsPlaces(places, at);
  }

  lemma NoMorePicked<R>(predicate_: Option<R -> bool>, nodes: seq<Option<R>>, from: nat, at: nat, rows: seq<R>,
                        places: seq<nat>)
    requires from <= at < |nodes| && ArePicked(predicate_, nodes, from, at, rows, places)
    requires nodes[at].None? || !IsWanted(predicate_, nodes[at].value)
    ensures ArePicked(predicate_, nodes, from, at + 1, rows, places)
  {
    hide IsWanted;
  }

  lemma {:induction false} FilteredIsPicked<R>(predicate_: Option<R -> bool>, nodes: seq<Option<R>>, from: nat,
                                               end: nat)
    returns (places: seq<nat>)
    requires from <= end <= |nodes|
    ensures ArePicked(predicate_, nodes, from, end, Filtered(Wanted(predicate_), nodes[from..end]), places)
    decreases end
  {
    if from == end {
      NothingFromNothing(predicate_, nodes, from);
      places := [];
    } else {
      places := FilteredIsPicked(predicate_, nodes, from, end - 1);
      FilteredOne(Wanted(predicate_), nodes, from, end - 1);
      hide Filtered, ArePicked;
      var rows := Filtered(Wanted(predicate_), nodes[from..end - 1]);
      if nodes[end - 1].Some? && IsWanted(predicate_, nodes[end - 1].value) {
        OneMorePicked(predicate_, nodes, from, end - 1, rows, places);
        places := places + [end - 1];
      } else {
        NoMorePicked(predicate_, nodes, from, end - 1, rows, places);
        assert rows + [] == rows;
      }
    }
  }

  /**
    What an offset page returns and where it stops: it starts at its offset, or at the end of a source
    that has become shorter, returns the wanted rows in order, and goes on until the source ends, the
    page is full or 5000 nodes have been visited.
  */
  lemma OffsetPageIsReadOff<R>(predicate_: Option<R -> bool>, nodes: seq<Option<R>>, start: nat, limit: nat,
                               page: Collected<R>)
    returns (places: seq<nat>)
    requires IsOffsetPage(Wanted(predicate_), nodes, start, limit, page) && limit >= 1
    ensures var from := if start <= |nodes| then start else |nodes|;
      var to := from + page.scannedCount;
      && to <= |nodes| && page.scannedCount <= 5000
      && ArePicked(predicate_, nodes, from, to, page.rows, places)
      && |page.rows| <= limit && page.matchedCount == |page.rows| && page.nextOffset == start + page.scannedCount
      && (to == |nodes| || |page.rows| == limit || page.scannedCount == 5000)
      && (|page.rows| == limit ==> to - 1 in places)
  {
    var from := First(start, |nodes|);
    WhereAPageStops(Wanted(predicate_), nodes, from, limit, ENUMERATE_SCAN_PAGE_LIMIT);
    places := FilteredIsPicked(predicate_, nodes, from, from + page.scannedCount);
    hide Filtered, ScanEnd;
    if |page.rows| == limit {
      NothingFromNothing(predicate_, nodes, from);
      assert from + page.scannedCount - 1 in places;
    }
  }

  lemma NothingFromNothing<R>(predicate_: Option<R -> bool>, nodes: seq<Option<R>>, at: nat)
    requires at <= |nodes|
    ensures Filtered(Wanted(predicate_), nodes[at..at]) == []
  {
  }

  // ---- Files ----

  /** The nodes of a walk are its files, in walk order; a regular file yields its facts and nothing else does. */
  lemma FileNodesMean<R>(files: seq<FileScan.FileNode<R>>, i: nat)
    requires i < |files|
    ensures FileScan.Nodes(files)[i] == match files[i] case Regular(facts) => Some(facts) case _ => None
  {
  }

  /** A page of the file walk that has something to own up to. */
  ghost predicate HasFlaw<R>(walk: seq<FileScan.Directory<R>>) {
    exists i :: 0 <= i < |walk| && (walk[i].expired || walk[i].skipped)
  }

  lemma FlawsOfAWalk<R>(walk: seq<FileScan.Directory<R>>)
    ensures HasFlaw(walk) <==> FileScan.Expires(walk) || FileScan.Skips(walk)
  {
  }

  lemma WholeWalkIsReached<R>(walk: seq<FileScan.Directory<R>>)
    requires !FileScan.Expires(walk)
    ensures FileScan.BeforeDeadline(walk) == walk
  {
    FileScan.BeforeDeadlineIsPrefix(walk);
  }

  /**
    A page of the file walk calls itself complete only when it has come to the end of the walk without
    being full; if it then is not partial either, nothing was left out, cut off or unreadable.
  */
  lemma CompleteFilePageSawEverything<R>(predicate_: Option<R -> bool>, walk: seq<FileScan.Directory<R>>, start: nat,
                                         limit: nat, page: Collected<R>)
    requires FileScan.FilePage(Wanted(predicate_), walk, start, limit, page) && limit >= 1 && page.complete
    ensures FileScan.BeforeDeadline(walk) == walk && |page.rows| < limit
    ensures start >= |FileScan.AllFiles(walk)| || page.nextOffset == |FileScan.AllFiles(walk)|
    ensures !page.partial ==> !HasFlaw(walk)
    ensures !page.partial ==> var files := FileScan.AllFiles(walk);
      forall i :: start <= i < |files| ==> files[i] != FileScan.Unreadable
  {
    hide Filtered, ScanEnd;
    FlawsOfAWalk(walk);
    WholeWalkIsReached(walk);
    hide FileScan.AllFiles, FileScan.BeforeDeadline;
  }

  /** A page of a walk without any flaw, over readable files, is never partial. */
  lemma FlawlessFilePageIsClean<R>(predicate_: Option<R -> bool>, walk: seq<FileScan.Directory<R>>, start: nat,
                                   limit: nat, page: Collected<R>)
    requires FileScan.FilePage(Wanted(predicate_), walk, start, limit, page) && !HasFlaw(walk)
    requires FileScan.Unreadable !in FileScan.AllFiles(walk)
    ensures !page.partial
  {
    hide Filtered, ScanEnd;
    FlawsOfAWalk(walk);
    WholeWalkIsReached(walk);
    var files := FileScan.AllFiles(walk);
    assert forall i :: 0 <= i < |files| ==> files[i] in files;
  }

  // ---- Log events ----

  /** The record is inside the window, and none before it is of the same event. */
  ghost predicate IsFirstCopy<R>(cutoff: int, records: seq<LogScan.LogRecord<R>>, i: nat) {
    && i < |records| && records[i].timestamp >= cutoff
    && forall j :: 0 <= j < i && records[j].timestamp >= cutoff ==> records[j].key != records[i].key
  }

  ghost predicate AreFirstCopies<R>(cutoff: int, records: seq<LogScan.LogRecord<R>>, events: seq<LogScan.LogRecord<R>>,
                                    places: seq<nat>) {
    && |places| == |events|
    && (forall j, k :: 0 <= j < k < |places| ==> places[j] < places[k])
    && (forall k :: 0 <= k < |places| ==>
          places[k] < |records| && records[places[k]] == events[k] && IsFirstCopy(cutoff, records, places[k]))
    && (forall i :: 0 <= i < |records| && IsFirstCopy(cutoff, records, i) ==> i in places)
  }

  lemma KeySeenIff<R>(cutoff: int, records: seq<LogScan.LogRecord<R>>, events: seq<LogScan.LogRecord<R>>,
                      places: seq<nat>, key: string)
    requires AreFirstCopies(cutoff, records, events, places)
    ensures LogScan.HasKey(events, key) <==>
      exists j :: 0 <= j < |records| && records[j].timestamp >= cutoff && records[j].key == key
  {
    if LogScan.HasKey(events, key) {
      var k :| 0 <= k < |events| && events[k].key == key;
      assert records[places[k]].key == key;
    }
    if j :| 0 <= j < |records| && records[j].timestamp >= cutoff && records[j].key == key {
      var first := FirstOf(cutoff, records, j);
      assert first in places;
      var k :| 0 <= k < |places| && places[k] == first;
      assert events[k].key == key;
    }
  }

  lemma {:induction false} FirstOf<R>(cutoff: int, records: seq<LogScan.LogRecord<R>>, j: nat) returns (first: nat)
    requires j < |records| && records[j].timestamp >= cutoff
    ensures IsFirstCopy(cutoff, records, first) && records[first].key == records[j].key
    decreases j
  {
    if i :| 0 <= i < j && records[i].timestamp >= cutoff && records[i].key == records[j].key {
      first := FirstOf(cutoff, records, i);
    } else {
      first := j;
    }
  }

  /** The logical source is the first copy of each event inside the window, in the order of the records. */
  lemma {:induction false} LogicalEventsAreFirstCopies<R>(cutoff: int, records: seq<LogScan.LogRecord<R>>)
    returns (places: seq<nat>)
    ensures AreFirstCopies(cutoff, records, LogScan.LogicalEvents(cutoff, records), places)
  {
    if records == [] {
      places := [];
    } else {
      var n := |records| - 1;
      var front := records[..n];
      var before := LogicalEventsAreFirstCopies(cutoff, front);
      KeySeenIff(cutoff, front, LogScan.LogicalEvents(cutoff, front), before, records[n].key);
      hide LogScan.HasKey;
      places := OneMoreRecord(cutoff, records, LogScan.LogicalEvents(cutoff, front), before);
    }
  }

  lemma SameBefore<R>(cutoff: int, records: seq<LogScan.LogRecord<R>>, i: nat)
    requires records != [] && i < |records| - 1
    ensures IsFirstCopy(cutoff, records[..|records| - 1], i) <==> IsFirstCopy(cutoff, records, i)
  {
  }

  lemma OneMoreRecord<R>(cutoff: int, records: seq<LogScan.LogRecord<R>>, events: seq<LogScan.LogRecord<R>>,
                         before: seq<nat>)
    returns (places: seq<nat>)
    requires records != [] && AreFirstCopies(cutoff, records[..|records| - 1], events, before)
    ensures var n := |records| - 1;
      AreFirstCopies(cutoff, records,
                     if IsFirstCopy(cutoff, records, n) then events + [records[n]] else events, places)
  {
    var n := |records| - 1;
    forall i: nat | i < n
      ensures IsFirstCopy(cutoff, records[..n], i) <==> IsFirstCopy(cutoff, records, i)
    {
      SameBefore(cutoff, records, i);
    }
    hide IsFirstCopy;
    if IsFirstCopy(cutoff, records, n) {
      places := before + [n];
      KeepsPlaces(before, n);
    } else {
      places := before;
    }
  }

  /** What the collector would read: the journal first, then file after file, each readable one line by line. */
  ghost predicate IsRead<R>(journal: Option<LogScan.Journal<R>>, files: seq<LogScan.LogFile<R>>,
                            record: LogScan.LogRecord<R>) {
    || (journal.Some? && record in journal.value.records)
    || exists file :: file in files && !file.unreadable && Some(record) in file.lines
  }

  lemma {:induction false} ParsedMeans<R>(lines: seq<Option<LogScan.LogRecord<R>>>, record: LogScan.LogRecord<R>)
    ensures record in LogScan.Parsed(lines) <==> Some(record) in lines
  {
    if lines != [] {
      ParsedMeans(lines[..|lines| - 1], record);
      assert lines == lines[..|lines| - 1] + [lines[|lines| - 1]];
    }
  }

  lemma {:induction false} FileRecordsMean<R>(files: seq<LogScan.LogFile<R>>, record: LogScan.LogRecord<R>)
    ensures record in LogScan.FileRecords(files) <==> exists file ::
      file in files && !file.unreadable && Some(record) in file.lines
  {
    if files != [] {
      var front, last := files[..|files| - 1], files[|files| - 1];
      FileRecordsMean(front, record);
      ParsedMeans(last.lines, record);
      assert files == front + [last];
    }
  }

  lemma AllRecordsMean<R>(journal: Option<LogScan.Journal<R>>, files: seq<LogScan.LogFile<R>>,
                          record: LogScan.LogRecord<R>)
    ensures record in LogScan.AllRecords(journal, files) <==> IsRead(journal, files, record)
    ensures journal.Some? ==> journal.value.records <= LogScan.AllRecords(journal, files)
  {
    FileRecordsMean(files, record);
  }

  /**
    Everything there is was read: there is a source, the journal left nothing out, and every line
    of every file parsed.
  */
  ghost predicate NothingLeftOut<R>(journal: Option<LogScan.Journal<R>>, listFlawed: bool,
                                    files: seq<LogScan.LogFile<R>>) {
    && !listFlawed && (journal.Some? || files != []) && (journal.Some? ==> !journal.value.flawed)
    && forall file :: file in files ==>
         !file.expired && !file.unreadable && !file.clipped && !file.cutShort && None !in file.lines
  }

  lemma FlawedMeans<R>(journal: Option<LogScan.Journal<R>>, listFlawed: bool, files: seq<LogScan.LogFile<R>>)
    ensures LogScan.SourcesFlawed(journal, listFlawed, files) <==> !NothingLeftOut(journal, listFlawed, files)
  {
    assert forall i :: 0 <= i < |files| ==> files[i] in files;
    forall i | 0 <= i < |files|
      ensures LogScan.IsFlawed(files[i]) <==>
        files[i].expired || files[i].unreadable || files[i].clipped || files[i].cutShort || None in files[i].lines
    {
    }
    hide LogScan.IsFlawed;
  }
}
