/** Paging over the merged, de-duplicated stream of log events. */
module LogScan {
  import opened Wrappers
  import opened OffsetScan

  /** A parsed record: when it happened, the identity under which copies are merged, and its row. */
  datatype LogRecord<+R> = LogRecord(timestamp: int, key: string, row: R)

  /**
    One log file in collection order: the deadline has passed when it is reached; its metadata
    cannot be read; its lines, `None` where a line does not parse; a part of it was left unread; the
    deadline passes while it is read.
  */
  datatype LogFile<+R> = LogFile(expired: bool, unreadable: bool, lines: seq<Option<LogRecord<R>>>, clipped: bool,
                                 cutShort: bool)

  /** The records of the journal, and whether reading it left anything out. */
  datatype Journal<+R> = Journal(records: seq<LogRecord<R>>, flawed: bool)

  /** A file of which the collector cannot say that it has seen everything. */
  predicate IsFlawed<R>(file: LogFile<R>) {
    file.expired || file.unreadable || file.clipped || file.cutShort || exists i ::
      0 <= i < |file.lines| && file.lines[i].None?
  }

  predicate SourcesFlawed<R>(journal: Option<Journal<R>>, listFlawed: bool, files: seq<LogFile<R>>) {
    (if journal.Some? then journal.value.flawed else files == []) || listFlawed || exists i ::
      0 <= i < |files| && IsFlawed(files[i])
  }

  ghost predicate HasKey<R>(events: seq<LogRecord<R>>, key: string) {
    exists i :: 0 <= i < |events| && events[i].key == key
  }

  /** The logical source: records inside the window, the first copy of each event only. */
  ghost function LogicalEvents<R>(cutoff: int, records: seq<LogRecord<R>>): seq<LogRecord<R>> {
    if records == [] then []
    else
      var last := records[|records| - 1];
      var events := LogicalEvents(cutoff, records[..|records| - 1]);
      if last.timestamp < cutoff || HasKey(events, last.key) then events else events + [last]
  }

  ghost function EventNodes<R>(events: seq<LogRecord<R>>): (nodes: seq<Option<R>>)
    ensures |nodes| == |events|
    ensures forall i :: 0 <= i < |events| ==> nodes[i] == Some(events[i].row)
  {
    seq(|events|, i requires 0 <= i < |events| => Some(events[i].row))
  }

  function Parsed<R>(lines: seq<Option<LogRecord<R>>>): seq<LogRecord<R>> {
    if lines == [] then []
    else
      var front := Parsed(lines[..|lines| - 1]);
      match lines[|lines| - 1]
      case None => front
      case Some(record) => front + [record]
  }

  function FileRecords<R>(files: seq<LogFile<R>>): seq<LogRecord<R>> {
    if files == [] then []
    else FileRecords(files[..|files| - 1]) + (if files[|files| - 1].unreadable then []
                                              else Parsed(files[|files| - 1].lines))
  }

  /** Everything the collector would read without a deadline. */
  function AllRecords<R>(journal: Option<Journal<R>>, files: seq<LogFile<R>>): seq<LogRecord<R>> {
    (if journal.Some? then journal.value.records else []) + FileRecords(files)
  }

  lemma {:induction false} LogicalEventsExtend<R>(cutoff: int, records: seq<LogRecord<R>>, more: seq<LogRecord<R>>)
    requires records <= more
    ensures LogicalEvents(cutoff, records) <= LogicalEvents(cutoff, more)
    decreases |more|
  {
    if |records| < |more| {
      var front := more[..|more| - 1];
      assert records == more[..|records|] == front[..|records|];
      LogicalEventsExtend(cutoff, records, front);
    } else {
      assert records == more;
    }
  }

  lemma LogicalEventsStep<R>(cutoff: int, records: seq<LogRecord<R>>, record: LogRecord<R>)
    ensures var events := LogicalEvents(cutoff, records);
      LogicalEvents(cutoff, records + [record])
      == if record.timestamp < cutoff || HasKey(events, record.key) then events else events + [record]
  {
    assert (records + [record])[..|records|] == records;
  }

  /** The state the page keeps while it absorbs records. */
  class LogPageBuilder<R(!new)> {
    const cutoff: int
    const start: nat
    const maximum: nat
    const predicate_: Option<R -> bool>
    var seen: set<string>
    var rows: seq<R>
    var logicalOffset: nat
    var scanned: nat
    var complete: bool
    var stopped: bool
    ghost var absorbed: seq<LogRecord<R>>

    ghost function Matches(): R -> bool {
      Wanted(predicate_)
    }

    ghost function Events(): seq<LogRecord<R>>
      reads this
    {
      LogicalEvents(cutoff, absorbed)
    }

    /** What the page has so far is the scan of the logical source absorbed so far. */
    ghost predicate Scanned()
      reads this
    {
      var events := Events();
      var first := First(start, |events|);
      && |events| == first + scanned
      && Walked(Matches(), EventNodes(events), first, first + scanned, maximum, ENUMERATE_SCAN_PAGE_LIMIT, rows)
    }

    ghost predicate Valid()
      reads this
    {
      var events := Events();
      && complete == !stopped
      && Scanned()
      && (stopped ==> |rows| == maximum || scanned == ENUMERATE_SCAN_PAGE_LIMIT)
      && (!stopped ==>
            && logicalOffset == |events|
            && (forall key :: key in seen <==> HasKey(events, key))
            && (scanned > 0 ==> |rows| < maximum && scanned < ENUMERATE_SCAN_PAGE_LIMIT))
    }

    constructor (cutoff: int, start: nat, maximum: nat, predicate_: Option<R -> bool>)
      ensures Valid() && absorbed == [] && !stopped && scanned == 0
      ensures this.cutoff == cutoff && this.start == start && this.maximum == maximum && this.predicate_ == predicate_
    {
      this.cutoff, this.start, this.maximum, this.predicate_ := cutoff, start, maximum, predicate_;
      seen, rows, logicalOffset, scanned, complete, stopped, absorbed := {}, [], 0, 0, true, false, [];
      new;
      WalkStarts(Matches(), EventNodes(Events()), 0, maximum, ENUMERATE_SCAN_PAGE_LIMIT);
    }

    lemma StepInside(record: LogRecord<R>)
      requires Scanned() && |rows| < maximum && scanned < ENUMERATE_SCAN_PAGE_LIMIT
      requires start <= |Events()| && record.timestamp >= cutoff && !HasKey(Events(), record.key)
      ensures var more := LogicalEvents(cutoff, absorbed + [record]);
        && more == Events() + [record]
        && Walked(Matches(), EventNodes(more), start, |more|, maximum, ENUMERATE_SCAN_PAGE_LIMIT,
                  rows + (if Matches()(record.row) then [record.row] else []))
    {
      LogicalEventsStep(cutoff, absorbed, record);
      var events, more := Events(), LogicalEvents(cutoff, absorbed + [record]);
      WalkExtends(Matches(), EventNodes(events), EventNodes(more), start, |events|, maximum, ENUMERATE_SCAN_PAGE_LIMIT,
                  rows);
      WalkGoesOn(Matches(), EventNodes(more), start, |events|, maximum, ENUMERATE_SCAN_PAGE_LIMIT, rows);
    }

    method Absorb(record: LogRecord<R>)
      requires Valid()
      modifies this
      ensures Valid()
      ensures old(stopped) ==> absorbed == old(absorbed) && stopped && rows == old(rows) && scanned == old(scanned)
      ensures !stopped ==> absorbed == old(absorbed) + [record]
      ensures old(absorbed) <= absorbed <= old(absorbed) + [record]
    {
      hide LogicalEvents, Walked, HasKey, ScanEnd, Filtered, EventNodes;
      if stopped || record.timestamp < cutoff {
        if !stopped {
          LogicalEventsStep(cutoff, absorbed, record);
          absorbed := absorbed + [record];
        }
        return;
      }
      LogicalEventsStep(cutoff, absorbed, record);
      if record.key in seen {
        absorbed := absorbed + [record];
        return;
      }
      seen := seen + {record.key};
      ghost var before := Events();
      KeysGrow(before, record);
      if logicalOffset < start {
        NothingScanned(Matches(), EventNodes(before), |before|, maximum, ENUMERATE_SCAN_PAGE_LIMIT, rows);
        logicalOffset := logicalOffset + 1;
        absorbed := absorbed + [record];
        WalkStarts(Matches(), EventNodes(Events()), |Events()|, maximum, ENUMERATE_SCAN_PAGE_LIMIT);
        return;
      }
      WalkedRows(Matches(), EventNodes(before), start, |before|, maximum, ENUMERATE_SCAN_PAGE_LIMIT, rows);
      if scanned >= ENUMERATE_SCAN_PAGE_LIMIT || |rows| >= maximum {
        complete, stopped := false, true;
        return;
      }
      StepInside(record);
      logicalOffset := logicalOffset + 1;
      scanned := scanned + 1;
      assert rows + [] == rows;
      if predicate_.None? || predicate_.value(record.row) {
        rows := rows + [record.row];
      }
      absorbed := absorbed + [record];
      if scanned >= ENUMERATE_SCAN_PAGE_LIMIT || |rows| >= maximum {
        complete, stopped := false, true;
      }
    }
  }

  lemma NothingScanned<R>(matches: R -> bool, nodes: seq<Option<R>>, first: nat, limit: nat, budget: nat, rows: seq<R>)
    requires Walked(matches, nodes, first, first, limit, budget, rows)
    ensures rows == []
  {
  }

  lemma KeysGrow<R>(events: seq<LogRecord<R>>, record: LogRecord<R>)
    ensures forall key :: HasKey(events + [record], key) <==> HasKey(events, key) || key == record.key
  {
    forall key
      ensures HasKey(events + [record], key) <==> HasKey(events, key) || key == record.key
    {
      if HasKey(events, key) {
        var i :| 0 <= i < |events| && events[i].key == key;
        assert (events + [record])[i].key == key;
      }
      assert (events + [record])[|events|].key == record.key;
    }
  }

  /** More source behind a scan that still has room leaves it where it is. */
  lemma WalkExtends<R>(matches: R -> bool, nodes: seq<Option<R>>, more: seq<Option<R>>, first: nat, at: nat, limit: nat,
                       budget: nat, rows: seq<R>)
    requires Walked(matches, nodes, first, at, limit, budget, rows) && nodes <= more && at == |nodes|
    ensures Walked(matches, more, first, at, limit, budget, rows)
  {
    WalkStops(matches, nodes, first, at, limit, budget, rows);
    ScanEndExtends(matches, nodes, more, first, limit, budget);
    assert more[first..at] == nodes[first..at] == nodes[first..];
  }

  lemma {:induction false} ScanEndExtends<R>(matches: R -> bool, nodes: seq<Option<R>>, more: seq<Option<R>>,
                                             first: nat, limit: nat, budget: nat)
    requires nodes <= more && first <= |nodes|
    requires ScanEnd(matches, nodes, first, limit, budget) == |nodes|
    ensures var left := |Filtered(matches, nodes[first..])|;
      left <= limit && |nodes| - first <= budget
      && ScanEnd(matches, more, first, limit, budget)
         == ScanEnd(matches, more, |nodes|, limit - left, budget - (|nodes| - first))
    decreases |nodes| - first
  {
    if first < |nodes| && limit > 0 && budget > 0 {
      assert more[first] == nodes[first];
      ScanEndExtends(matches, nodes, more, first + 1, if Hits(matches, nodes[first]) then limit - 1
                     else limit, budget - 1);
      assert nodes[first..] == [nodes[first]] + nodes[first + 1..];
    } else {
      assert nodes[first..] == [];
    }
  }

  // ---- Driving the page ----

  /** What a page of the log scan is when nothing was skipped and no deadline passed. */
  ghost predicate LogPage<R>(matches: R -> bool, events: seq<LogRecord<R>>, start: nat, maximum: nat,
                             page: Collected<R>) {
    var first := First(start, |events|);
    var end := ScanEnd(matches, EventNodes(events), first, maximum, ENUMERATE_SCAN_PAGE_LIMIT);
    && IsOffsetPage(matches, EventNodes(events), start, maximum, page)
    && (page.complete <==> end == |events| && (end > first ==>
                                               |page.rows| < maximum && page.scannedCount < ENUMERATE_SCAN_PAGE_LIMIT))
  }

  /** Even a partial page is a slice of the logical source at its own offset. */
  ghost predicate SliceOfEvents<R>(matches: R -> bool, events: seq<LogRecord<R>>, start: nat, page: Collected<R>) {
    && page.nextOffset == start + page.scannedCount && page.scannedCount <= ENUMERATE_SCAN_PAGE_LIMIT
    && page.matchedCount == |page.rows| && page.upperBound == None
    && (page.scannedCount == 0 ==> page.rows == [])
    && (page.scannedCount > 0 ==>
          page.nextOffset <= |events| && page.rows == Filtered(matches, EventNodes(events)[start..page.nextOffset]))
  }

  lemma FinishedPage<R(!new)>(builder: LogPageBuilder<R>, all: seq<LogRecord<R>>, page: Collected<R>)
    requires builder.Valid() && builder.absorbed <= all
    requires page == Collected(builder.rows, page.partial, builder.scanned, |builder.rows|,
                               builder.start + builder.scanned, None, page.complete)
    ensures var events := LogicalEvents(builder.cutoff, all);
      SliceOfEvents(builder.Matches(), events, builder.start, page)
    ensures var events := LogicalEvents(builder.cutoff, all);
      (builder.absorbed == all || builder.stopped) && page.complete == builder.complete && builder.maximum >= 1 ==>
        LogPage(builder.Matches(), events, builder.start, builder.maximum, page)
  {
    hide LogicalEvents, Walked, HasKey, ScanEnd;
    var matches, start, maximum, scanned := builder.Matches(), builder.start, builder.maximum, builder.scanned;
    var events, more := builder.Events(), LogicalEvents(builder.cutoff, all);
    var first := First(start, |events|);
    LogicalEventsExtend(builder.cutoff, builder.absorbed, all);
    WalkExtends(matches, EventNodes(events), EventNodes(more), first, |events|, maximum, ENUMERATE_SCAN_PAGE_LIMIT,
                builder.rows);
    WalkedRows(matches, EventNodes(more), first, |events|, maximum, ENUMERATE_SCAN_PAGE_LIMIT, builder.rows);
    if builder.stopped || events == more {
      WalkStops(matches, EventNodes(more), first, |events|, maximum, ENUMERATE_SCAN_PAGE_LIMIT, builder.rows);
    }
  }

  lemma {:induction false} FileRecordsExtend<R>(files: seq<LogFile<R>>, i: nat)
    requires i <= |files|
    ensures FileRecords(files[..i]) <= FileRecords(files)
    decreases |files|
  {
    if i < |files| {
      FileRecordsExtend(files[..|files| - 1], i);
      assert files[..|files| - 1][..i] == files[..i];
    } else {
      assert files[..i] == files;
    }
  }

  lemma NoFileRecords<R>(files: seq<LogFile<R>>)
    ensures FileRecords(files[..0]) == []
  {
  }

  lemma FileRecordsNext<R>(files: seq<LogFile<R>>, i: nat)
    requires i < |files|
    ensures FileRecords(files[..i + 1]) == FileRecords(files[..i])
      + (if files[i].unreadable then [] else Parsed(files[i].lines))
  {
    assert files[..i + 1][..i] == files[..i];
  }

  lemma ParsedNext<R>(lines: seq<Option<LogRecord<R>>>, i: nat)
    requires i < |lines|
    ensures Parsed(lines[..i + 1]) == Parsed(lines[..i]) + (if lines[i].Some? then [lines[i].value] else [])
  {
    assert lines[..i + 1][..i] == lines[..i];
  }

  lemma {:induction false} ParsedExtend<R>(lines: seq<Option<LogRecord<R>>>, i: nat)
    requires i <= |lines|
    ensures Parsed(lines[..i]) <= Parsed(lines)
    decreases |lines|
  {
    if i < |lines| {
      ParsedExtend(lines[..|lines| - 1], i);
      assert lines[..|lines| - 1][..i] == lines[..i];
    } else {
      assert lines[..i] == lines;
    }
  }

  method AbsorbLines<R(!new)>(builder: LogPageBuilder<R>, lines: seq<Option<LogRecord<R>>>,
                              ghost before: seq<LogRecord<R>>) returns (skips: bool)
    requires builder.Valid() && !builder.stopped && builder.absorbed == before
    modifies builder
    ensures builder.Valid() && builder.absorbed <= before + Parsed(lines)
    ensures !builder.stopped ==> builder.absorbed == before + Parsed(lines)
    ensures skips ==> exists i :: 0 <= i < |lines| && lines[i].None?
    ensures !builder.stopped ==> (skips <==> exists i :: 0 <= i < |lines| && lines[i].None?)
  {
    hide LogicalEvents, Walked, HasKey, ScanEnd, Filtered, EventNodes;
    skips := false;
    assert Parsed(lines[..0]) == [];
    for i := 0 to |lines|
      invariant builder.Valid() && !builder.stopped && builder.absorbed == before + Parsed(lines[..i])
      invariant skips <==> exists k :: 0 <= k < i && lines[k].None?
    {
      ParsedNext(lines, i);
      ParsedExtend(lines, i + 1);
      match lines[i] {
        case None => skips := true;
        case Some(record) =>
          assert before + Parsed(lines[..i]) + [record] == before + Parsed(lines[..i + 1]);
          builder.Absorb(record);
          if builder.stopped {
            return;
          }
      }
    }
    assert lines[..|lines|] == lines;
  }

  method AbsorbJournal<R(!new)>(builder: LogPageBuilder<R>, records: seq<LogRecord<R>>)
    requires builder.Valid() && !builder.stopped && builder.absorbed == []
    modifies builder
    ensures builder.Valid() && builder.absorbed <= records
    ensures !builder.stopped ==> builder.absorbed == records
  {
    for i := 0 to |records|
      invariant builder.Valid() && !builder.stopped && builder.absorbed == records[..i]
    {
      assert records[..i] + [records[i]] == records[..i + 1];
      builder.Absorb(records[i]);
      if builder.stopped {
        return;
      }
    }
    assert records[..|records|] == records;
  }

  lemma FlawOf<R>(file: LogFile<R>)
    ensures IsFlawed(file) <==> file.expired || file.unreadable || file.clipped || file.cutShort || exists i ::
      0 <= i < |file.lines| && file.lines[i].None?
  {
  }

  method AbsorbFiles<R(!new)>(builder: LogPageBuilder<R>, files: seq<LogFile<R>>, ghost before: seq<LogRecord<R>>)
    returns (skips: bool, expired: bool)
    requires builder.Valid() && !builder.stopped && builder.absorbed == before
    modifies builder
    ensures builder.Valid() && builder.absorbed <= before + FileRecords(files)
    ensures !expired && !builder.stopped ==> builder.absorbed == before + FileRecords(files)
    ensures skips || expired ==> exists i :: 0 <= i < |files| && IsFlawed(files[i])
    ensures !builder.stopped ==> (skips || expired <==> exists i :: 0 <= i < |files| && IsFlawed(files[i]))
  {
    hide *;
    skips, expired := false, false;
    NoFileRecords(files);
    assert before + [] == before;
    for i := 0 to |files|
      invariant builder.Valid() && !builder.stopped && !expired
      invariant builder.absorbed == before + FileRecords(files[..i])
      invariant skips <==> exists k :: 0 <= k < i && IsFlawed(files[k])
    {
      FileRecordsExtend(files, i);
      FlawOf(files[i]);
      if files[i].expired {
        expired := true;
        return;
      }
      FileRecordsNext(files, i);
      FileRecordsExtend(files, i + 1);
      if files[i].unreadable {
        skips := true;
        assert FileRecords(files[..i]) + [] == FileRecords(files[..i]);
      } else {
        assert before + FileRecords(files[..i]) + Parsed(files[i].lines) == before + FileRecords(files[..i + 1]);
        var bad := AbsorbLines(builder, files[i].lines, before + FileRecords(files[..i]));
        skips := skips || bad || files[i].clipped;
        if builder.stopped {
          return;
        }
        if files[i].cutShort {
          expired := true;
          return;
        }
      }
    }
    assert files[..|files|] == files;
  }

  method LogEventInventory<R(!new)>(cutoff: int, journal: Option<Journal<R>>, listFlawed: bool, files: seq<LogFile<R>>,
                                    predicate_: Option<R -> bool>, start: nat, maximum: nat)
    returns (page: Collected<R>)
    requires 1 <= maximum <= 500
    ensures SliceOfEvents(Wanted(predicate_), LogicalEvents(cutoff, AllRecords(journal, files)), start, page)
    ensures !page.partial ==> LogPage(Wanted(predicate_), LogicalEvents(cutoff, AllRecords(journal, files)), start,
                                      maximum, page)
    ensures page.partial ==> SourcesFlawed(journal, listFlawed, files)
    ensures page.complete && SourcesFlawed(journal, listFlawed, files) ==> page.partial
  {
    hide LogicalEvents, LogPage, SliceOfEvents, FileRecords, IsFlawed;
    var builder := new LogPageBuilder(cutoff, start, maximum, predicate_);
    var skips, expired := false, false;
    ghost var records := if journal.Some? then journal.value.records else [];
    if journal.Some? {
      skips := journal.value.flawed;
      AbsorbJournal(builder, journal.value.records);
    }
    if !builder.stopped {
      var bad: bool;
      bad, expired := AbsorbFiles(builder, files, records);
      skips := skips || listFlawed || bad;
    }
    if journal.None? && files == [] {
      skips := true;
    }
    assert AllRecords(journal, files) == records + FileRecords(files);
    var complete := if expired then builder.scanned == 0 else builder.complete;
    page := Collected(builder.rows, skips || expired, builder.scanned, |builder.rows|, start + builder.scanned, None,
                      complete);
    FinishedPage(builder, AllRecords(journal, files), page);
  }
}
