/**
  The replies of the enumerate operation over offset-paged sources, and what one of them tells the
  executor when it looks clean. `CleanActions.dfy` and `QuietActions.dfy` follow whole actions.
*/
module Collection {
  import opened Wrappers
  import opened Ordering
  import opened OffsetScan
  import opened Protocol
  import opened Cursor
  import opened Enumerate
  import opened Drain
  import ArrayScan
  import FileScan
  import FileTree
  import LogScan

  /** The host while one page is collected: its logical source and the source generation before and after. */
  datatype World<!R> = World(nodes: seq<Option<R>>, before: string, after: string)

  function WithCursor(params: map<string, string>, cursor: Option<string>): map<string, string> {
    if cursor.Some? then params["cursor" := cursor.value] else params - {"cursor"}
  }

  /** A reply of the enumerate operation over an offset-paged source. */
  ghost predicate IsReply<R(!new)>(codec: Codec, request: Request, matches: R -> bool, world: World<R>,
                                   cursor: Option<string>, reply: Response<R>) {
    if !(1 <= request.limit <= 500) then reply.Failure?
    else
      match CursorStart(codec, request.namespace, WithCursor(request.params, cursor), request.epoch, world.before,
                        request.toleratesChange)
      case Err(_) => reply.Failure?
      case Ok(start) =>
        exists page: Collected<R> ::
          && (page.partial || IsOffsetPage(matches, world.nodes, start.offset, request.limit, page))
          && reply == Finish(codec, request, start, page, world.before, world.after)
  }

  /** A reply made from a page of which `isPage` holds, at the offset the cursor restores. */
  ghost predicate MadeFrom<R(!new)>(codec: Codec, request: Request, cursor: Option<string>, before: string,
                                    after: string, reply: Response<R>, isPage: (nat, Collected<R>) -> bool) {
    if !(1 <= request.limit <= 500) then reply.Failure?
    else
      match CursorStart(codec, request.namespace, WithCursor(request.params, cursor), request.epoch, before,
                        request.toleratesChange)
      case Err(_) => reply.Failure?
      case Ok(start) =>
        exists page :: isPage(start.offset, page) && reply == Finish(codec, request, start, page, before, after)
  }

  // ---- The three offset collectors give such replies ----

  lemma {:induction false} FilteredIsShorter<R>(matches: R -> bool, nodes: seq<Option<R>>)
    ensures |Filtered(matches, nodes)| <= |nodes|
  {
    if nodes != [] {
      FilteredIsShorter(matches, nodes[1..]);
    }
  }

  /** The counts of a page are those of one page. */
  ghost predicate OnePage<R>(start: nat, page: Collected<R>) {
    && page.matchedCount == |page.rows| <= page.scannedCount <= ENUMERATE_SCAN_PAGE_LIMIT
    && page.upperBound == None && page.nextOffset == start + page.scannedCount
  }

  lemma OffsetPageIsOnePage<R>(matches: R -> bool, nodes: seq<Option<R>>, start: nat, limit: nat, page: Collected<R>)
    requires IsOffsetPage(matches, nodes, start, limit, page)
    ensures OnePage(start, page)
    ensures start <= |nodes| ==> page.nextOffset <= |nodes|
  {
    var first := if start <= |nodes| then start else |nodes|;
    FilteredIsShorter(matches, nodes[first..first + page.scannedCount]);
  }

  lemma LogSliceIsOnePage<R>(matches: R -> bool, events: seq<LogScan.LogRecord<R>>, start: nat, page: Collected<R>)
    requires LogScan.SliceOfEvents(matches, events, start, page)
    ensures OnePage(start, page)
  {
    if page.scannedCount > 0 {
      FilteredIsShorter(matches, LogScan.EventNodes(events)[start..page.nextOffset]);
    }
  }

  ghost predicate ListingPage(rows: seq<Fields>, predicate_: Option<Fields -> bool>, partial: bool, offset: nat,
                              limit: nat, page: Collected<Fields>) {
    && IsOffsetPage(Wanted(predicate_), ArrayScan.RowNodes(rows), offset, limit, page)
    && page.partial == partial && page.complete == (page.nextOffset >= |rows|)
  }

  method EnumerateListing(codec: Codec, request: Request, cursor: Option<string>, collected: seq<Fields>,
                          keys: seq<SortKey>, identity: seq<string>, predicate_: Option<Fields -> bool>, partial: bool,
                          before: string, after: string) returns (reply: Response<Fields>)
    ensures IsReply(codec, request, Wanted(predicate_),
                    World(ArrayScan.RowNodes(StableSort(KeyedOrder(keys, identity), collected)), before, after), cursor,
                      reply)
    ensures MadeFrom(codec, request, cursor, before, after, reply, (offset: nat, page: Collected<Fields>) =>
      ListingPage(StableSort(KeyedOrder(keys, identity), collected), predicate_, partial, offset, request.limit, page))
    ensures ParsesOnTheWire(reply)
  {
    hide Filtered, ScanEnd;
    if !(1 <= request.limit <= 500) {
      return Failure("invalid limit");
    }
    var begin := CursorStart(codec, request.namespace, WithCursor(request.params, cursor), request.epoch, before,
                             request.toleratesChange);
    if begin.Err? {
      return Failure("cursor refused");
    }
    var rows := SortRows(collected, keys, identity);
    var page := ArrayScan.PageOfRows(rows, predicate_, partial, begin.value.offset, request.limit);
    OffsetPageIsOnePage(Wanted(predicate_), ArrayScan.RowNodes(rows), begin.value.offset, request.limit, page);
    RepliesParse(codec, request, begin.value, page, before, after);
    reply := Finish(codec, request, begin.value, page, before, after);
  }

  /** A page that stopped for a reason of its own is the same page of any longer source. */
  lemma PageOfLongerSource<R>(matches: R -> bool, nodes: seq<Option<R>>, more: seq<Option<R>>, start: nat, limit: nat,
                              page: Collected<R>)
    requires IsOffsetPage(matches, nodes, start, limit, page) && nodes <= more && start <= |nodes| && !page.complete
    requires start + page.scannedCount < |nodes| || |page.rows| == limit
    ensures IsOffsetPage(matches, more, start, limit, page)
  {
    hide ScanEnd, Filtered;
    StopIsFinal(matches, nodes, more, start, limit, ENUMERATE_SCAN_PAGE_LIMIT);
    var end := start + page.scannedCount;
    assert more[start..end] == nodes[start..end];
  }

  /** A page of the file walk that had nothing to skip is a page of the whole walk. */
  lemma CleanFilePageIsWhole<R>(matches: R -> bool, walk: seq<FileScan.Directory<R>>, start: nat, maximum: nat,
                                page: Collected<R>)
    requires FileScan.FilePage(matches, walk, start, maximum, page) && !page.partial && maximum > 0
    ensures IsOffsetPage(matches, FileScan.Nodes(FileScan.AllFiles(walk)), start, maximum, page)
  {
    hide ScanEnd, Filtered, FileScan.AllFiles, FileScan.BeforeDeadline;
    var reached := FileScan.BeforeDeadline(walk);
    var files, all := FileScan.AllFiles(reached), FileScan.AllFiles(walk);
    FileScan.BeforeDeadlineIsPrefix(walk);
    if !FileScan.Expires(walk) {
      assert reached == walk;
    } else {
      FileScan.AllFilesSplit(walk, |reached|);
      assert FileScan.Nodes(files) <= FileScan.Nodes(all);
      if start > |files| {
        NothingBeyondTheEnd(matches, FileScan.Nodes(files), maximum);
        assert false;
      }
      WhereAPageStops(matches, FileScan.Nodes(files), start, maximum, ENUMERATE_SCAN_PAGE_LIMIT);
      PageOfLongerSource(matches, FileScan.Nodes(files), FileScan.Nodes(all), start, maximum, page);
    }
  }

  lemma NothingBeyondTheEnd<R>(matches: R -> bool, nodes: seq<Option<R>>, limit: nat)
    ensures ScanEnd(matches, nodes, |nodes|, limit, ENUMERATE_SCAN_PAGE_LIMIT) == |nodes|
    ensures Filtered(matches, nodes[|nodes|..|nodes|]) == []
  {
  }

  /** A scan that stopped for a reason of its own stops there however much source follows. */
  lemma {:induction false} StopIsFinal<R>(matches: R -> bool, nodes: seq<Option<R>>, more: seq<Option<R>>, from: nat,
                                          limit: nat, budget: nat)
    requires nodes <= more && from <= |nodes|
    ensures var end := ScanEnd(matches, nodes, from, limit, budget);
      end < |nodes| || |Filtered(matches, nodes[from..end])| == limit ==>
        ScanEnd(matches, more, from, limit, budget) == end
    decreases |nodes| - from
  {
    hide Filtered;
    if from < |nodes| && limit > 0 && budget > 0 {
      assert more[from] == nodes[from];
      StopIsFinal(matches, nodes, more, from + 1, if Hits(matches, nodes[from]) then limit - 1 else limit, budget - 1);
      FilteredFromHead(matches, nodes, from, ScanEnd(matches, nodes, from, limit, budget));
    } else {
      FilteredOfNone(matches, nodes, from);
    }
  }

  lemma FilteredFromHead<R>(matches: R -> bool, nodes: seq<Option<R>>, from: nat, end: nat)
    requires from < end <= |nodes|
    ensures Filtered(matches, nodes[from..end])
      == (if Hits(matches, nodes[from]) then [nodes[from].value] else []) + Filtered(matches, nodes[from + 1..end])
  {
    assert nodes[from..end][1..] == nodes[from + 1..end];
  }

  lemma FilteredOfNone<R>(matches: R -> bool, nodes: seq<Option<R>>, from: nat)
    requires from <= |nodes|
    ensures Filtered(matches, nodes[from..from]) == []
  {
  }

  ghost predicate WalkPage<R>(rootReadable: bool, walk: seq<FileScan.Directory<R>>, predicate_: Option<R -> bool>,
                              offset: nat, limit: nat, page: Collected<R>) {
    if rootReadable then FileScan.FilePage(Wanted(predicate_), walk, offset, limit, page)
    else page == Collected([], true, 0, 0, offset, None, true)
  }

  /** The walk of a page: `listing` is what the system answers while the page is made. */
  method EnumerateFiles<R(!new)>(codec: Codec, request: Request, cursor: Option<string>, rootReadable: bool,
                                 tree: FileTree.Tree<R>, listing: FileTree.Listing, predicate_: Option<R -> bool>,
                                 before: string, after: string)
    returns (reply: Response<R>)
    requires FileTree.TrueListing(tree, listing, [], 0)
    ensures var walk := FileTree.WalkOf(tree, listing, [], 0);
      && IsReply(codec, request, Wanted(predicate_), World(FileScan.Nodes(FileScan.AllFiles(walk)), before, after),
                 cursor, reply)
      && MadeFrom(codec, request, cursor, before, after, reply,
                  (offset: nat, page: Collected<R>) =>
                    WalkPage(rootReadable, walk, predicate_, offset, request.limit, page))
    ensures ParsesOnTheWire(reply)
  {
    var walk := FileTree.WalkOf(tree, listing, [], 0);
    reply := EnumerateWalk(codec, request, cursor, rootReadable, walk, predicate_, before, after);
  }

  method EnumerateWalk<R(!new)>(codec: Codec, request: Request, cursor: Option<string>, rootReadable: bool,
                                walk: seq<FileScan.Directory<R>>, predicate_: Option<R -> bool>, before: string,
                                after: string)
    returns (reply: Response<R>)
    ensures IsReply(codec, request, Wanted(predicate_), World(FileScan.Nodes(FileScan.AllFiles(walk)), before, after),
                    cursor, reply)
    ensures MadeFrom(codec, request, cursor, before, after, reply,
                     (offset: nat, page: Collected<R>) =>
                       WalkPage(rootReadable, walk, predicate_, offset, request.limit, page))
    ensures ParsesOnTheWire(reply)
  {
    hide Filtered, ScanEnd, FileScan.AllFiles, FileScan.BeforeDeadline, FileScan.FilePage, IsOffsetPage;
    if !(1 <= request.limit <= 500) {
      return Failure("invalid limit");
    }
    var begin := CursorStart(codec, request.namespace, WithCursor(request.params, cursor), request.epoch, before,
                             request.toleratesChange);
    if begin.Err? {
      return Failure("cursor refused");
    }
    var page := FileScan.FileInventory(rootReadable, walk, predicate_, begin.value.offset, request.limit);
    WalkPageIsOnePage(rootReadable, walk, predicate_, begin.value.offset, request.limit, page);
    RepliesParse(codec, request, begin.value, page, before, after);
    reply := Finish(codec, request, begin.value, page, before, after);
  }

  lemma WalkPageIsOnePage<R>(rootReadable: bool, walk: seq<FileScan.Directory<R>>, predicate_: Option<R -> bool>,
                             offset: nat, limit: nat, page: Collected<R>)
    requires WalkPage(rootReadable, walk, predicate_, offset, limit, page) && limit > 0
    ensures page.partial || IsOffsetPage(Wanted(predicate_), FileScan.Nodes(FileScan.AllFiles(walk)), offset, limit,
                                         page)
    ensures OnePage(offset, page)
  {
    hide Filtered, ScanEnd;
    if !page.partial {
      CleanFilePageIsWhole(Wanted(predicate_), walk, offset, limit, page);
    }
    if rootReadable {
      OffsetPageIsOnePage(Wanted(predicate_), FileScan.Nodes(FileScan.AllFiles(FileScan.BeforeDeadline(walk))), offset,
                          limit, page);
    }
  }

  ghost predicate EventPage<R>(events: seq<LogScan.LogRecord<R>>, flawed: bool, predicate_: Option<R -> bool>,
                               offset: nat, limit: nat, page: Collected<R>) {
    && LogScan.SliceOfEvents(Wanted(predicate_), events, offset, page)
    && (!page.partial ==> LogScan.LogPage(Wanted(predicate_), events, offset, limit, page))
    && (page.partial ==> flawed) && (page.complete && flawed ==> page.partial)
  }

  method EnumerateLogEvents<R(!new)>(codec: Codec, request: Request, cursor: Option<string>, cutoff: int,
                                     journal: Option<LogScan.Journal<R>>, listFlawed: bool,
                                     files: seq<LogScan.LogFile<R>>, predicate_: Option<R -> bool>, before: string,
                                     after: string) returns (reply: Response<R>)
    ensures IsReply(codec, request, Wanted(predicate_),
                    World(LogScan.EventNodes(LogScan.LogicalEvents(cutoff, LogScan.AllRecords(journal, files))), before,
                          after), cursor, reply)
    ensures MadeFrom(codec, request, cursor, before, after, reply, (offset: nat, page: Collected<R>) =>
      EventPage(LogScan.LogicalEvents(cutoff, LogScan.AllRecords(journal, files)),
                LogScan.SourcesFlawed(journal, listFlawed, files),
                predicate_, offset, request.limit, page))
    ensures ParsesOnTheWire(reply)
  {
    hide Filtered, ScanEnd;
    if !(1 <= request.limit <= 500) {
      return Failure("invalid limit");
    }
    var begin := CursorStart(codec, request.namespace, WithCursor(request.params, cursor), request.epoch, before,
                             request.toleratesChange);
    if begin.Err? {
      return Failure("cursor refused");
    }
    var page := LogScan.LogEventInventory(cutoff, journal, listFlawed, files, predicate_, begin.value.offset,
                                          request.limit);
    LogSliceIsOnePage(Wanted(predicate_), LogScan.LogicalEvents(cutoff, LogScan.AllRecords(journal, files)),
                      begin.value.offset, page);
    RepliesParse(codec, request, begin.value, page, before, after);
    reply := Finish(codec, request, begin.value, page, before, after);
  }

  // ---- An action that ends clean ----

  function Remote<R>(replies: (nat, Option<string>) -> Response<R>): Tool<R> {
    (page: nat, cursor: Option<string>) => ToolDetails(replies(page, cursor))
  }

  function TokenAt(codec: Codec, request: Request, offset: nat, generation: string): string {
    EncodeCursor(codec, request.namespace, offset, Binding(codec, request.params, request.epoch), generation, None)
  }

  lemma BindingIgnoresCursor(codec: Codec, request: Request, cursor: Option<string>)
    ensures Binding(codec, WithCursor(request.params, cursor), request.epoch)
      == Binding(codec, request.params, request.epoch)
    ensures TokenOf(WithCursor(request.params, cursor)) == cursor
  {
    assert Bound(WithCursor(request.params, cursor)) == Bound(request.params);
  }

  /** An issued cursor either is refused or takes the walk up where it stopped. */
  lemma IssuedCursorRestores(codec: Codec, request: Request, offset: nat, generation: string, now: string)
    requires Faithful(codec)
    ensures var begin :=
      CursorStart(codec, request.namespace, WithCursor(request.params,
                                                       Some(TokenAt(codec, request, offset, generation))),
                                     request.epoch, now, request.toleratesChange);
      && (begin.Ok? ==> begin.value == Start(offset, generation != now, None))
      && (begin.Ok? <==>
            && |TokenAt(codec, request, offset, generation)| <= MAX_CURSOR_LENGTH && offset <= MAX_CURSOR_OFFSET
            && (generation == now || request.toleratesChange))
  {
    var token := TokenAt(codec, request, offset, generation);
    BindingIgnoresCursor(codec, request, Some(token));
    IssuedTokenDecodes(codec, request.namespace, offset, Binding(codec, request.params, request.epoch), generation,
                       None);
    IssuedTokenIsNotEmpty(codec, request.namespace, offset, Binding(codec, request.params, request.epoch), generation,
                          None);
  }

  lemma IssuedCursorIsGiven(codec: Codec, request: Request, offset: nat, generation: string)
    requires Faithful(codec)
    ensures Given(Some(TokenAt(codec, request, offset, generation)))
      == Some(TokenAt(codec, request, offset, generation))
  {
    hide EncodeCursor;
    IssuedTokenIsNotEmpty(codec, request.namespace, offset, Binding(codec, request.params, request.epoch), generation,
                          None);
  }

  ghost predicate HelperReplies<R(!new)>(codec: Codec, request: Request, matches: R -> bool, worlds: nat -> World<R>,
                                   replies: (nat, Option<string>) -> Response<R>) {
    forall page, cursor :: IsReply(codec, request, matches, worlds(page), cursor, replies(page, cursor))
  }

  lemma CleanReply<R(!new)>(codec: Codec, request: Request, matches: R -> bool, world: World<R>, cursor: Option<string>,
                            reply: Response<R>)
    returns (start: Start, page: Collected<R>)
    requires Faithful(codec) && IsReply(codec, request, matches, world, cursor, reply)
    requires ToolDetails(reply).Details? && !IsIncompleteRemotePage(ToolDetails(reply))
    ensures 1 <= request.limit <= 500
    ensures CursorStart(codec, request.namespace, WithCursor(request.params, cursor), request.epoch, world.before,
                        request.toleratesChange) == Ok(start)
    ensures IsOffsetPage(matches, world.nodes, start.offset, request.limit, page)
    ensures !start.sourceChanged && (!page.complete ==> world.after == world.before)
    ensures ToolDetails(reply).rows == page.rows
    ensures ToolDetails(reply).cursorRef == if page.complete then None
      else Some(TokenAt(codec, request, page.nextOffset, world.before))
  {
    start := CursorStart(codec, request.namespace, WithCursor(request.params, cursor), request.epoch, world.before,
                         request.toleratesChange).value;
    page :| && (page.partial || IsOffsetPage(matches, world.nodes, start.offset, request.limit, page))
            && reply == Finish(codec, request, start, page, world.before, world.after);
    IssuedCursorIsGiven(codec, request, page.nextOffset, world.before);
    CleanPageIff(codec, request, start, page, world.before, world.after);
  }
}
