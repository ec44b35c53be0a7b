/**
  Actions over a quiet host: the pages of each offset collector refine one scan of its source, and the
  action that drains them ends with the whole filtered source, or at the page limit.
*/
module QuietActions {
  import opened Wrappers
  import opened Ordering
  import opened OffsetScan
  import opened Protocol
  import opened Cursor
  import opened Drain
  import opened Enumerate
  import opened Collection
  import opened CleanActions
  import ArrayScan
  import FileScan
  import LogScan

  // ---- Exactly when an action over a quiet host ends clean ----

  /** The pages of a quiet source: clean, exact, and always moving. */
  ghost predicate Steady<R>(matches: R -> bool, nodes: seq<Option<R>>, limit: nat, pageAt: nat -> Collected<R>) {
    forall offset: nat | offset <= |nodes| ::
      var page := pageAt(offset);
      && IsOffsetPage(matches, nodes, offset, limit, page)
      && !page.partial && (!page.complete ==> page.scannedCount > 0)
  }

  /** The clean pages of the collectors do move: no page both continues and stays where it is. */
  lemma CollectorPagesMove<R>(matches: R -> bool, nodes: seq<Option<R>>, start: nat, limit: nat, page: Collected<R>)
    requires IsOffsetPage(matches, nodes, start, limit, page) && start <= |nodes| && limit >= 1
    requires start + page.scannedCount < |nodes| || |page.rows| == limit
    ensures page.scannedCount > 0
  {
    WhereAPageStops(matches, nodes, start, limit, ENUMERATE_SCAN_PAGE_LIMIT);
    assert nodes[start..start] == [];
  }

  lemma FilePagesMove<R>(matches: R -> bool, walk: seq<FileScan.Directory<R>>, start: nat, limit: nat,
                         page: Collected<R>)
    requires FileScan.FilePage(matches, walk, start, limit, page) && limit >= 1
    requires !page.partial && !page.complete && start <= |FileScan.AllFiles(FileScan.BeforeDeadline(walk))|
    ensures page.scannedCount > 0
  {
    hide Filtered, ScanEnd;
    var nodes := FileScan.Nodes(FileScan.AllFiles(FileScan.BeforeDeadline(walk)));
    WhereAPageStops(matches, nodes, start, limit, ENUMERATE_SCAN_PAGE_LIMIT);
    CollectorPagesMove(matches, nodes, start, limit, page);
  }

  lemma LogPagesMove<R>(matches: R -> bool, events: seq<LogScan.LogRecord<R>>, start: nat, limit: nat,
                        page: Collected<R>)
    requires LogScan.LogPage(matches, events, start, limit, page) && limit >= 1 && !page.complete && start <= |events|
    ensures page.scannedCount > 0
  {
    hide Filtered, ScanEnd;
    if start + page.scannedCount < |events| {
      CollectorPagesMove(matches, LogScan.EventNodes(events), start, limit, page);
    }
  }

  /** How many pages it takes from an offset on. */
  ghost function PagesFrom<R>(matches: R -> bool, nodes: seq<Option<R>>, limit: nat, pageAt: nat -> Collected<R>,
                              offset: nat): (pages: nat)
    requires Steady(matches, nodes, limit, pageAt) && offset <= |nodes|
    ensures pages >= 1
    decreases |nodes| - offset
  {
    var page := pageAt(offset);
    if page.complete then 1 else 1 + PagesFrom(matches, nodes, limit, pageAt, page.nextOffset)
  }

  ghost function RowsFrom<R>(matches: R -> bool, nodes: seq<Option<R>>, limit: nat, pageAt: nat -> Collected<R>,
                             offset: nat): seq<R>
    requires Steady(matches, nodes, limit, pageAt) && offset <= |nodes|
    decreases |nodes| - offset
  {
    var page := pageAt(offset);
    page.rows + (if page.complete then [] else RowsFrom(matches, nodes, limit, pageAt, page.nextOffset))
  }

  ghost function ScannedFrom<R>(matches: R -> bool, nodes: seq<Option<R>>, limit: nat, pageAt: nat -> Collected<R>,
                                offset: nat): nat
    requires Steady(matches, nodes, limit, pageAt) && offset <= |nodes|
    decreases |nodes| - offset
  {
    var page := pageAt(offset);
    page.scannedCount + (if page.complete then 0 else ScannedFrom(matches, nodes, limit, pageAt, page.nextOffset))
  }

  /** Offset paging refines one scan: the pages concatenate to the filtered source and visit every node once. */
  lemma {:induction false} PagesRefineOneScan<R>(matches: R -> bool, nodes: seq<Option<R>>, limit: nat,
                                                 pageAt: nat -> Collected<R>, offset: nat)
    requires Steady(matches, nodes, limit, pageAt) && offset <= |nodes|
    ensures RowsFrom(matches, nodes, limit, pageAt, offset) == Filtered(matches, nodes[offset..])
    ensures ScannedFrom(matches, nodes, limit, pageAt, offset) == |nodes| - offset
    decreases |nodes| - offset
  {
    hide Filtered, ScanEnd;
    var page := pageAt(offset);
    if page.complete {
      assert nodes[offset..|nodes|] == nodes[offset..];
      assert page.rows + [] == page.rows;
    } else {
      PagesRefineOneScan(matches, nodes, limit, pageAt, page.nextOffset);
      FilteredAppend(matches, nodes[offset..page.nextOffset], nodes[page.nextOffset..]);
      assert nodes[offset..page.nextOffset] + nodes[page.nextOffset..] == nodes[offset..];
    }
  }

  /** The reply of a quiet host. */
  function QuietReply<R>(codec: Codec, request: Request, generation: string, pageAt: nat -> Collected<R>,
                         cursor: Option<string>): Response<R> {
    match CursorStart(codec, request.namespace, WithCursor(request.params, cursor), request.epoch, generation,
                      request.toleratesChange)
    case Err(_) => Failure("cursor refused")
    case Ok(start) => Finish(codec, request, start, pageAt(start.offset), generation, generation)
  }

  function Quiet<R>(codec: Codec, request: Request, generation: string, pageAt: nat -> Collected<R>): Tool<R> {
    (page: nat, cursor: Option<string>) => ToolDetails(QuietReply(codec, request, generation, pageAt, cursor))
  }

  /** The helper takes a cursor back up to a length and an offset. */
  ghost predicate CursorFits(codec: Codec, request: Request, offset: nat, generation: string) {
    |TokenAt(codec, request, offset, generation)| <= MAX_CURSOR_LENGTH && offset <= MAX_CURSOR_OFFSET
  }

  /** The helper takes back every cursor that the pages from an offset on issue. */
  ghost predicate CursorsFit<R>(codec: Codec, request: Request, matches: R -> bool, nodes: seq<Option<R>>,
                                generation: string, pageAt: nat -> Collected<R>, offset: nat)
    requires Steady(matches, nodes, request.limit, pageAt) && offset <= |nodes|
    decreases |nodes| - offset
  {
    var page := pageAt(offset);
    page.complete || (&& CursorFits(codec, request, page.nextOffset, generation)
                      && CursorsFit(codec, request, matches, nodes, generation, pageAt, page.nextOffset))
  }

  /** The cursor of a page: none for the first, and otherwise the one issued for its offset. */
  ghost predicate At(codec: Codec, request: Request, page: nat, cursor: Option<string>, offset: nat,
                     generation: string) {
    if page == 0 then cursor == None && offset == 0 else cursor == Some(TokenAt(codec, request, offset, generation))
  }

  lemma QuietRefusal<R>(codec: Codec, request: Request, generation: string, pageAt: nat -> Collected<R>, page: nat,
                        offset: nat)
    requires Faithful(codec) && !CursorFits(codec, request, offset, generation)
    ensures Quiet(codec, request, generation, pageAt)(page, Some(TokenAt(codec, request, offset, generation))).Threw?
  {
    hide TokenAt, Finish;
    IssuedCursorRestores(codec, request, offset, generation, generation);
  }

  lemma QuietStep<R>(codec: Codec, request: Request, matches: R -> bool, nodes: seq<Option<R>>, generation: string,
                     pageAt: nat -> Collected<R>, page: nat, cursor: Option<string>, offset: nat)
    requires Faithful(codec) && Steady(matches, nodes, request.limit, pageAt) && offset <= |nodes|
    requires At(codec, request, page, cursor, offset, generation)
    requires (page > 0 ==> CursorFits(codec, request, offset, generation))
    ensures var details, found := Quiet(codec, request, generation, pageAt)(page, cursor), pageAt(offset);
      && details.Details? && !IsIncompleteRemotePage(details) && details.rows == found.rows
      && Given(details.cursorRef) == (if found.complete then None
                                      else Some(TokenAt(codec, request, found.nextOffset, generation)))
      && (!found.complete ==> offset < found.nextOffset) && found.nextOffset <= |nodes|
  {
    hide IsIncompleteRemotePage, Filtered, ScanEnd;
    var found := pageAt(offset);
    var start := Start(offset, false, None);
    if page > 0 {
      IssuedCursorRestores(codec, request, offset, generation, generation);
    } else {
      BindingIgnoresCursor(codec, request, None);
    }
    OffsetPageIsOnePage(matches, nodes, offset, request.limit, found);
    RepliesParse(codec, request, start, found, generation, generation);
    CleanPageIff(codec, request, start, found, generation, generation);
    IssuedCursorIsGiven(codec, request, found.nextOffset, generation);
  }

  lemma {:induction false} QuietFromHere<R>(codec: Codec, request: Request, matches: R -> bool, nodes: seq<Option<R>>,
                                            generation: string, pageAt: nat -> Collected<R>, page: nat,
                                            cursor: Option<string>, offset: nat, rows: seq<R>)
    requires Faithful(codec) && Steady(matches, nodes, request.limit, pageAt) && page < ACTION_MAX_PAGES
    requires offset <= |nodes|
    requires At(codec, request, page, cursor, offset, generation)
    requires (page > 0 ==> CursorFits(codec, request, offset, generation))
    ensures var outcome := DrainFrom(Quiet(codec, request, generation, pageAt), true, page, cursor, false, rows);
      && outcome.Finished?
      && (outcome.partial <==> || page + PagesFrom(matches, nodes, request.limit, pageAt, offset) > ACTION_MAX_PAGES
                               || !CursorsFit(codec, request, matches, nodes, generation, pageAt, offset))
      && (!outcome.partial ==> outcome.rows == rows + RowsFrom(matches, nodes, request.limit, pageAt, offset))
    decreases ACTION_MAX_PAGES - page
  {
    hide IsIncompleteRemotePage, TokenAt, Quiet, Faithful, DrainFrom, CursorFits, IsOffsetPage;
    var quiet, found := Quiet(codec, request, generation, pageAt), pageAt(offset);
    QuietStep(codec, request, matches, nodes, generation, pageAt, page, cursor, offset);
    CleanPageGoesOn(quiet, page, cursor, rows);
    if found.complete {
      assert found.rows + [] == found.rows;
    } else if page < ACTION_MAX_PAGES - 1 {
      var next := Some(TokenAt(codec, request, found.nextOffset, generation));
      if CursorFits(codec, request, found.nextOffset, generation) {
        QuietFromHere(codec, request, matches, nodes, generation, pageAt, page + 1, next, found.nextOffset,
                      rows + found.rows);
        var rest := RowsFrom(matches, nodes, request.limit, pageAt, found.nextOffset);
        assert rows + (found.rows + rest) == rows + found.rows + rest;
      } else {
        QuietRefusal(codec, request, generation, pageAt, page + 1, found.nextOffset);
        RefusedPageCutsShort(quiet, page + 1, next, rows + found.rows);
      }
    }
  }

  /** The pages suffice, and every cursor between them is taken back. */
  ghost predicate InReach<R>(codec: Codec, request: Request, matches: R -> bool, nodes: seq<Option<R>>,
                             generation: string, pageAt: nat -> Collected<R>)
    requires Steady(matches, nodes, request.limit, pageAt)
  {
    && PagesFrom(matches, nodes, request.limit, pageAt, 0) <= ACTION_MAX_PAGES
    && CursorsFit(codec, request, matches, nodes, generation, pageAt, 0)
  }

  /** The end of an action over a quiet source: everything when it is in reach, and PARTIAL exactly when it is not. */
  ghost predicate EndsWithEverything<R>(tool: Tool<R>, matches: R -> bool, nodes: seq<Option<R>>, inReach: bool) {
    var outcome := DrainFrom(tool, true, 0, None, false, []);
    outcome.Finished? && if inReach then outcome == Finished(false, Filtered(matches, nodes)) else outcome.partial
  }

  /**
    Over a quiet source the action ends SUCCEEDED with everything, or PARTIAL: beyond 100 pages, or where
    an issued cursor is longer or stands further on than the helper takes back.
  */
  lemma QuietActionEnds<R>(codec: Codec, request: Request, matches: R -> bool, nodes: seq<Option<R>>,
                           generation: string, pageAt: nat -> Collected<R>)
    requires Faithful(codec) && Steady(matches, nodes, request.limit, pageAt)
    ensures EndsWithEverything(Quiet(codec, request, generation, pageAt), matches, nodes,
                               InReach(codec, request, matches, nodes, generation, pageAt))
  {
    hide DrainFrom, PagesFrom, RowsFrom, CursorsFit, Steady, Faithful, Filtered;
    QuietFromHere(codec, request, matches, nodes, generation, pageAt, 0, None, 0, []);
    PagesRefineOneScan(matches, nodes, request.limit, pageAt, 0);
    assert nodes[0..] == nodes && [] + Filtered(matches, nodes) == Filtered(matches, nodes);
  }

  /** A quiet host is one of the hosts `SucceededMeansExact` speaks of. */
  lemma QuietRepliesAreReplies<R(!new)>(codec: Codec, request: Request, matches: R -> bool, nodes: seq<Option<R>>,
                                        generation: string, pageAt: nat -> Collected<R>)
    requires 1 <= request.limit <= 500
    requires forall offset: nat :: IsOffsetPage(matches, nodes, offset, request.limit, pageAt(offset))
    ensures var worlds := (page: nat) => World(nodes, generation, generation);
      && GenerationTells(worlds)
      && HelperReplies(codec, request, matches, worlds,
                       (page: nat, cursor: Option<string>) => QuietReply(codec, request, generation, pageAt, cursor))
  {
    hide IsOffsetPage;
    var world := World(nodes, generation, generation);
    forall cursor: Option<string>
      ensures IsReply(codec, request, matches, world, cursor, QuietReply(codec, request, generation, pageAt, cursor))
    {
      var begin := CursorStart(codec, request.namespace, WithCursor(request.params, cursor), request.epoch, generation,
                               request.toleratesChange);
      if begin.Ok? {
        assert IsOffsetPage(matches, nodes, begin.value.offset, request.limit, pageAt(begin.value.offset));
      }
    }
  }

  // ---- The pages of the three collectors ----

  /** The clean page of a scan; collectors differ in when they call a page that reached the end complete. */
  function ExactPage<R>(matches: R -> bool, nodes: seq<Option<R>>, start: nat, limit: nat,
                        finished: (nat, nat) -> bool): Collected<R> {
    var first := First(start, |nodes|);
    var end := ScanEnd(matches, nodes, first, limit, ENUMERATE_SCAN_PAGE_LIMIT);
    var rows := Filtered(matches, nodes[first..end]);
    Collected(rows, false, end - first, |rows|, start + (end - first), None,
              end == |nodes| && finished(end - first, |rows|))
  }

  lemma ExactPageIsAnOffsetPage<R>(matches: R -> bool, nodes: seq<Option<R>>, start: nat, limit: nat,
                                   finished: (nat, nat) -> bool)
    ensures IsOffsetPage(matches, nodes, start, limit, ExactPage(matches, nodes, start, limit, finished))
  {
  }

  /** A collector whose page at the end is complete unless it stopped on a node there gives steady pages. */
  lemma ExactPageIsSteady<R>(matches: R -> bool, nodes: seq<Option<R>>, limit: nat, finished: (nat, nat) -> bool,
                             offset: nat)
    requires limit >= 1 && finished(0, 0) && offset <= |nodes|
    ensures var page := ExactPage(matches, nodes, offset, limit, finished);
      IsOffsetPage(matches, nodes, offset, limit, page) && !page.partial && (!page.complete ==> page.scannedCount > 0)
  {
    WhereAPageStops(matches, nodes, offset, limit, ENUMERATE_SCAN_PAGE_LIMIT);
    assert nodes[|nodes|..|nodes|] == [];
  }

  lemma ExactPagesAreSteady<R>(matches: R -> bool, nodes: seq<Option<R>>, limit: nat, finished: (nat, nat) -> bool)
    requires limit >= 1 && finished(0, 0)
    ensures Steady(matches, nodes, limit, (offset: nat) => ExactPage(matches, nodes, offset, limit, finished))
  {
    hide ExactPage, IsOffsetPage;
    forall offset: nat | offset <= |nodes|
      ensures var page := ExactPage(matches, nodes, offset, limit, finished);
        IsOffsetPage(matches, nodes, offset, limit, page) && !page.partial && (!page.complete ==> page.scannedCount > 0)
    {
      ExactPageIsSteady(matches, nodes, limit, finished, offset);
    }
  }

  function Always(): (nat, nat) -> bool {
    (scanned: nat, found: nat) => true
  }

  function UnlessFull(limit: nat): (nat, nat) -> bool {
    (scanned: nat, found: nat) => found < limit
  }

  function UnlessStopped(limit: nat): (nat, nat) -> bool {
    (scanned: nat, found: nat) => scanned > 0 ==> found < limit && scanned < ENUMERATE_SCAN_PAGE_LIMIT
  }

  lemma ListingPagesAreExact(rows: seq<Fields>, predicate_: Option<Fields -> bool>, offset: nat, limit: nat,
                             page: Collected<Fields>)
    requires limit >= 1 && ListingPage(rows, predicate_, false, offset, limit, page)
    ensures page == ExactPage(Wanted(predicate_), ArrayScan.RowNodes(rows), offset, limit, Always())
  {
    hide Filtered, ScanEnd;
  }

  /** Nothing in the walk is skipped, unreadable or cut off. */
  ghost predicate Flawless<R>(walk: seq<FileScan.Directory<R>>) {
    forall i :: 0 <= i < |walk| ==> !walk[i].expired && !walk[i].skipped && forall file ::
      file in walk[i].files ==> !file.Unreadable?
  }

  lemma {:induction false} FlawlessFiles<R>(walk: seq<FileScan.Directory<R>>)
    requires Flawless(walk)
    ensures FileScan.BeforeDeadline(walk) == walk
    ensures forall file :: file in FileScan.AllFiles(walk) ==> !file.Unreadable?
  {
    if walk != [] {
      forall i | 0 <= i < |walk[1..]|
        ensures !walk[1..][i].expired && !walk[1..][i].skipped && forall file ::
          file in walk[1..][i].files ==> !file.Unreadable?
      {
        assert walk[1..][i] == walk[i + 1];
      }
      FlawlessFiles(walk[1..]);
    }
  }

  lemma WalkPagesAreExact<R>(walk: seq<FileScan.Directory<R>>, predicate_: Option<R -> bool>, offset: nat, limit: nat,
                             page: Collected<R>)
    requires Flawless(walk) && limit >= 1 && WalkPage(true, walk, predicate_, offset, limit, page)
    ensures page == ExactPage(Wanted(predicate_), FileScan.Nodes(FileScan.AllFiles(walk)), offset, limit,
                              UnlessFull(limit))
  {
    hide Filtered, ScanEnd, FileScan.AllFiles, FileScan.BeforeDeadline;
    FlawlessFiles(walk);
    var files := FileScan.AllFiles(walk);
    assert forall i :: 0 <= i < |files| ==> files[i] in files;
    assert !FileScan.Expires(walk) && !FileScan.Skips(walk);
  }

  lemma EventPagesAreExact<R>(events: seq<LogScan.LogRecord<R>>, predicate_: Option<R -> bool>, offset: nat, limit: nat,
                              page: Collected<R>)
    requires limit >= 1 && EventPage(events, false, predicate_, offset, limit, page)
    ensures page == ExactPage(Wanted(predicate_), LogScan.EventNodes(events), offset, limit, UnlessStopped(limit))
  {
    hide Filtered, ScanEnd;
  }

  // ---- The three collectors, drained ----

  lemma RepliesAreQuiet<R(!new)>(codec: Codec, request: Request, generation: string, cursor: Option<string>,
                                 reply: Response<R>, pageAt: nat -> Collected<R>, isPage: (nat, Collected<R>) -> bool)
    requires 1 <= request.limit <= 500 && forall offset: nat, page :: isPage(offset, page) ==> page == pageAt(offset)
    requires MadeFrom(codec, request, cursor, generation, generation, reply, isPage)
    ensures ToolDetails(reply) == ToolDetails(QuietReply(codec, request, generation, pageAt, cursor))
  {
    hide Finish;
    var begin := CursorStart(codec, request.namespace, WithCursor(request.params, cursor), request.epoch, generation,
                             request.toleratesChange);
    if begin.Ok? {
      var page :| isPage(begin.value.offset, page) && reply
        == Finish(codec, request, begin.value, page, generation, generation);
      assert page == pageAt(begin.value.offset);
    }
  }

  lemma QuietCollectorEnds<R(!new)>(codec: Codec, request: Request, matches: R -> bool, nodes: seq<Option<R>>,
                                    generation: string, pageAt: nat -> Collected<R>,
                                    isPage: (nat, Collected<R>) -> bool, replies: (nat, Option<string>) -> Response<R>)
    requires Faithful(codec) && 1 <= request.limit <= 500
    requires Steady(matches, nodes, request.limit, pageAt) && forall offset: nat, page ::
      isPage(offset, page) ==> page == pageAt(offset)
    requires forall page: nat, cursor :: MadeFrom(codec, request, cursor, generation, generation, replies(page, cursor),
                                                  isPage)
    ensures EndsWithEverything(Remote(replies), matches, nodes,
                               InReach(codec, request, matches, nodes, generation, pageAt))
  {
    hide Steady, InReach, MadeFrom;
    var quiet := Quiet(codec, request, generation, pageAt);
    forall page: nat, cursor: Option<string>
      ensures Remote(replies)(page, cursor) == quiet(page, cursor)
    {
      RepliesAreQuiet(codec, request, generation, cursor, replies(page, cursor), pageAt, isPage);
    }
    SameToolDrainsTheSame(Remote(replies), quiet, true, 0, None, false, []);
    QuietActionEnds(codec, request, matches, nodes, generation, pageAt);
  }

  // ---- The three collectors ----

  /** The pages of a quiet collector suffice, and every cursor between them is taken back. */
  ghost predicate CollectorInReach<R>(codec: Codec, request: Request, matches: R -> bool, nodes: seq<Option<R>>,
                                      generation: string, finished: (nat, nat) -> bool)
    requires request.limit >= 1 && finished(0, 0)
  {
    ExactPagesAreSteady(matches, nodes, request.limit, finished);
    InReach(codec, request, matches, nodes, generation,
            (offset: nat) => ExactPage(matches, nodes, offset, request.limit, finished))
  }

  lemma ListingPagesAreSteady(rows: seq<Fields>, predicate_: Option<Fields -> bool>, limit: nat,
                              pageAt: nat -> Collected<Fields>)
    requires limit >= 1 && forall offset: nat :: offset <= |ArrayScan.RowNodes(rows)| ==>
      ListingPage(rows, predicate_, false, offset, limit, pageAt(offset))
    ensures Steady(Wanted(predicate_), ArrayScan.RowNodes(rows), limit, pageAt)
  {
    hide IsOffsetPage, ExactPage;
    var matches, nodes := Wanted(predicate_), ArrayScan.RowNodes(rows);
    forall offset: nat | offset <= |nodes|
      ensures IsOffsetPage(matches, nodes, offset, limit, pageAt(offset)) && !pageAt(offset).partial
      ensures !pageAt(offset).complete ==> pageAt(offset).scannedCount > 0
    {
      ExactPageIsSteady(matches, nodes, limit, Always(), offset);
      ListingPagesAreExact(rows, predicate_, offset, limit, pageAt(offset));
    }
  }

  lemma QuietListingEnds(codec: Codec, request: Request, rows: seq<Fields>, predicate_: Option<Fields -> bool>,
                         generation: string,
                          replies: (nat, Option<string>) -> Response<Fields>)
    requires Faithful(codec) && 1 <= request.limit <= 500
    requires forall page: nat, cursor :: MadeFrom(codec, request, cursor, generation, generation, replies(page, cursor),
               (offset: nat, found: Collected<Fields>) =>
                 ListingPage(rows, predicate_, false, offset, request.limit, found))
    ensures EndsWithEverything(Remote(replies), Wanted(predicate_), ArrayScan.RowNodes(rows),
                               CollectorInReach(codec, request, Wanted(predicate_), ArrayScan.RowNodes(rows),
                                                generation, Always()))
  {
    hide MadeFrom, IsOffsetPage, ExactPage, Steady, InReach, EndsWithEverything;
    var matches, nodes := Wanted(predicate_), ArrayScan.RowNodes(rows);
    var pageAt := (offset: nat) => ExactPage(matches, nodes, offset, request.limit, Always());
    var isPage := (offset: nat, found: Collected<Fields>) =>
      ListingPage(rows, predicate_, false, offset, request.limit, found);
    ExactPagesAreSteady(matches, nodes, request.limit, Always());
    forall offset: nat, found: Collected<Fields> | isPage(offset, found)
      ensures found == pageAt(offset)
    {
      ListingPagesAreExact(rows, predicate_, offset, request.limit, found);
    }
    QuietCollectorEnds(codec, request, matches, nodes, generation, pageAt, isPage, replies);
  }

  lemma WalkPagesAreSteady<R>(walk: seq<FileScan.Directory<R>>, predicate_: Option<R -> bool>, limit: nat,
                              pageAt: nat -> Collected<R>)
    requires Flawless(walk) && limit >= 1 && forall offset: nat ::
      offset <= |FileScan.Nodes(FileScan.AllFiles(walk))| ==>
        WalkPage(true, walk, predicate_, offset, limit, pageAt(offset))
    ensures Steady(Wanted(predicate_), FileScan.Nodes(FileScan.AllFiles(walk)), limit, pageAt)
  {
    hide IsOffsetPage, ExactPage;
    var matches, nodes := Wanted(predicate_), FileScan.Nodes(FileScan.AllFiles(walk));
    forall offset: nat | offset <= |nodes|
      ensures IsOffsetPage(matches, nodes, offset, limit, pageAt(offset)) && !pageAt(offset).partial
      ensures !pageAt(offset).complete ==> pageAt(offset).scannedCount > 0
    {
      ExactPageIsSteady(matches, nodes, limit, UnlessFull(limit), offset);
      WalkPagesAreExact(walk, predicate_, offset, limit, pageAt(offset));
    }
  }

  lemma QuietWalkEnds<R(!new)>(codec: Codec, request: Request, walk: seq<FileScan.Directory<R>>,
                               predicate_: Option<R -> bool>, generation: string,
                          replies: (nat, Option<string>) -> Response<R>)
    requires Faithful(codec) && Flawless(walk) && 1 <= request.limit <= 500
    requires forall page: nat, cursor :: MadeFrom(codec, request, cursor, generation, generation, replies(page, cursor),
               (offset: nat, found: Collected<R>) => WalkPage(true, walk, predicate_, offset, request.limit, found))
    ensures EndsWithEverything(Remote(replies), Wanted(predicate_), FileScan.Nodes(FileScan.AllFiles(walk)),
                               CollectorInReach(codec, request, Wanted(predicate_),
                                                FileScan.Nodes(FileScan.AllFiles(walk)), generation,
                                                  UnlessFull(request.limit)))
  {
    hide MadeFrom, IsOffsetPage, ExactPage, Steady, InReach, EndsWithEverything;
    var matches, nodes := Wanted(predicate_), FileScan.Nodes(FileScan.AllFiles(walk));
    var pageAt := (offset: nat) => ExactPage(matches, nodes, offset, request.limit, UnlessFull(request.limit));
    var isPage := (offset: nat, found: Collected<R>) => WalkPage(true, walk, predicate_, offset, request.limit, found);
    ExactPagesAreSteady(matches, nodes, request.limit, UnlessFull(request.limit));
    forall offset: nat, found: Collected<R> | isPage(offset, found)
      ensures found == pageAt(offset)
    {
      WalkPagesAreExact(walk, predicate_, offset, request.limit, found);
    }
    QuietCollectorEnds(codec, request, matches, nodes, generation, pageAt, isPage, replies);
  }

  lemma EventsPagesAreSteady<R>(events: seq<LogScan.LogRecord<R>>, predicate_: Option<R -> bool>, limit: nat,
                                pageAt: nat -> Collected<R>)
    requires limit >= 1 && forall offset: nat :: offset <= |LogScan.EventNodes(events)| ==>
      EventPage(events, false, predicate_, offset, limit, pageAt(offset))
    ensures Steady(Wanted(predicate_), LogScan.EventNodes(events), limit, pageAt)
  {
    hide IsOffsetPage, ExactPage;
    var matches, nodes := Wanted(predicate_), LogScan.EventNodes(events);
    forall offset: nat | offset <= |nodes|
      ensures IsOffsetPage(matches, nodes, offset, limit, pageAt(offset)) && !pageAt(offset).partial
      ensures !pageAt(offset).complete ==> pageAt(offset).scannedCount > 0
    {
      ExactPageIsSteady(matches, nodes, limit, UnlessStopped(limit), offset);
      EventPagesAreExact(events, predicate_, offset, limit, pageAt(offset));
    }
  }

  lemma QuietEventsEnds<R(!new)>(codec: Codec, request: Request, events: seq<LogScan.LogRecord<R>>,
                                 predicate_: Option<R -> bool>, generation: string,
                          replies: (nat, Option<string>) -> Response<R>)
    requires Faithful(codec) && 1 <= request.limit <= 500
    requires forall page: nat, cursor :: MadeFrom(codec, request, cursor, generation, generation, replies(page, cursor),
               (offset: nat, found: Collected<R>) => EventPage(events, false, predicate_, offset, request.limit, found))
    ensures EndsWithEverything(Remote(replies), Wanted(predicate_), LogScan.EventNodes(events),
                               CollectorInReach(codec, request, Wanted(predicate_), LogScan.EventNodes(events),
                                                generation, UnlessStopped(request.limit)))
  {
    hide MadeFrom, IsOffsetPage, ExactPage, Steady, InReach, EndsWithEverything;
    var matches, nodes := Wanted(predicate_), LogScan.EventNodes(events);
    var pageAt := (offset: nat) => ExactPage(matches, nodes, offset, request.limit, UnlessStopped(request.limit));
    var isPage := (offset: nat, found: Collected<R>) =>
      EventPage(events, false, predicate_, offset, request.limit, found);
    ExactPagesAreSteady(matches, nodes, request.limit, UnlessStopped(request.limit));
    forall offset: nat, found: Collected<R> | isPage(offset, found)
      ensures found == pageAt(offset)
    {
      EventPagesAreExact(events, predicate_, offset, request.limit, found);
    }
    QuietCollectorEnds(codec, request, matches, nodes, generation, pageAt, isPage, replies);
  }
}
