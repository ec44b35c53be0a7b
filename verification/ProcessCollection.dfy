/**
  End to end for processes: the host may start and stop processes freely between the pages of one
  action, and the keyset cursor still loses nobody who was there throughout.
*/
module ProcessCollection {
  import opened Wrappers
  import opened OffsetScan
  import opened Protocol
  import opened Cursor
  import opened Enumerate
  import opened Drain
  import opened ProcessScan
  import opened Collection

  datatype Moment<!R> = Moment(host: Host<R>, before: string, after: string)

  /** The bound a cursor carries, if it is one the helper accepts. */
  function CursorBound(start: Start): Result<Option<nat>, CursorError> {
    match start.upperBound
    case None => Ok(None)
    case Some(bound) => if start.offset <= bound <= MAX_CURSOR_OFFSET then Ok(Some(bound)) else Err(InvalidArgument)
  }

  ghost predicate IsKeysetReply<R(!new)>(codec: Codec, request: Request, matches: ProcessRow<R> -> bool,
                                         moment: Moment<R>, cursor: Option<string>, reply: Response<ProcessRow<R>>) {
    if !(1 <= request.limit <= 500) then reply.Failure?
    else
      match CursorStart(codec, request.namespace, WithCursor(request.params, cursor), request.epoch, moment.before,
                        request.toleratesChange)
      case Err(_) => reply.Failure?
      case Ok(start) =>
        match CursorBound(start)
        case Err(_) => reply.Failure?
        case Ok(bound) =>
          exists page: Collected<ProcessRow<R>> ::
            && ProcessPage(moment.host, matches, start.offset, request.limit, bound, page)
            && reply == Finish(codec, request, start, page, moment.before, moment.after)
  }

  lemma {:induction false} RowsAreFewer<R>(host: Host<R>, matches: ProcessRow<R> -> bool, entries: seq<nat>)
    ensures |Rows(host, matches, entries)| <= |entries|
  {
    if entries != [] {
      RowsAreFewer(host, matches, entries[..|entries| - 1]);
    }
  }

  lemma {:induction false} HighestIsListed(pids: seq<nat>, default: nat)
    ensures Highest(pids, default) in pids || Highest(pids, default) == default
  {
    if |pids| > 1 {
      HighestIsListed(pids[1..], default);
    }
  }

  /** A keyset page that starts at the beginning, or under an issued bound, passes the wire contract. */
  lemma KeysetRepliesParse<R>(codec: Codec, request: Request, matches: ProcessRow<R> -> bool, host: Host<R>,
                              start: Start, bound: Option<nat>, page: Collected<ProcessRow<R>>, before: string,
                              after: string)
    requires DistinctPids(host.listing) && forall p :: p in host.listing ==> p <= MAX_CURSOR_OFFSET
    requires start.offset <= MAX_CURSOR_OFFSET && CursorBound(start) == Ok(bound) && (bound.None? ==> start.offset == 0)
    requires ProcessPage(host, matches, start.offset, request.limit, bound, page)
    ensures ParsesOnTheWire(Finish(codec, request, start, page, before, after))
  {
    hide Rows, Entries, Highest;
    PageSweepsItsRange(host, matches, start.offset, request.limit, bound, page);
    RowsAreFewer(host, matches, Entries(host.listing, start.offset, page.upperBound.value)[..page.scannedCount]);
    HighestIsListed(host.listing, start.offset);
    RepliesParse(codec, request, start, page, before, after);
  }

  method EnumerateProcesses<R(!new)>(codec: Codec, request: Request, cursor: Option<string>, host: Host<R>,
                                     predicate_: Option<ProcessRow<R> -> bool>, before: string, after: string)
    returns (reply: Response<ProcessRow<R>>)
    ensures IsKeysetReply(codec, request, Wanted(predicate_), Moment(host, before, after), cursor, reply)
  {
    hide ProcessPage, Finish;
    if !(1 <= request.limit <= 500) {
      return Failure("invalid limit");
    }
    var begin := CursorStart(codec, request.namespace, WithCursor(request.params, cursor), request.epoch, before,
                             request.toleratesChange);
    if begin.Err? {
      return Failure("cursor refused");
    }
    var bound := CursorBound(begin.value);
    if bound.Err? {
      return Failure("invalid process cursor upper bound");
    }
    var page := ProcessInventory(host, predicate_, begin.value.offset, request.limit, bound.value);
    reply := Finish(codec, request, begin.value, page, before, after);
  }

  // ---- A process action that ends clean ----

  ghost predicate KeysetReplies<R(!new)>(codec: Codec, request: Request, matches: ProcessRow<R> -> bool,
                                         moments: nat -> Moment<R>,
                                         replies: (nat, Option<string>) -> Response<ProcessRow<R>>) {
    && request.keyset
    && (forall page :: DistinctPids(moments(page).host.listing))
    && (forall page, cursor :: IsKeysetReply(codec, request, matches, moments(page), cursor, replies(page, cursor)))
  }

  function KeysetToken(codec: Codec, request: Request, offset: nat, generation: string, bound: nat): string {
    EncodeCursor(codec, request.namespace, offset, Binding(codec, request.params, request.epoch), generation,
                 Some(bound))
  }

  lemma KeysetCursorRestores(codec: Codec, request: Request, offset: nat, generation: string, bound: nat, now: string)
    requires Faithful(codec)
    ensures var begin := CursorStart(codec, request.namespace,
                                     WithCursor(request.params,
                                                Some(KeysetToken(codec, request, offset, generation, bound))),
                                     request.epoch, now, request.toleratesChange);
      && (begin.Ok? ==> begin.value == Start(offset, generation != now, Some(bound)))
      && (begin.Ok? <==> && |KeysetToken(codec, request, offset, generation, bound)| <= MAX_CURSOR_LENGTH
                         && offset <= MAX_CURSOR_OFFSET && (generation == now || request.toleratesChange))
  {
    var token := KeysetToken(codec, request, offset, generation, bound);
    BindingIgnoresCursor(codec, request, Some(token));
    IssuedTokenDecodes(codec, request.namespace, offset, Binding(codec, request.params, request.epoch), generation,
                       Some(bound));
    KeysetCursorIsGiven(codec, request, offset, generation, bound);
  }

  lemma KeysetCursorIsGiven(codec: Codec, request: Request, offset: nat, generation: string, bound: nat)
    requires Faithful(codec)
    ensures var token := Some(KeysetToken(codec, request, offset, generation, bound));
      Given(token) == token
  {
    hide EncodeCursor;
    IssuedTokenIsNotEmpty(codec, request.namespace, offset, Binding(codec, request.params, request.epoch), generation,
                          Some(bound));
  }

  lemma CleanKeysetReply<R(!new)>(codec: Codec, request: Request, matches: ProcessRow<R> -> bool, moment: Moment<R>,
                                  cursor: Option<string>, reply: Response<ProcessRow<R>>)
    returns (start: Start, bound: Option<nat>, page: Collected<ProcessRow<R>>)
    requires Faithful(codec) && IsKeysetReply(codec, request, matches, moment, cursor, reply) && request.keyset
    requires ToolDetails(reply).Details? && !IsIncompleteRemotePage(ToolDetails(reply))
    ensures 1 <= request.limit
    ensures CursorStart(codec, request.namespace, WithCursor(request.params, cursor), request.epoch, moment.before,
                        request.toleratesChange) == Ok(start)
    ensures CursorBound(start) == Ok(bound)
    ensures ProcessPage(moment.host, matches, start.offset, request.limit, bound, page) && !page.partial
    ensures ToolDetails(reply).rows == page.rows
    ensures Given(ToolDetails(reply).cursorRef) == ToolDetails(reply).cursorRef ==
      if page.complete then None
         else Some(KeysetToken(codec, request, page.nextOffset, moment.after, page.upperBound.value))
  {
    hide ProcessPage;
    start := CursorStart(codec, request.namespace, WithCursor(request.params, cursor), request.epoch, moment.before,
                         request.toleratesChange).value;
    bound := CursorBound(start).value;
    page :| ProcessPage(moment.host, matches, start.offset, request.limit, bound, page)
            && reply == Finish(codec, request, start, page, moment.before, moment.after);
    assert page.upperBound.Some? by { BoundIsKnown(moment.host, matches, start.offset, request.limit, bound, page); }
    KeysetCursorIsGiven(codec, request, page.nextOffset, moment.after, page.upperBound.value);
    CleanPageIff(codec, request, start, page, moment.before, moment.after);
  }

  lemma BoundIsKnown<R>(host: Host<R>, matches: ProcessRow<R> -> bool, startAfter: nat, maximum: nat,
                        bound: Option<nat>, page: Collected<ProcessRow<R>>)
    requires ProcessPage(host, matches, startAfter, maximum, bound, page)
    ensures page.upperBound.Some?
  {
  }

  /** Where the walk stands before page number `page`. */
  ghost predicate At(codec: Codec, request: Request, page: nat, cursor: Option<string>, offset: nat, bound: Option<nat>,
                     generation: string) {
    if page == 0 then cursor == None && offset == 0 && bound == None
    else bound.Some? && cursor == Some(KeysetToken(codec, request, offset, generation, bound.value))
  }

  lemma KeysetStep<R(!new)>(codec: Codec, request: Request, matches: ProcessRow<R> -> bool, moments: nat -> Moment<R>,
                            replies: (nat, Option<string>) -> Response<ProcessRow<R>>,
                            page: nat, cursor: Option<string>, offset: nat, bound: Option<nat>, generation: string)
    returns (found: Collected<ProcessRow<R>>)
    requires Faithful(codec) && KeysetReplies(codec, request, matches, moments, replies)
    requires At(codec, request, page, cursor, offset, bound, generation)
    requires Remote(replies)(page, cursor).Details? && !IsIncompleteRemotePage(Remote(replies)(page, cursor))
    ensures DistinctPids(moments(page).host.listing)
    ensures ProcessPage(moments(page).host, matches, offset, request.limit, bound, found)
    ensures var details := Remote(replies)(page, cursor);
      && details.rows == found.rows
      && Given(details.cursorRef) == details.cursorRef && (details.cursorRef.None? <==> found.complete)
      && (details.cursorRef.Some? ==> At(codec, request, page + 1, details.cursorRef, found.nextOffset,
                                         found.upperBound, moments(page).after))
  {
    hide Faithful, KeysetToken, IsIncompleteRemotePage, ProcessPage, ToolDetails, IsKeysetReply, DistinctPids;
    assert IsKeysetReply(codec, request, matches, moments(page), cursor, replies(page, cursor));
    var start, known;
    start, known, found := CleanKeysetReply(codec, request, matches, moments(page), cursor, replies(page, cursor));
    if page > 0 {
      KeysetCursorRestores(codec, request, offset, generation, bound.value, moments(page).before);
    } else {
      BindingIgnoresCursor(codec, request, None);
    }
    BoundIsKnown(moments(page).host, matches, start.offset, request.limit, known, found);
  }

  lemma WalkOfOne<R>(matches: ProcessRow<R> -> bool, maximum: nat, startAfter: nat, bound: Option<nat>, visit: Visit<R>)
    requires DistinctPids(visit.host.listing)
    requires ProcessPage(visit.host, matches, startAfter, maximum, bound, visit.page)
    ensures IsWalk(matches, maximum, startAfter, bound, [visit]) && Returned([visit]) == visit.page.rows
  {
    assert [visit][1..] == [] && visit.page.rows + [] == visit.page.rows;
  }

  lemma WalkOfMore<R>(matches: ProcessRow<R> -> bool, maximum: nat, startAfter: nat, bound: Option<nat>,
                      visit: Visit<R>, rest: seq<Visit<R>>)
    requires DistinctPids(visit.host.listing)
    requires ProcessPage(visit.host, matches, startAfter, maximum, bound, visit.page)
    requires !visit.page.complete && IsWalk(matches, maximum, visit.page.nextOffset, visit.page.upperBound, rest)
    ensures IsWalk(matches, maximum, startAfter, bound, [visit] + rest)
    ensures Returned([visit] + rest) == visit.page.rows + Returned(rest)
  {
    assert ([visit] + rest)[1..] == rest;
  }

  /** Page after page, the walk saw the host as it was then. */
  ghost predicate HostsFrom<R>(walk: seq<Visit<R>>, moments: nat -> Moment<R>, page: nat) {
    forall i {:trigger walk[i]} :: 0 <= i < |walk| ==> walk[i].host == moments(page + i).host
  }

  /** The pages a clean action went through form a finished walk. */
  lemma {:induction false} CleanWalkFromHere<R(!new)>(codec: Codec, request: Request, matches: ProcessRow<R> -> bool,
                                                      moments: nat -> Moment<R>,
                                                      replies: (nat, Option<string>) -> Response<ProcessRow<R>>,
                                                      page: nat, cursor: Option<string>, offset: nat,
                                                      bound: Option<nat>, generation: string, rows: seq<ProcessRow<R>>)
    returns (walk: seq<Visit<R>>)
    requires Faithful(codec) && KeysetReplies(codec, request, matches, moments, replies)
    requires page < ACTION_MAX_PAGES && At(codec, request, page, cursor, offset, bound, generation)
    requires DrainFrom(Remote(replies), true, page, cursor, false, rows).Finished?
    requires !DrainFrom(Remote(replies), true, page, cursor, false, rows).partial
    ensures walk != [] && walk[|walk| - 1].page.complete
    ensures IsWalk(matches, request.limit, offset, bound, walk)
    ensures HostsFrom(walk, moments, page)
    ensures DrainFrom(Remote(replies), true, page, cursor, false, rows).rows == rows + Returned(walk)
    decreases ACTION_MAX_PAGES - page
  {
    hide Faithful, KeysetReplies, At, IsIncompleteRemotePage, ProcessPage, Remote, DistinctPids, IsWalk, Returned,
      DrainFrom;
    var details := Remote(replies)(page, cursor);
    CleanSoFar(Remote(replies), page, cursor, rows);
    var found := KeysetStep(codec, request, matches, moments, replies, page, cursor, offset, bound, generation);
    var visit := Visit(moments(page).host, found);
    if found.complete {
      walk := [visit];
      WalkOfOne(matches, request.limit, offset, bound, visit);
    } else {
      var rest := CleanWalkFromHere(codec, request, matches, moments, replies, page + 1, details.cursorRef,
                                    found.nextOffset, found.upperBound, moments(page).after, rows + details.rows);
      walk := [visit] + rest;
      WalkOfMore(matches, request.limit, offset, bound, visit, rest);
      assert rows + (found.rows + Returned(rest)) == rows + found.rows + Returned(rest);
    }
  }

  lemma StartsAtTheBeginning(codec: Codec, request: Request)
    ensures At(codec, request, 0, None, 0, None, "")
  {
  }

  /** A finished walk over the host as it was, page by page. */
  ghost predicate FinishedWalk<R>(matches: ProcessRow<R> -> bool, maximum: nat, moments: nat -> Moment<R>,
                                  walk: seq<Visit<R>>) {
    && walk != [] && walk[|walk| - 1].page.complete && IsWalk(matches, maximum, 0, None, walk)
    && HostsFrom(walk, moments, 0)
  }

  lemma CleanActionIsAWalk<R(!new)>(codec: Codec, request: Request, matches: ProcessRow<R> -> bool,
                                    moments: nat -> Moment<R>,
                                    replies: (nat, Option<string>) -> Response<ProcessRow<R>>, rows: seq<ProcessRow<R>>)
    returns (walk: seq<Visit<R>>)
    requires DrainFrom(Remote(replies), true, 0, None, false, []) == Finished(false, rows)
    requires Faithful(codec) && KeysetReplies(codec, request, matches, moments, replies)
    ensures FinishedWalk(matches, request.limit, moments, walk) && rows == Returned(walk)
  {
    hide DrainFrom, Remote, IsWalk, Returned, At, Faithful, KeysetReplies, HostsFrom;
    StartsAtTheBeginning(codec, request);
    walk := CleanWalkFromHere(codec, request, matches, moments, replies, 0, None, 0, None, "", []);
    assert [] + Returned(walk) == Returned(walk);
  }

  lemma SteadyOnTheWalk<R>(matches: ProcessRow<R> -> bool, maximum: nat, moments: nat -> Moment<R>, walk: seq<Visit<R>>,
                           p: nat)
    requires FinishedWalk(matches, maximum, moments, walk)
    requires p > 0 && forall i :: p in moments(i).host.listing && Wants(matches, p, moments(i).host.read(p))
    ensures exists i :: 0 <= i < |Returned(walk)| && Returned(walk)[i].pid == p
    ensures forall i, j :: 0 <= i < j < |Returned(walk)| ==> Returned(walk)[i].pid < Returned(walk)[j].pid
  {
    hide IsWalk, Returned;
    SteadyProcessesAreReturnedOnce(matches, maximum, walk, p);
  }

  lemma FirstBoundIsKnown<R>(matches: ProcessRow<R> -> bool, maximum: nat, walk: seq<Visit<R>>)
    requires IsWalk(matches, maximum, 0, None, walk) && walk != []
    ensures walk[0].page.upperBound.Some?
  {
  }

  /**
    A process action that ends SUCCEEDED returned, in strictly ascending PID order, exactly the rows
    that the page passing each process read and wanted: nobody whom its page found, could read and
    wanted is missing, and nobody else is there.
  */
  lemma SucceededProcessActionIsItsPages<R(!new)>(codec: Codec, request: Request, matches: ProcessRow<R> -> bool,
                                                  moments: nat -> Moment<R>,
                                                  replies: (nat, Option<string>) -> Response<ProcessRow<R>>,
                                                  rows: seq<ProcessRow<R>>)
    returns (walk: seq<Visit<R>>)
    requires DrainFrom(Remote(replies), true, 0, None, false, []) == Finished(false, rows)
    requires Faithful(codec) && KeysetReplies(codec, request, matches, moments, replies)
    ensures FinishedWalk(matches, request.limit, moments, walk) && rows == Returned(walk)
    ensures forall row :: row in rows <==> exists k :: 0 <= k < |walk| && ReturnedBy(matches, 0, walk, k, row)
    ensures forall i, j :: 0 <= i < j < |rows| ==> rows[i].pid < rows[j].pid
  {
    hide DrainFrom, Remote, KeysetReplies, Faithful, IsWalk, Returned, ReturnedBy;
    walk := CleanActionIsAWalk(codec, request, matches, moments, replies, rows);
    forall row
      ensures row in rows <==> exists k :: 0 <= k < |walk| && ReturnedBy(matches, 0, walk, k, row)
    {
      ReturnedIff(matches, request.limit, 0, None, walk, row);
    }
    FirstBoundIsKnown(matches, request.limit, walk);
    ReturnedPidsAscend(matches, request.limit, 0, None, walk, walk[0].page.upperBound.value);
  }

  /**
    A process action that ends SUCCEEDED returned every process that was listed, readable and matching
    throughout, in strictly ascending PID order and so exactly once, however much the process table
    changed between its pages.
  */
  lemma SucceededProcessActionLosesNobody<R(!new)>(codec: Codec, request: Request, matches: ProcessRow<R> -> bool,
                                                   moments: nat -> Moment<R>,
                                                   replies: (nat, Option<string>) -> Response<ProcessRow<R>>,
                                                   rows: seq<ProcessRow<R>>, p: nat)
    requires DrainFrom(Remote(replies), true, 0, None, false, []) == Finished(false, rows)
    requires Faithful(codec) && KeysetReplies(codec, request, matches, moments, replies)
    requires p > 0 && forall i :: p in moments(i).host.listing && Wants(matches, p, moments(i).host.read(p))
    ensures exists i :: 0 <= i < |rows| && rows[i].pid == p
    ensures forall i, j :: 0 <= i < j < |rows| ==> rows[i].pid < rows[j].pid
  {
    hide *;
    var walk := CleanActionIsAWalk(codec, request, matches, moments, replies, rows);
    SteadyOnTheWalk(matches, request.limit, moments, walk, p);
  }

  ghost predicate SameTable<R>(moments: nat -> Moment<R>, table: Host<R>) {
    forall i :: moments(i).host.listing == table.listing && moments(i).host.read == table.read
  }

  /** Over an unchanged process table such an action returned exactly the filtered table. */
  lemma UnchangedTableIsCollected<R(!new)>(codec: Codec, request: Request, matches: ProcessRow<R> -> bool,
                                           moments: nat -> Moment<R>,
                                           replies: (nat, Option<string>) -> Response<ProcessRow<R>>,
                                           rows: seq<ProcessRow<R>>, table: Host<R>)
    requires DrainFrom(Remote(replies), true, 0, None, false, []) == Finished(false, rows)
    requires Faithful(codec) && KeysetReplies(codec, request, matches, moments, replies) && SameTable(moments, table)
    ensures forall row :: row in rows <==> row.pid > 0 && row.pid in table.listing && ReadAs(table, matches, row)
    ensures forall i, j :: 0 <= i < j < |rows| ==> rows[i].pid < rows[j].pid
  {
    hide DrainFrom, Remote, KeysetReplies, Faithful, IsWalk, Returned, ReturnedBy, ReadAs;
    var walk := SucceededProcessActionIsItsPages(codec, request, matches, moments, replies, rows);
    forall row
      ensures row in rows <==> row.pid > 0 && row.pid in table.listing && ReadAs(table, matches, row)
    {
      UnchangedTableIsReturned(matches, request.limit, walk, table, row);
    }
  }

  // ---- A process action that nothing disturbs ----

  /** No read fails, every page has the time it needs, and the generation stays; processes may come and go. */
  ghost predicate Undisturbed<R>(moments: nat -> Moment<R>, generation: string) {
    forall i ::
      && moments(i).before == moments(i).after == generation && moments(i).host.timeFor >= ENUMERATE_SCAN_PAGE_LIMIT
      && NothingFails(moments(i).host)
  }

  ghost predicate NothingFails<R>(host: Host<R>) {
    (forall p :: !host.read(p).Failed?) && (forall p :: p in host.listing ==> p <= MAX_CURSOR_OFFSET)
  }

  lemma UndisturbedPageIsClean<R>(host: Host<R>, matches: ProcessRow<R> -> bool, startAfter: nat, maximum: nat,
                                  bound: Option<nat>, page: Collected<ProcessRow<R>>)
    requires ProcessPage(host, matches, startAfter, maximum, bound, page)
    requires host.timeFor >= ENUMERATE_SCAN_PAGE_LIMIT && NothingFails(host)
    ensures !page.partial
  {
    hide Entries, Rows, Highest;
  }

  /** The helper takes back the cursor a page issues. */
  ghost predicate TakesBack<R>(codec: Codec, request: Request, generation: string, page: Collected<ProcessRow<R>>)
    requires page.upperBound.Some?
  {
    |KeysetToken(codec, request, page.nextOffset, generation, page.upperBound.value)| <= MAX_CURSOR_LENGTH
  }

  /** Where an undisturbed walk may stand: at the beginning, or at a cursor within its bound that is taken back. */
  ghost predicate StandsAt(codec: Codec, request: Request, page: nat, cursor: Option<string>, offset: nat,
                           bound: Option<nat>, generation: string) {
    && At(codec, request, page, cursor, offset, bound, generation)
    && (page > 0 ==> && offset <= bound.value <= MAX_CURSOR_OFFSET
                     && |KeysetToken(codec, request, offset, generation, bound.value)| <= MAX_CURSOR_LENGTH)
  }

  lemma UndisturbedReply<R(!new)>(codec: Codec, request: Request, matches: ProcessRow<R> -> bool,
                                  moments: nat -> Moment<R>, replies: (nat, Option<string>) -> Response<ProcessRow<R>>,
                                  page: nat, cursor: Option<string>, offset: nat, bound: Option<nat>,
                                  generation: string)
    requires Faithful(codec) && KeysetReplies(codec, request, matches, moments, replies)
    requires Undisturbed(moments, generation)
    requires StandsAt(codec, request, page, cursor, offset, bound, generation) && 1 <= request.limit <= 500
    ensures Remote(replies)(page, cursor).Details? && !IsIncompleteRemotePage(Remote(replies)(page, cursor))
  {
    hide KeysetToken, IsIncompleteRemotePage, ProcessPage, Finish, ToolDetails, Faithful, NothingFails, DistinctPids;
    var moment := moments(page);
    assert IsKeysetReply(codec, request, matches, moment, cursor, replies(page, cursor));
    if page > 0 {
      KeysetCursorRestores(codec, request, offset, generation, bound.value, generation);
    } else {
      BindingIgnoresCursor(codec, request, None);
    }
    var start := Start(offset, false, bound);
    assert CursorStart(codec, request.namespace, WithCursor(request.params, cursor), request.epoch, generation,
                       request.toleratesChange)
        == Ok(start);
    var found :| ProcessPage(moment.host, matches, offset, request.limit, bound, found)
                 && replies(page, cursor) == Finish(codec, request, start, found, generation, generation);
    UndisturbedPageIsClean(moment.host, matches, offset, request.limit, bound, found);
    PidsAreSmall(moment.host);
    KeysetRepliesParse(codec, request, matches, moment.host, start, bound, found, generation, generation);
    CleanPageIff(codec, request, start, found, generation, generation);
  }

  lemma PidsAreSmall<R>(host: Host<R>)
    requires NothingFails(host)
    ensures forall p :: p in host.listing ==> p <= MAX_CURSOR_OFFSET
  {
  }

  /**
    How an undisturbed action ends after its pages: clean, at the page limit, or at a cursor that
    is not taken back.
  */
  ghost predicate EndsAsItMust<R>(codec: Codec, request: Request, generation: string, walk: seq<Visit<R>>, pages: nat,
                                  outcome: Drained<ProcessRow<R>>, rows: seq<ProcessRow<R>>) {
    && walk != [] && |walk| <= pages
    && var last := walk[|walk| - 1].page;
    && outcome == Finished(!last.complete, rows + Returned(walk))
    && last.upperBound.Some?
    && (!last.complete ==> |walk| == pages || !TakesBack(codec, request, generation, last))
  }

  lemma LastPage<R>(codec: Codec, request: Request, generation: string, visit: Visit<R>, pages: nat,
                    rows: seq<ProcessRow<R>>)
    requires pages >= 1 && visit.page.upperBound.Some?
    requires visit.page.complete || pages == 1 || !TakesBack(codec, request, generation, visit.page)
    ensures EndsAsItMust(codec, request, generation, [visit], pages,
                         Finished(!visit.page.complete, rows + visit.page.rows), rows)
  {
    assert [visit][1..] == [] && visit.page.rows + [] == visit.page.rows;
  }

  lemma EarlierPage<R>(codec: Codec, request: Request, generation: string, visit: Visit<R>, rest: seq<Visit<R>>,
                       pages: nat, outcome: Drained<ProcessRow<R>>, rows: seq<ProcessRow<R>>)
    requires pages >= 1 && EndsAsItMust(codec, request, generation, rest, pages - 1, outcome, rows + visit.page.rows)
    ensures EndsAsItMust(codec, request, generation, [visit] + rest, pages, outcome, rows)
  {
    hide TakesBack;
    assert ([visit] + rest)[1..] == rest;
    assert rows + (visit.page.rows + Returned(rest)) == rows + visit.page.rows + Returned(rest);
  }

  lemma KeysetRefusal<R(!new)>(codec: Codec, request: Request, matches: ProcessRow<R> -> bool,
                               moments: nat -> Moment<R>, replies: (nat, Option<string>) -> Response<ProcessRow<R>>,
                               page: nat, generation: string, offset: nat, bound: nat)
    requires Faithful(codec) && KeysetReplies(codec, request, matches, moments, replies)
    requires |KeysetToken(codec, request, offset, generation, bound)| > MAX_CURSOR_LENGTH
    ensures Remote(replies)(page, Some(KeysetToken(codec, request, offset, generation, bound))).Threw?
  {
    hide KeysetToken, ProcessPage, Finish;
    var cursor := Some(KeysetToken(codec, request, offset, generation, bound));
    assert IsKeysetReply(codec, request, matches, moments(page), cursor, replies(page, cursor));
    KeysetCursorRestores(codec, request, offset, generation, bound, moments(page).before);
  }

  lemma UndisturbedStep<R(!new)>(codec: Codec, request: Request, matches: ProcessRow<R> -> bool,
                                 moments: nat -> Moment<R>, replies: (nat, Option<string>) -> Response<ProcessRow<R>>,
                                 page: nat, cursor: Option<string>, offset: nat, bound: Option<nat>, generation: string,
                                 rows: seq<ProcessRow<R>>)
    returns (found: Collected<ProcessRow<R>>)
    requires Faithful(codec) && KeysetReplies(codec, request, matches, moments, replies)
    requires Undisturbed(moments, generation)
    requires page < ACTION_MAX_PAGES && 1 <= request.limit <= 500
    requires StandsAt(codec, request, page, cursor, offset, bound, generation)
    ensures DistinctPids(moments(page).host.listing) && found.upperBound.Some?
    ensures ProcessPage(moments(page).host, matches, offset, request.limit, bound, found)
    ensures var next := Some(KeysetToken(codec, request, found.nextOffset, generation, found.upperBound.value));
      && DrainFrom(Remote(replies), true, page, cursor, false, rows)
         == (if found.complete then Finished(false, rows + found.rows)
             else if page == ACTION_MAX_PAGES - 1 then Finished(true, rows + found.rows)
             else DrainFrom(Remote(replies), true, page + 1, next, false, rows + found.rows))
      && (!found.complete && TakesBack(codec, request, generation, found) ==>
            StandsAt(codec, request, page + 1, next, found.nextOffset, found.upperBound, generation))
  {
    hide Faithful, KeysetReplies, KeysetToken, IsIncompleteRemotePage, ProcessPage, DistinctPids, DrainFrom, Remote,
      NothingFails;
    UndisturbedReply(codec, request, matches, moments, replies, page, cursor, offset, bound, generation);
    found := KeysetStep(codec, request, matches, moments, replies, page, cursor, offset, bound, generation);
    BoundIsKnown(moments(page).host, matches, offset, request.limit, bound, found);
    CleanPageGoesOn(Remote(replies), page, cursor, rows);
    if !found.complete {
      UndisturbedBounds(moments(page).host, matches, offset, request.limit, bound, found);
    }
  }

  lemma UndisturbedBounds<R>(host: Host<R>, matches: ProcessRow<R> -> bool, startAfter: nat, maximum: nat,
                             bound: Option<nat>, page: Collected<ProcessRow<R>>)
    requires DistinctPids(host.listing) && NothingFails(host) && startAfter <= MAX_CURSOR_OFFSET
    requires bound.Some? ==> startAfter <= bound.value <= MAX_CURSOR_OFFSET
    requires ProcessPage(host, matches, startAfter, maximum, bound, page) && !page.complete
    ensures page.nextOffset <= page.upperBound.value <= MAX_CURSOR_OFFSET
  {
    hide Rows, Entries, Highest;
    PageSweepsItsRange(host, matches, startAfter, maximum, bound, page);
    HighestIsListed(host.listing, startAfter);
    if bound.None? {
      NothingVisitedMeansComplete(host, matches, startAfter, maximum, page);
    }
  }

  lemma {:induction false} UndisturbedFromHere<R(!new)>(codec: Codec, request: Request, matches: ProcessRow<R> -> bool,
                                                        moments: nat -> Moment<R>,
                                                        replies: (nat, Option<string>) -> Response<ProcessRow<R>>,
                                                        page: nat, cursor: Option<string>, offset: nat,
                                                        bound: Option<nat>, generation: string,
                                                        rows: seq<ProcessRow<R>>)
    returns (walk: seq<Visit<R>>)
    requires Faithful(codec) && KeysetReplies(codec, request, matches, moments, replies)
    requires Undisturbed(moments, generation)
    requires page < ACTION_MAX_PAGES && 1 <= request.limit <= 500
    requires StandsAt(codec, request, page, cursor, offset, bound, generation)
    ensures IsWalk(matches, request.limit, offset, bound, walk) && HostsFrom(walk, moments, page)
    ensures EndsAsItMust(codec, request, generation, walk, ACTION_MAX_PAGES - page,
                         DrainFrom(Remote(replies), true, page, cursor, false, rows), rows)
    decreases ACTION_MAX_PAGES - page
  {
    hide Faithful, KeysetReplies, ProcessPage, Remote, DistinctPids, IsWalk, Undisturbed, StandsAt, KeysetToken,
      DrainFrom, EndsAsItMust;
    var found := UndisturbedStep(codec, request, matches, moments, replies, page, cursor, offset, bound, generation,
                                 rows);
    var visit := Visit(moments(page).host, found);
    var token := KeysetToken(codec, request, found.nextOffset, generation, found.upperBound.value);
    if found.complete || page == ACTION_MAX_PAGES - 1 {
      walk := [visit];
      WalkOfOne(matches, request.limit, offset, bound, visit);
      LastPage(codec, request, generation, visit, ACTION_MAX_PAGES - page, rows);
    } else if |token| > MAX_CURSOR_LENGTH {
      KeysetRefusal(codec, request, matches, moments, replies, page + 1, generation, found.nextOffset,
                    found.upperBound.value);
      RefusedPageCutsShort(Remote(replies), page + 1, Some(token), rows + found.rows);
      walk := [visit];
      WalkOfOne(matches, request.limit, offset, bound, visit);
      LastPage(codec, request, generation, visit, ACTION_MAX_PAGES - page, rows);
    } else {
      var rest := UndisturbedFromHere(codec, request, matches, moments, replies, page + 1, Some(token),
                                      found.nextOffset,
                                      found.upperBound, generation, rows + found.rows);
      walk := [visit] + rest;
      EndsSomewhere(codec, request, generation, rest, ACTION_MAX_PAGES - page - 1,
                    DrainFrom(Remote(replies), true, page + 1, Some(token), false, rows + found.rows),
                      rows + found.rows);
      WalkOfMore(matches, request.limit, offset, bound, visit, rest);
      EarlierPage(codec, request, generation, visit, rest, ACTION_MAX_PAGES - page,
                  DrainFrom(Remote(replies), true, page, cursor, false, rows), rows);
    }
  }

  lemma EndsSomewhere<R>(codec: Codec, request: Request, generation: string, walk: seq<Visit<R>>, pages: nat,
                         outcome: Drained<ProcessRow<R>>, rows: seq<ProcessRow<R>>)
    requires EndsAsItMust(codec, request, generation, walk, pages, outcome, rows)
    ensures walk != []
  {
  }

  /**
    With time on every page and no read failing, a process action ends SUCCEEDED with everything its
    walk returned, or PARTIAL, and then only at the page limit or at a cursor longer than the helper
    takes back, whatever processes come and go.
  */
  lemma UndisturbedProcessActionEnds<R(!new)>(codec: Codec, request: Request, matches: ProcessRow<R> -> bool,
                                              moments: nat -> Moment<R>,
                                              replies: (nat, Option<string>) -> Response<ProcessRow<R>>,
                                              generation: string)
    returns (walk: seq<Visit<R>>)
    requires Faithful(codec) && KeysetReplies(codec, request, matches, moments, replies)
    requires Undisturbed(moments, generation)
    requires 1 <= request.limit <= 500
    ensures IsWalk(matches, request.limit, 0, None, walk) && HostsFrom(walk, moments, 0)
    ensures 1 <= |walk| <= ACTION_MAX_PAGES
    ensures var outcome, last := DrainFrom(Remote(replies), true, 0, None, false, []), walk[|walk| - 1].page;
      && outcome == Finished(!last.complete, Returned(walk)) && last.upperBound.Some?
      && (outcome.partial ==> |walk| == ACTION_MAX_PAGES || !TakesBack(codec, request, generation, last))
  {
    hide Faithful, KeysetReplies, Remote, IsWalk, Undisturbed, KeysetToken, DrainFrom, Returned, TakesBack, HostsFrom;
    walk := UndisturbedFromHere(codec, request, matches, moments, replies, 0, None, 0, None, generation, []);
    assert [] + Returned(walk) == Returned(walk);
  }
}
