/** How the executor drains the pages of one action. */
module Drain {
  import opened Wrappers
  import opened Protocol

  const ACTION_MAX_PAGES: nat := 100

  /** The end of an action: it threw, or it finished with what was collected. */
  datatype Drained<+R> = Failed | Finished(partial: bool, rows: seq<R>)

  /** One tool call: its page number stands for the time at which it runs. */
  type Tool<!R> = (nat, Option<string>) -> Details<R>

  /** What draining comes to from a given page on. */
  function DrainFrom<R>(execute: Tool<R>, paged: bool, page: nat, cursor: Option<string>, partial: bool,
                        rows: seq<R>): Drained<R>
    requires page < ACTION_MAX_PAGES
    decreases ACTION_MAX_PAGES - page, cursor
  {
    var details := execute(page, cursor);
    if details.Unfit? then Failed
    else if details.Threw? then
      if page == 0 then Failed else Finished(true, rows)
    else
      var collected := rows + details.rows;
      var incomplete := partial || IsIncompleteRemotePage(details);
      var next := if paged then Given(details.cursorRef) else None;
      if next.None? then Finished(incomplete, collected)
      else if page == ACTION_MAX_PAGES - 1 then Finished(true, collected)
      else DrainFrom(execute, paged, page + 1, next, incomplete, collected)
  }

  /** The cursor at which draining stops with pages still unread, if it does; its checkpoint is marked as limited. */
  function LeftUnread<R>(execute: Tool<R>, paged: bool, page: nat, cursor: Option<string>): Option<string>
    requires page < ACTION_MAX_PAGES
    decreases ACTION_MAX_PAGES - page
  {
    var details := execute(page, cursor);
    if details.Unfit? then None
    else if details.Threw? then if page == 0 then None else cursor
    else
      var next := if paged then Given(details.cursorRef) else None;
      if next.None? || page == ACTION_MAX_PAGES - 1 then next else LeftUnread(execute, paged, page + 1, next)
  }

  method DrainPages<R>(execute: Tool<R>, paged: bool, firstCursor: Option<string>)
    returns (outcome: Drained<R>, unread: Option<string>)
    ensures outcome == DrainFrom(execute, paged, 0, firstCursor, false, [])
    ensures unread == LeftUnread(execute, paged, 0, firstCursor)
  {
    var partial := false;
    var cursor := firstCursor;
    var rows: seq<R> := [];
    var page := 0;
    while page < ACTION_MAX_PAGES
      invariant page < ACTION_MAX_PAGES
      invariant DrainFrom(execute, paged, page, cursor, partial, rows)
        == DrainFrom(execute, paged, 0, firstCursor, false, [])
      invariant LeftUnread(execute, paged, page, cursor) == LeftUnread(execute, paged, 0, firstCursor)
      decreases ACTION_MAX_PAGES - page
    {
      var details := execute(page, cursor);
      if details.Unfit? {
        return Failed, None;
      }
      if details.Threw? {
        if page == 0 {
          return Failed, None;
        }
        return Finished(true, rows), cursor;
      }
      rows := rows + details.rows;
      partial := partial || IsIncompleteRemotePage(details);
      cursor := if paged then Given(details.cursorRef) else None;
      if cursor.None? {
        break;
      }
      if page == ACTION_MAX_PAGES - 1 {
        partial := true;
        break;
      }
      page := page + 1;
    }
    return Finished(partial, rows), cursor;
  }

  /** Once a page was incomplete the action can no longer end clean. */
  lemma {:induction false} PartialSticks<R>(execute: Tool<R>, paged: bool, page: nat, cursor: Option<string>,
                                            rows: seq<R>)
    requires page < ACTION_MAX_PAGES
    ensures DrainFrom(execute, paged, page, cursor, true, rows).Finished? ==>
      DrainFrom(execute, paged, page, cursor, true, rows).partial
    decreases ACTION_MAX_PAGES - page
  {
    var details := execute(page, cursor);
    if details.Details? && paged && Given(details.cursorRef).Some? && page < ACTION_MAX_PAGES - 1 {
      PartialSticks(execute, paged, page + 1, Given(details.cursorRef), rows + details.rows);
    }
  }

  lemma {:induction false} SameToolDrainsTheSame<R>(some: Tool<R>, other: Tool<R>, paged: bool, page: nat,
                                                    cursor: Option<string>, partial: bool, rows: seq<R>)
    requires page < ACTION_MAX_PAGES && forall p: nat, c: Option<string> :: some(p, c) == other(p, c)
    ensures DrainFrom(some, paged, page, cursor, partial, rows) == DrainFrom(other, paged, page, cursor, partial, rows)
    decreases ACTION_MAX_PAGES - page
  {
    hide IsIncompleteRemotePage;
    var details := some(page, cursor);
    assert details == other(page, cursor);
    if details.Details? && paged && Given(details.cursorRef).Some? && page < ACTION_MAX_PAGES - 1 {
      SameToolDrainsTheSame(some, other, paged, page + 1, Given(details.cursorRef),
                            partial || IsIncompleteRemotePage(details),
                            rows + details.rows);
    }
  }

  /** A complete page either ends the action clean or hands over to the next page, up to the last one. */
  lemma CleanPageGoesOn<R>(execute: Tool<R>, page: nat, cursor: Option<string>, rows: seq<R>)
    requires page < ACTION_MAX_PAGES
    requires execute(page, cursor).Details? && !IsIncompleteRemotePage(execute(page, cursor))
    ensures var details := execute(page, cursor);
      var next, collected := Given(details.cursorRef), rows + details.rows;
      DrainFrom(execute, true, page, cursor, false, rows)
      == if next.None? then Finished(false, collected)
         else if page == ACTION_MAX_PAGES - 1 then Finished(true, collected)
         else DrainFrom(execute, true, page + 1, next, false, collected)
  {
    hide IsIncompleteRemotePage;
  }

  /** In an action that ends clean each page is complete and hands over to the next, up to the last. */
  lemma CleanSoFar<R>(execute: Tool<R>, page: nat, cursor: Option<string>, rows: seq<R>)
    requires page < ACTION_MAX_PAGES
    requires DrainFrom(execute, true, page, cursor, false, rows).Finished?
    requires !DrainFrom(execute, true, page, cursor, false, rows).partial
    ensures var details := execute(page, cursor);
      && details.Details? && !IsIncompleteRemotePage(details)
      && var next, collected := Given(details.cursorRef), rows + details.rows;
      && (next.Some? ==> page < ACTION_MAX_PAGES - 1)
      && DrainFrom(execute, true, page, cursor, false, rows)
         == if next.None? then Finished(false, collected)
           else DrainFrom(execute, true, page + 1, next, false, collected)
  {
    hide IsIncompleteRemotePage;
    var details := execute(page, cursor);
    if details.Details? && IsIncompleteRemotePage(details) && Given(details.cursorRef).Some?
       && page < ACTION_MAX_PAGES - 1 {
      PartialSticks(execute, true, page + 1, Given(details.cursorRef), rows + details.rows);
    }
  }

  /** A later page that throws ends the action PARTIAL with what there is. */
  lemma RefusedPageCutsShort<R>(tool: Tool<R>, page: nat, cursor: Option<string>, rows: seq<R>)
    requires 0 < page < ACTION_MAX_PAGES && tool(page, cursor).Threw?
    ensures DrainFrom(tool, true, page, cursor, false, rows) == Finished(true, rows)
  {
  }

  /** Some page that is read is incomplete in itself. */
  ghost predicate ReadsIncomplete<R>(execute: Tool<R>, paged: bool, page: nat, cursor: Option<string>)
    requires page < ACTION_MAX_PAGES
    decreases ACTION_MAX_PAGES - page
  {
    var details := execute(page, cursor);
    && details.Details?
    && (|| IsIncompleteRemotePage(details)
        || (&& paged && Given(details.cursorRef).Some? && page < ACTION_MAX_PAGES - 1
            && ReadsIncomplete(execute, paged, page + 1, Given(details.cursorRef))))
  }

  /** Exactly when an action that finishes is PARTIAL: some page was incomplete, or a cursor was left unread. */
  lemma {:induction false} PartialIff<R>(execute: Tool<R>, paged: bool, page: nat, cursor: Option<string>, rows: seq<R>)
    requires page < ACTION_MAX_PAGES && (page > 0 ==> cursor.Some?)
    requires DrainFrom(execute, paged, page, cursor, false, rows).Finished?
    ensures DrainFrom(execute, paged, page, cursor, false, rows).partial
       <==> ReadsIncomplete(execute, paged, page, cursor) || LeftUnread(execute, paged, page, cursor).Some?
    decreases ACTION_MAX_PAGES - page
  {
    hide IsIncompleteRemotePage;
    var details := execute(page, cursor);
    if details.Details? && paged && Given(details.cursorRef).Some? && page < ACTION_MAX_PAGES - 1 {
      if IsIncompleteRemotePage(details) {
        PartialSticks(execute, paged, page + 1, Given(details.cursorRef), rows + details.rows);
      } else {
        PartialIff(execute, paged, page + 1, Given(details.cursorRef), rows + details.rows);
      }
    }
  }

  /** Page after page along the cursors, each one complete in itself, the last one without a cursor. */
  ghost predicate CleanTrace<R>(execute: Tool<R>, paged: bool, page: nat, cursors: seq<Option<string>>)
    decreases |cursors|
  {
    && cursors != [] && page + |cursors| <= ACTION_MAX_PAGES
    && var details := execute(page, cursors[0]);
    && details.Details? && !IsIncompleteRemotePage(details)
    && if |cursors| == 1 then !paged || Given(details.cursorRef).None?
       else
         && paged && cursors[1].Some? && cursors[1] == Given(details.cursorRef)
         && CleanTrace(execute, paged, page + 1, cursors[1..])
  }

  function RowsAlong<R>(execute: Tool<R>, page: nat, cursors: seq<Option<string>>): seq<R>
    decreases |cursors|
  {
    if cursors == [] || !execute(page, cursors[0]).Details? then []
    else execute(page, cursors[0]).rows + RowsAlong(execute, page + 1, cursors[1..])
  }

  lemma {:induction false} CleanTraceDrains<R>(execute: Tool<R>, paged: bool, page: nat, cursors: seq<Option<string>>,
                                               rows: seq<R>)
    requires CleanTrace(execute, paged, page, cursors)
    ensures DrainFrom(execute, paged, page, cursors[0], false, rows)
      == Finished(false, rows + RowsAlong(execute, page, cursors))
    decreases |cursors|
  {
    hide IsIncompleteRemotePage;
    var details := execute(page, cursors[0]);
    if |cursors| == 1 {
      assert cursors[1..] == [] && details.rows + [] == details.rows;
    } else {
      CleanTraceDrains(execute, paged, page + 1, cursors[1..], rows + details.rows);
      var rest := RowsAlong(execute, page + 1, cursors[1..]);
      assert rows + (details.rows + rest) == rows + details.rows + rest;
    }
  }

  lemma {:induction false} CleanDrainHasTrace<R>(execute: Tool<R>, paged: bool, page: nat, cursor: Option<string>,
                                                 rows: seq<R>)
    returns (cursors: seq<Option<string>>)
    requires page < ACTION_MAX_PAGES
    requires DrainFrom(execute, paged, page, cursor, false, rows).Finished?
    requires !DrainFrom(execute, paged, page, cursor, false, rows).partial
    ensures CleanTrace(execute, paged, page, cursors) && cursors[0] == cursor
    decreases ACTION_MAX_PAGES - page
  {
    hide IsIncompleteRemotePage;
    var details := execute(page, cursor);
    cursors := [cursor];
    if paged && Given(details.cursorRef).Some? && page < ACTION_MAX_PAGES - 1 {
      if IsIncompleteRemotePage(details) {
        PartialSticks(execute, paged, page + 1, Given(details.cursorRef), rows + details.rows);
      }
      var rest := CleanDrainHasTrace(execute, paged, page + 1, Given(details.cursorRef), rows + details.rows);
      cursors := [cursor] + rest;
      assert cursors[1..] == rest;
    }
  }

  /** Draining ends clean exactly along a clean trace, and with the rows of its pages. */
  lemma CleanIff<R>(execute: Tool<R>, paged: bool, page: nat, cursor: Option<string>, rows: seq<R>)
    requires page < ACTION_MAX_PAGES
    ensures var drained := DrainFrom(execute, paged, page, cursor, false, rows);
      drained.Finished? && !drained.partial <==> exists cursors ::
        CleanTrace(execute, paged, page, cursors) && cursors[0] == cursor
    ensures forall cursors :: CleanTrace(execute, paged, page, cursors) && cursors[0] == cursor ==>
      DrainFrom(execute, paged, page, cursor, false, rows) == Finished(false, rows + RowsAlong(execute, page, cursors))
  {
    hide DrainFrom, RowsAlong, IsIncompleteRemotePage;
    var drained := DrainFrom(execute, paged, page, cursor, false, rows);
    if drained.Finished? && !drained.partial {
      var cursors := CleanDrainHasTrace(execute, paged, page, cursor, rows);
    }
    forall cursors | CleanTrace(execute, paged, page, cursors) && cursors[0] == cursor
      ensures drained == Finished(false, rows + RowsAlong(execute, page, cursors))
    {
      CleanTraceDrains(execute, paged, page, cursors, rows);
    }
  }

  // ---- What a finished action has read ----

  /** Why no further page is read: there is none, the limit is reached, or the next one threw. */
  datatype Stop = NoFurtherPage | PageLimit | Interrupted

  /** Where a page hands over to: its cursor, if the operation is paged and the cursor is not empty. */
  function HandsOverTo<R>(paged: bool, details: Details<R>): Option<string>
    requires details.Details?
  {
    if paged && details.cursorRef.Some? && details.cursorRef.value != "" then details.cursorRef else None
  }

  /**
    The pages that are read from a cursor on, whatever their completeness: each hands over to the next,
    and the last one has no further page, is the last allowed, or is followed by one that throws.
  */
  ghost predicate Reads<R>(execute: Tool<R>, paged: bool, page: nat, cursors: seq<Option<string>>, stop: Stop)
    decreases |cursors|
  {
    && cursors != [] && page < 100 && execute(page, cursors[0]).Details?
    && var next := HandsOverTo(paged, execute(page, cursors[0]));
    if next == None then |cursors| == 1 && stop == NoFurtherPage
    else if page + 1 == 100 then |cursors| == 1 && stop == PageLimit
    else if |cursors| == 1 then stop == Interrupted && execute(page + 1, next) == Threw
    else cursors[1] == next && Reads(execute, paged, page + 1, cursors[1..], stop)
  }

  /** One of these pages falls short in itself. */
  ghost predicate SomeFallsShort<R>(execute: Tool<R>, page: nat, cursors: seq<Option<string>>) {
    exists i :: 0 <= i < |cursors| && execute(page + i, cursors[i]).Details?
      && FallsShort(execute(page + i, cursors[i]))
  }

  lemma SomeFallsShortSteps<R>(execute: Tool<R>, page: nat, cursors: seq<Option<string>>)
    requires cursors != [] && execute(page, cursors[0]).Details?
    ensures SomeFallsShort(execute, page, cursors)
       <==> FallsShort(execute(page, cursors[0])) || SomeFallsShort(execute, page + 1, cursors[1..])
  {
    hide FallsShort;
    if i :| 0 <= i < |cursors[1..]| && execute(page + 1 + i, cursors[1..][i]).Details?
            && FallsShort(execute(page + 1 + i, cursors[1..][i])) {
      assert cursors[1..][i] == cursors[i + 1];
      assert execute(page + (i + 1), cursors[i + 1]).Details?;
    }
    if i :| 0 < i < |cursors| && execute(page + i, cursors[i]).Details? && FallsShort(execute(page + i, cursors[i])) {
      assert cursors[1..][i - 1] == cursors[i] && page + 1 + (i - 1) == page + i;
    }
    if FallsShort(execute(page, cursors[0])) {
      assert page + 0 == page;
    }
  }

  /**
    Along these pages the action finishes with all their rows, those of incomplete pages included, and
    is PARTIAL exactly if one of them fell short or there was more to read.
  */
  lemma {:induction false} ReadsGiveTheEnd<R>(execute: Tool<R>, paged: bool, page: nat, cursors: seq<Option<string>>,
                                              stop: Stop, partial: bool, rows: seq<R>)
    requires Reads(execute, paged, page, cursors, stop)
    ensures DrainFrom(execute, paged, page, cursors[0], partial, rows)
         == Finished(partial || SomeFallsShort(execute, page, cursors) || stop != NoFurtherPage,
                     rows + RowsAlong(execute, page, cursors))
    decreases |cursors|
  {
    hide IsIncompleteRemotePage, FallsShort, SomeFallsShort;
    var details := execute(page, cursors[0]);
    IncompleteMeans(details);
    SomeFallsShortSteps(execute, page, cursors);
    if |cursors| == 1 {
      NoneFallsShort(execute, page + 1);
      assert cursors[1..] == [] && details.rows + [] == details.rows;
    } else {
      ReadsGiveTheEnd(execute, paged, page + 1, cursors[1..], stop, partial || IsIncompleteRemotePage(details),
                      rows + details.rows);
      var rest := RowsAlong(execute, page + 1, cursors[1..]);
      assert rows + (details.rows + rest) == rows + details.rows + rest;
    }
  }

  lemma NoneFallsShort<R>(execute: Tool<R>, page: nat)
    ensures !SomeFallsShort(execute, page, [])
  {
  }

  /** Every action that finishes has read such pages; one whose first page is not even executed has failed. */
  lemma {:induction false} FinishedHasRead<R>(execute: Tool<R>, paged: bool, page: nat, cursor: Option<string>,
                                              partial: bool, rows: seq<R>)
    returns (cursors: seq<Option<string>>, stop: Stop)
    requires page < ACTION_MAX_PAGES && DrainFrom(execute, paged, page, cursor, partial, rows).Finished?
    requires execute(page, cursor).Details?
    ensures Reads(execute, paged, page, cursors, stop) && cursors[0] == cursor
    decreases ACTION_MAX_PAGES - page
  {
    hide IsIncompleteRemotePage;
    var details := execute(page, cursor);
    var next := HandsOverTo(paged, details);
    cursors := [cursor];
    if next == None {
      stop := NoFurtherPage;
    } else if page + 1 == ACTION_MAX_PAGES {
      stop := PageLimit;
    } else if execute(page + 1, next).Threw? {
      stop := Interrupted;
    } else {
      var rest;
      rest, stop := FinishedHasRead(execute, paged, page + 1, next, partial || IsIncompleteRemotePage(details),
                                    rows + details.rows);
      cursors := [cursor] + rest;
      assert cursors[1..] == rest;
    }
  }

  /**
    Exactly what an action comes to: it finishes iff it has read pages up to a stop, and then with all
    their rows; otherwise it has failed.
  */
  lemma FinishesIff<R>(execute: Tool<R>, paged: bool, firstCursor: Option<string>)
    ensures DrainFrom(execute, paged, 0, firstCursor, false, []).Finished? <==>
      exists cursors, stop :: Reads(execute, paged, 0, cursors, stop) && cursors[0] == firstCursor
    ensures forall cursors, stop :: Reads(execute, paged, 0, cursors, stop) && cursors[0] == firstCursor ==>
      DrainFrom(execute, paged, 0, firstCursor, false, [])
      == Finished(SomeFallsShort(execute, 0, cursors) || stop != NoFurtherPage, RowsAlong(execute, 0, cursors))
  {
    if DrainFrom(execute, paged, 0, firstCursor, false, []).Finished? {
      var cursors, stop := FinishedHasRead(execute, paged, 0, firstCursor, false, []);
    }
    hide DrainFrom, SomeFallsShort, RowsAlong;
    forall cursors, stop | Reads(execute, paged, 0, cursors, stop) && cursors[0] == firstCursor
      ensures DrainFrom(execute, paged, 0, firstCursor, false, [])
           == Finished(SomeFallsShort(execute, 0, cursors) || stop != NoFurtherPage, RowsAlong(execute, 0, cursors))
    {
      ReadsGiveTheEnd(execute, paged, 0, cursors, stop, false, []);
      assert [] + RowsAlong(execute, 0, cursors) == RowsAlong(execute, 0, cursors);
    }
  }

  /** The cursor that is left unread is the one the last page read hands over to, unless there was none. */
  lemma {:induction false} LeftUnreadMeans<R>(execute: Tool<R>, paged: bool, page: nat, cursors: seq<Option<string>>,
                                              stop: Stop)
    requires Reads(execute, paged, page, cursors, stop)
    ensures var last := |cursors| - 1;
      && execute(page + last, cursors[last]).Details?
      && LeftUnread(execute, paged, page, cursors[0]) == HandsOverTo(paged, execute(page + last, cursors[last]))
      && (stop == NoFurtherPage <==> LeftUnread(execute, paged, page, cursors[0]) == None)
    decreases |cursors|
  {
    if |cursors| > 1 {
      LeftUnreadMeans(execute, paged, page + 1, cursors[1..], stop);
      assert cursors[1..][|cursors| - 2] == cursors[|cursors| - 1];
    }
  }
}
