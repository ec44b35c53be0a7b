/**
  What an enumerate action that ends clean has collected, whatever happened on the host between its
  pages: each page's stretch of its own listing, and the first listing exactly when they fit together.
*/
module CleanActions {
  import opened Wrappers
  import opened OffsetScan
  import opened Protocol
  import opened Cursor
  import opened Drain
  import opened Enumerate
  import opened Collection

  // ---- Pages joined along their offsets ----

  /** The nodes a page at offset `from` has seen of its listing by the time it issues offset `to`. */
  function Stretch<R>(nodes: seq<Option<R>>, from: nat, to: nat): (seen: seq<Option<R>>)
    requires from <= to && First(from, |nodes|) + (to - from) <= |nodes|
    ensures |seen| == to - from
  {
    nodes[First(from, |nodes|)..First(from, |nodes|) + (to - from)]
  }

  /**
    Page after page, each page goes from the offset it was issued to where the scan of its own listing
    stops, and the last one comes to the end of its listing.
  */
  ghost predicate Turns<R>(matches: R -> bool, worlds: nat -> World<R>, limit: nat, page: nat, offsets: seq<nat>)
    decreases |offsets|
  {
    && |offsets| >= 2 && offsets[0] <= offsets[1]
    && var nodes := worlds(page).nodes;
    && var first := First(offsets[0], |nodes|);
    && first + (offsets[1] - offsets[0]) == ScanEnd(matches, nodes, first, limit, ENUMERATE_SCAN_PAGE_LIMIT)
    && if |offsets| == 2 then first + (offsets[1] - offsets[0]) == |nodes|
       else Turns(matches, worlds, limit, page + 1, offsets[1..])
  }

  /** Everything the pages have seen, joined. */
  ghost function Joined<R>(matches: R -> bool, worlds: nat -> World<R>, limit: nat, page: nat,
                           offsets: seq<nat>): seq<Option<R>>
    requires Turns(matches, worlds, limit, page, offsets)
    decreases |offsets|
  {
    Stretch(worlds(page).nodes, offsets[0], offsets[1])
    + (if |offsets| == 2 then [] else Joined(matches, worlds, limit, page + 1, offsets[1..]))
  }

  /** All pages found the source in the generation of the first. */
  ghost predicate OneGeneration<R>(worlds: nat -> World<R>, page: nat, end: nat) {
    forall j: nat :: page <= j < end ==> worlds(j).before == worlds(0).before
  }

  /** One clean page goes on where its cursor says, in its own listing. */
  lemma CleanStep<R(!new)>(codec: Codec, request: Request, matches: R -> bool, worlds: nat -> World<R>,
                           replies: (nat, Option<string>) -> Response<R>, page: nat, cursor: Option<string>,
                           offset: nat)
    returns (next: nat)
    requires Faithful(codec) && HelperReplies(codec, request, matches, worlds, replies)
    requires if page == 0 then cursor == None && offset == 0
      else cursor == Some(TokenAt(codec, request, offset, worlds(0).before))
    requires Remote(replies)(page, cursor).Details? && !IsIncompleteRemotePage(Remote(replies)(page, cursor))
    ensures worlds(page).before == worlds(0).before && offset <= next
    ensures var nodes, details := worlds(page).nodes, Remote(replies)(page, cursor);
      && First(offset, |nodes|) + (next - offset)
         == ScanEnd(matches, nodes, First(offset, |nodes|), request.limit, ENUMERATE_SCAN_PAGE_LIMIT)
      && details.rows == Filtered(matches, Stretch(nodes, offset, next))
      && (details.cursorRef.None? ==> First(offset, |nodes|) + (next - offset) == |nodes|)
      && (details.cursorRef.Some? ==> details.cursorRef == Some(TokenAt(codec, request, next, worlds(0).before)))
      && Given(details.cursorRef) == details.cursorRef
  {
    hide Finish, ToolDetails, IsIncompleteRemotePage, TokenAt, Filtered, ScanEnd;
    assert IsReply(codec, request, matches, worlds(page), cursor, replies(page, cursor));
    var start, found := CleanReply(codec, request, matches, worlds(page), cursor, replies(page, cursor));
    if page > 0 {
      IssuedCursorRestores(codec, request, offset, worlds(0).before, worlds(page).before);
    } else {
      BindingIgnoresCursor(codec, request, None);
    }
    IssuedCursorIsGiven(codec, request, found.nextOffset, worlds(0).before);
    next := offset + found.scannedCount;
  }

  lemma OneTurn<R>(matches: R -> bool, worlds: nat -> World<R>, limit: nat, page: nat, offset: nat, next: nat)
    requires offset <= next
    requires var nodes := worlds(page).nodes;
      var end := First(offset, |nodes|) + (next - offset);
      end == |nodes| && end == ScanEnd(matches, nodes, First(offset, |nodes|), limit, ENUMERATE_SCAN_PAGE_LIMIT)
    ensures Turns(matches, worlds, limit, page, [offset, next])
    ensures Joined(matches, worlds, limit, page, [offset, next]) == Stretch(worlds(page).nodes, offset, next)
  {
  }

  lemma AnotherTurn<R>(matches: R -> bool, worlds: nat -> World<R>, limit: nat, page: nat, offset: nat, rest: seq<nat>)
    requires Turns(matches, worlds, limit, page + 1, rest) && offset <= rest[0]
    requires var nodes := worlds(page).nodes;
      First(offset, |nodes|) + (rest[0] - offset)
      == ScanEnd(matches, nodes, First(offset, |nodes|), limit, ENUMERATE_SCAN_PAGE_LIMIT)
    ensures Turns(matches, worlds, limit, page, [offset] + rest)
    ensures Joined(matches, worlds, limit, page, [offset] + rest)
         == Stretch(worlds(page).nodes, offset, rest[0]) + Joined(matches, worlds, limit, page + 1, rest)
  {
    assert ([offset] + rest)[1..] == rest;
  }

  // ---- What is recorded of each page ----

  /** A tool that records each page it gets and answers with references to what it recorded. */
  function Recorded<R, S>(tool: Tool<R>, record: (nat, seq<R>) -> seq<S>): Tool<S> {
    (page: nat, cursor: Option<string>) =>
      match tool(page, cursor)
      case Threw => Threw
      case Unfit => Unfit
      case Details(status, cursorRef, gaps, rows) => Details(status, cursorRef, gaps, record(page, rows))
  }

  /** The references to the matching rows of each page's stretch, page after page. */
  ghost function RecordedAlong<R, S>(record: (nat, seq<R>) -> seq<S>, matches: R -> bool, worlds: nat -> World<R>,
                                     limit: nat, page: nat, offsets: seq<nat>): seq<S>
    requires Turns(matches, worlds, limit, page, offsets)
    decreases |offsets|
  {
    record(page, Filtered(matches, Stretch(worlds(page).nodes, offsets[0], offsets[1])))
    + (if |offsets| == 2 then [] else RecordedAlong(record, matches, worlds, limit, page + 1, offsets[1..]))
  }

  lemma LastRecord<R, S>(record: (nat, seq<R>) -> seq<S>, matches: R -> bool, worlds: nat -> World<R>, limit: nat,
                         page: nat, offset: nat, next: nat)
    requires Turns(matches, worlds, limit, page, [offset, next])
    ensures RecordedAlong(record, matches, worlds, limit, page, [offset, next])
         == record(page, Filtered(matches, Stretch(worlds(page).nodes, offset, next)))
  {
  }

  lemma AnotherRecord<R, S>(record: (nat, seq<R>) -> seq<S>, matches: R -> bool, worlds: nat -> World<R>, limit: nat,
                            page: nat, offset: nat, rest: seq<nat>)
    requires Turns(matches, worlds, limit, page, [offset] + rest) && |rest| >= 2
    ensures RecordedAlong(record, matches, worlds, limit, page, [offset] + rest)
         == record(page, Filtered(matches, Stretch(worlds(page).nodes, offset, rest[0])))
            + RecordedAlong(record, matches, worlds, limit, page + 1, rest)
  {
    hide ScanEnd;
    assert ([offset] + rest)[1..] == rest;
  }

  /** A clean page of a recording tool, and where it goes on. */
  lemma RecordedStep<R(!new), S>(codec: Codec, request: Request, matches: R -> bool, worlds: nat -> World<R>,
                                 replies: (nat, Option<string>) -> Response<R>, record: (nat, seq<R>) -> seq<S>,
                                 page: nat, cursor: Option<string>, offset: nat)
    returns (next: nat)
    requires Faithful(codec) && HelperReplies(codec, request, matches, worlds, replies)
    requires if page == 0 then cursor == None && offset == 0
      else cursor == Some(TokenAt(codec, request, offset, worlds(0).before))
    requires var details := Recorded(Remote(replies), record)(page, cursor);
      details.Details? && !IsIncompleteRemotePage(details)
    ensures worlds(page).before == worlds(0).before && offset <= next
    ensures var nodes, details := worlds(page).nodes, Recorded(Remote(replies), record)(page, cursor);
      && First(offset, |nodes|) + (next - offset)
         == ScanEnd(matches, nodes, First(offset, |nodes|), request.limit, ENUMERATE_SCAN_PAGE_LIMIT)
      && details.rows == record(page, Filtered(matches, Stretch(nodes, offset, next)))
      && Given(details.cursorRef) == details.cursorRef
      && if details.cursorRef.None? then First(offset, |nodes|) + (next - offset) == |nodes|
         else details.cursorRef == Some(TokenAt(codec, request, next, worlds(0).before))
  {
    hide HelperReplies, Faithful, TokenAt, Filtered, Remote, ScanEnd, First;
    next := CleanStep(codec, request, matches, worlds, replies, page, cursor, offset);
  }

  lemma {:induction false} RecordedFromHere<R(!new), S>(codec: Codec, request: Request, matches: R -> bool,
                                                        worlds: nat -> World<R>,
                                                        replies: (nat, Option<string>) -> Response<R>,
                                                        record: (nat, seq<R>) -> seq<S>, page: nat,
                                                        cursor: Option<string>, offset: nat, rows: seq<S>)
    returns (offsets: seq<nat>)
    requires Faithful(codec) && HelperReplies(codec, request, matches, worlds, replies) && page < ACTION_MAX_PAGES
    requires if page == 0 then cursor == None && offset == 0
      else cursor == Some(TokenAt(codec, request, offset, worlds(0).before))
    requires DrainFrom(Recorded(Remote(replies), record), true, page, cursor, false, rows).Finished?
    requires !DrainFrom(Recorded(Remote(replies), record), true, page, cursor, false, rows).partial
    ensures Turns(matches, worlds, request.limit, page, offsets)
    ensures |offsets| >= 2 && offsets[0] == offset && page + |offsets| <= ACTION_MAX_PAGES + 1
    ensures OneGeneration(worlds, page, page + |offsets| - 1)
    ensures |offsets| == 2 <==>
      var details := Recorded(Remote(replies), record)(page, cursor); details.Details? && details.cursorRef.None?
    ensures DrainFrom(Recorded(Remote(replies), record), true, page, cursor, false, rows).rows
         == rows + RecordedAlong(record, matches, worlds, request.limit, page, offsets)
    decreases ACTION_MAX_PAGES - page
  {
    hide HelperReplies, Faithful, TokenAt, Filtered, IsIncompleteRemotePage, Recorded, ScanEnd, Turns, Joined, First,
      DrainFrom,
      RecordedAlong;
    var tool := Recorded(Remote(replies), record);
    var details := tool(page, cursor);
    CleanSoFar(tool, page, cursor, rows);
    var next := RecordedStep(codec, request, matches, worlds, replies, record, page, cursor, offset);
    if details.cursorRef.None? {
      offsets := [offset, next];
      OneTurn(matches, worlds, request.limit, page, offset, next);
      LastRecord(record, matches, worlds, request.limit, page, offset, next);
    } else {
      var rest := RecordedFromHere(codec, request, matches, worlds, replies, record, page + 1, details.cursorRef, next,
                                   rows + details.rows);
      offsets := [offset] + rest;
      AnotherTurn(matches, worlds, request.limit, page, offset, rest);
      AnotherRecord(record, matches, worlds, request.limit, page, offset, rest);
      var later := RecordedAlong(record, matches, worlds, request.limit, page + 1, rest);
      assert rows + (details.rows + later) == rows + details.rows + later;
    }
  }

  /** What an action that ends SUCCEEDED recorded, whatever the pages are recorded as. */
  lemma SucceededMeansRecorded<R(!new), S>(codec: Codec, request: Request, matches: R -> bool, worlds: nat -> World<R>,
                                           replies: (nat, Option<string>) -> Response<R>,
                                           record: (nat, seq<R>) -> seq<S>, rows: seq<S>)
    returns (offsets: seq<nat>)
    requires Faithful(codec) && HelperReplies(codec, request, matches, worlds, replies)
    requires DrainFrom(Recorded(Remote(replies), record), true, 0, None, false, []) == Finished(false, rows)
    ensures Turns(matches, worlds, request.limit, 0, offsets) && offsets[0] == 0 && |offsets| <= ACTION_MAX_PAGES + 1
    ensures OneGeneration(worlds, 0, |offsets| - 1)
    ensures |offsets| == 2 <==>
      var details := Recorded(Remote(replies), record)(0, None); details.Details? && details.cursorRef.None?
    ensures rows == RecordedAlong(record, matches, worlds, request.limit, 0, offsets)
  {
    hide RecordedAlong, Turns, DrainFrom, Recorded, HelperReplies;
    offsets := RecordedFromHere(codec, request, matches, worlds, replies, record, 0, None, 0, []);
    var recorded := RecordedAlong(record, matches, worlds, request.limit, 0, offsets);
    assert [] + recorded == recorded;
  }

  // ---- What is collected ----

  function AsTheyAre<R>(): (nat, seq<R>) -> seq<R> {
    (page: nat, rows: seq<R>) => rows
  }

  /** Recording the rows themselves gives the matching rows of the joined pages. */
  lemma {:induction false} RecordedIsJoined<R>(matches: R -> bool, worlds: nat -> World<R>, limit: nat, page: nat,
                                               offsets: seq<nat>)
    requires Turns(matches, worlds, limit, page, offsets)
    ensures RecordedAlong(AsTheyAre(), matches, worlds, limit, page, offsets)
         == Filtered(matches, Joined(matches, worlds, limit, page, offsets))
    decreases |offsets|
  {
    hide ScanEnd, Filtered, First;
    var seen := Stretch(worlds(page).nodes, offsets[0], offsets[1]);
    if |offsets| == 2 {
      assert seen + [] == seen;
    } else {
      RecordedIsJoined(matches, worlds, limit, page + 1, offsets[1..]);
      FilteredAppend(matches, seen, Joined(matches, worlds, limit, page + 1, offsets[1..]));
    }
  }

  /**
    With nothing assumed about the host: an enumerate action that ends SUCCEEDED has collected the
    matching rows of each page's stretch of its own listing, along the issued offsets, in order.
  */
  lemma SucceededMeansJoined<R(!new)>(codec: Codec, request: Request, matches: R -> bool, worlds: nat -> World<R>,
                                      replies: (nat, Option<string>) -> Response<R>, rows: seq<R>)
    returns (offsets: seq<nat>)
    requires Faithful(codec) && HelperReplies(codec, request, matches, worlds, replies)
    requires DrainFrom(Remote(replies), true, 0, None, false, []) == Finished(false, rows)
    ensures Turns(matches, worlds, request.limit, 0, offsets) && offsets[0] == 0 && |offsets| <= ACTION_MAX_PAGES + 1
    ensures OneGeneration(worlds, 0, |offsets| - 1)
    ensures |offsets| == 2 <==> Remote(replies)(0, None).Details? && Remote(replies)(0, None).cursorRef.None?
    ensures rows == Filtered(matches, Joined(matches, worlds, request.limit, 0, offsets))
  {
    hide Filtered, Joined, Turns, DrainFrom, HelperReplies, RecordedAlong;
    var tool := Remote(replies);
    forall page: nat, cursor: Option<string>
      ensures Recorded(tool, AsTheyAre())(page, cursor) == tool(page, cursor)
    {
    }
    SameToolDrainsTheSame(Recorded(tool, AsTheyAre()), tool, true, 0, None, false, []);
    offsets := SucceededMeansRecorded(codec, request, matches, worlds, replies, AsTheyAre(), rows);
    RecordedIsJoined(matches, worlds, request.limit, 0, offsets);
  }

  // ---- Exactly when that is the first listing ----

  /** Each page's stretch is also the first listing's, and the walk ends where the first listing does. */
  ghost predicate PagesAgree<R>(matches: R -> bool, worlds: nat -> World<R>, limit: nat, page: nat, offsets: seq<nat>,
                                listing: seq<Option<R>>)
    requires Turns(matches, worlds, limit, page, offsets)
    decreases |offsets|
  {
    && offsets[1] <= |listing| && Stretch(worlds(page).nodes, offsets[0], offsets[1]) == listing[offsets[0]..offsets[1]]
    && if |offsets| == 2 then offsets[1] == |listing|
       else PagesAgree(matches, worlds, limit, page + 1, offsets[1..], listing)
  }

  lemma {:induction false} JoinedIsTheListingIff<R>(matches: R -> bool, worlds: nat -> World<R>, limit: nat, page: nat,
                                                    offsets: seq<nat>, listing: seq<Option<R>>)
    requires Turns(matches, worlds, limit, page, offsets) && offsets[0] <= |listing|
    ensures Joined(matches, worlds, limit, page, offsets) == listing[offsets[0]..]
       <==> PagesAgree(matches, worlds, limit, page, offsets, listing)
    decreases |offsets|
  {
    hide ScanEnd, First;
    var seen := Stretch(worlds(page).nodes, offsets[0], offsets[1]);
    if |offsets| == 2 {
      assert seen + [] == seen;
      StretchAgreesIff(seen, [], listing, offsets[0], offsets[1]);
    } else {
      var rest := Joined(matches, worlds, limit, page + 1, offsets[1..]);
      StretchAgreesIff(seen, rest, listing, offsets[0], offsets[1]);
      if offsets[1] <= |listing| {
        JoinedIsTheListingIff(matches, worlds, limit, page + 1, offsets[1..], listing);
      }
    }
  }

  /** A stretch and what comes after it are a list's exactly when each is. */
  lemma StretchAgreesIff<T>(seen: seq<T>, rest: seq<T>, listing: seq<T>, from: nat, to: nat)
    requires from <= |listing| && to == from + |seen|
    ensures seen + rest == listing[from..] <==> to <= |listing| && seen == listing[from..to] && rest == listing[to..]
  {
    if to <= |listing| {
      assert listing[from..] == listing[from..to] + listing[to..];
      assert (seen + rest)[..|seen|] == seen && (seen + rest)[|seen|..] == rest;
    } else {
      assert |seen + rest| > |listing[from..]|;
    }
  }

  function Everything<R>(): R -> bool {
    row => true
  }

  lemma {:induction false} FilteredOfAll<R>(matches: R -> bool, some: seq<Option<R>>, other: seq<Option<R>>)
    requires Filtered(Everything(), some) == Filtered(Everything(), other)
    ensures Filtered(matches, some) == Filtered(matches, other)
    decreases |some| + |other|
  {
    if some != [] && some[0].None? {
      FilteredOfAll(matches, some[1..], other);
    } else if other != [] && other[0].None? {
      FilteredOfAll(matches, some, other[1..]);
    } else if some != [] && other != [] {
      var rest, last := Filtered(Everything(), some[1..]), Filtered(Everything(), other[1..]);
      assert ([some[0].value] + rest)[0] == ([other[0].value] + last)[0];
      assert ([some[0].value] + rest)[1..] == rest && ([other[0].value] + last)[1..] == last;
      FilteredOfAll(matches, some[1..], other[1..]);
    }
  }

  ghost predicate AllYield<R>(nodes: seq<Option<R>>) {
    forall i :: 0 <= i < |nodes| ==> nodes[i].Some?
  }

  lemma {:induction false} YieldingSourcesAreTheirRows<R>(some: seq<Option<R>>, other: seq<Option<R>>)
    requires AllYield(some) && AllYield(other) && Filtered(Everything(), some) == Filtered(Everything(), other)
    ensures some == other
  {
    if some != [] && other != [] {
      var rest, last := Filtered(Everything(), some[1..]), Filtered(Everything(), other[1..]);
      assert ([some[0].value] + rest)[0] == ([other[0].value] + last)[0];
      assert ([some[0].value] + rest)[1..] == rest && ([other[0].value] + last)[1..] == last;
      YieldingSourcesAreTheirRows(some[1..], other[1..]);
      assert some == [some[0]] + some[1..] && other == [other[0]] + other[1..];
    }
  }

  lemma {:induction false} JoinedYields<R>(matches: R -> bool, worlds: nat -> World<R>, limit: nat, page: nat,
                                           offsets: seq<nat>)
    requires Turns(matches, worlds, limit, page, offsets) && forall i :: AllYield(worlds(i).nodes)
    ensures AllYield(Joined(matches, worlds, limit, page, offsets))
    decreases |offsets|
  {
    hide ScanEnd;
    assert AllYield(worlds(page).nodes);
    if |offsets| > 2 {
      JoinedYields(matches, worlds, limit, page + 1, offsets[1..]);
    }
  }

  /** The rows a stretch of nodes yields, whether they match or not. */
  function Yield<R>(nodes: seq<Option<R>>): seq<R> {
    Filtered(Everything(), nodes)
  }

  /** Each page's stretch yields the rows of the list that come next, and the last page reaches its end. */
  ghost predicate RowsAgree<R>(matches: R -> bool, worlds: nat -> World<R>, limit: nat, page: nat, offsets: seq<nat>,
                               rows: seq<R>)
    requires Turns(matches, worlds, limit, page, offsets)
    decreases |offsets|
  {
    var here := Yield(Stretch(worlds(page).nodes, offsets[0], offsets[1]));
    && here <= rows
    && if |offsets| == 2 then here == rows
       else RowsAgree(matches, worlds, limit, page + 1, offsets[1..], rows[|here|..])
  }

  lemma {:induction false} JoinedYieldsTheRowsIff<R>(matches: R -> bool, worlds: nat -> World<R>, limit: nat, page: nat,
                                                     offsets: seq<nat>, rows: seq<R>)
    requires Turns(matches, worlds, limit, page, offsets)
    ensures Yield(Joined(matches, worlds, limit, page, offsets)) == rows
       <==> RowsAgree(matches, worlds, limit, page, offsets, rows)
    decreases |offsets|
  {
    hide ScanEnd, Yield;
    var seen := Stretch(worlds(page).nodes, offsets[0], offsets[1]);
    var here := Yield(seen);
    if |offsets| == 2 {
      assert seen + [] == seen;
    } else {
      var later := Joined(matches, worlds, limit, page + 1, offsets[1..]);
      YieldAppend(seen, later);
      if here <= rows {
        JoinedYieldsTheRowsIff(matches, worlds, limit, page + 1, offsets[1..], rows[|here|..]);
        PrefixAndRest(here, Yield(later), rows);
      }
    }
  }

  lemma YieldAppend<R>(some: seq<Option<R>>, other: seq<Option<R>>)
    ensures Yield(some + other) == Yield(some) + Yield(other)
  {
    FilteredAppend(Everything(), some, other);
  }

  lemma PrefixAndRest<R>(first: seq<R>, rest: seq<R>, whole: seq<R>)
    requires first <= whole
    ensures first + rest == whole <==> rest == whole[|first|..]
  {
    assert (first + rest)[|first|..] == rest;
  }

  /** What was seen gives the first listing's rows under every predicate. */
  ghost predicate ExactForAll<R(!new)>(seen: seq<Option<R>>, listing: seq<Option<R>>) {
    forall wanted: R -> bool :: Filtered(wanted, seen) == Filtered(wanted, listing)
  }

  lemma ExactForAllIff<R(!new)>(seen: seq<Option<R>>, listing: seq<Option<R>>)
    ensures ExactForAll(seen, listing) <==> Yield(seen) == Yield(listing)
  {
    hide Filtered;
    if Yield(seen) == Yield(listing) {
      forall wanted: R -> bool
        ensures Filtered(wanted, seen) == Filtered(wanted, listing)
      {
        FilteredOfAll(wanted, seen, listing);
      }
    }
  }

  /**
    Exactly when a clean action is exact for the listing of its first page, whatever predicate its
    rows are judged by: page after page, its stretch yields the rows of that listing which come next,
    and the last page reaches the last of them. Where every node yields a row, as in a listing or a
    log, that means each page's stretch is the first listing's and the walk ends where that does.
  */
  lemma ExactIffPagesAgree<R(!new)>(matches: R -> bool, worlds: nat -> World<R>, limit: nat, offsets: seq<nat>)
    requires Turns(matches, worlds, limit, 0, offsets) && offsets[0] == 0
    ensures var joined, listing := Joined(matches, worlds, limit, 0, offsets), worlds(0).nodes;
      && (ExactForAll(joined, listing) <==> RowsAgree(matches, worlds, limit, 0, offsets, Yield(listing)))
      && ((forall i :: AllYield(worlds(i).nodes)) ==>
            (ExactForAll(joined, listing) <==> PagesAgree(matches, worlds, limit, 0, offsets, listing)))
  {
    hide Yield, Turns, Joined, PagesAgree, AllYield, RowsAgree, ExactForAll;
    var joined, listing := Joined(matches, worlds, limit, 0, offsets), worlds(0).nodes;
    ExactForAllIff(joined, listing);
    JoinedYieldsTheRowsIff(matches, worlds, limit, 0, offsets, Yield(listing));
    JoinedIsTheListingIff(matches, worlds, limit, 0, offsets, listing);
    assert listing[0..] == listing;
    if forall i :: AllYield(worlds(i).nodes) {
      JoinedYields(matches, worlds, limit, 0, offsets);
      assert AllYield(worlds(0).nodes);
      if Yield(joined) == Yield(listing) {
        SameYieldSameNodes(joined, listing);
      }
    }
  }

  lemma SameYieldSameNodes<R>(some: seq<Option<R>>, other: seq<Option<R>>)
    requires AllYield(some) && AllYield(other) && Yield(some) == Yield(other)
    ensures some == other
  {
    YieldingSourcesAreTheirRows(some, other);
  }

  // ---- Where no premise is needed, and where one is ----

  /** An action of a single page is exact for what that page saw; nothing has to be assumed. */
  lemma OnePageIsExact<R(!new)>(codec: Codec, request: Request, matches: R -> bool, worlds: nat -> World<R>,
                                replies: (nat, Option<string>) -> Response<R>, rows: seq<R>)
    requires Faithful(codec) && HelperReplies(codec, request, matches, worlds, replies)
    requires DrainFrom(Remote(replies), true, 0, None, false, []) == Finished(false, rows)
    requires Remote(replies)(0, None).Details? && Remote(replies)(0, None).cursorRef.None?
    ensures rows == Filtered(matches, worlds(0).nodes)
  {
    hide Filtered, DrainFrom, Remote, HelperReplies, ScanEnd;
    var offsets := SucceededMeansJoined(codec, request, matches, worlds, replies, rows);
    var nodes := worlds(0).nodes;
    assert Joined(matches, worlds, request.limit, 0, offsets) == nodes[0..|nodes|] + [] == nodes;
  }

  /** A change of the logical source shows in its generation. */
  ghost predicate GenerationTells<R>(worlds: nat -> World<R>) {
    forall i, j :: worlds(i).before == worlds(j).before ==> worlds(i).nodes == worlds(j).nodes
  }

  lemma {:induction false} SameListingJoins<R>(matches: R -> bool, worlds: nat -> World<R>, limit: nat, page: nat,
                                               offsets: seq<nat>, listing: seq<Option<R>>)
    requires Turns(matches, worlds, limit, page, offsets) && offsets[0] <= |listing|
    requires forall j: nat :: page <= j < page + |offsets| - 1 ==> worlds(j).nodes == listing
    ensures Joined(matches, worlds, limit, page, offsets) == listing[offsets[0]..]
    decreases |offsets|
  {
    hide ScanEnd;
    var seen := Stretch(listing, offsets[0], offsets[1]);
    if |offsets| == 2 {
      assert seen + [] == listing[offsets[0]..];
    } else {
      SameListingJoins(matches, worlds, limit, page + 1, offsets[1..], listing);
      assert listing[offsets[0]..] == seen + listing[offsets[1]..];
    }
  }

  /**
    Where every change of the source shows in its generation, an enumerate action that ends SUCCEEDED
    has collected exactly the filtered source its first page saw, in order, without loss or duplicate.
  */
  lemma SucceededMeansExact<R(!new)>(codec: Codec, request: Request, matches: R -> bool, worlds: nat -> World<R>,
                                     replies: (nat, Option<string>) -> Response<R>, rows: seq<R>)
    requires Faithful(codec) && GenerationTells(worlds) && HelperReplies(codec, request, matches, worlds, replies)
    requires DrainFrom(Remote(replies), true, 0, None, false, []) == Finished(false, rows)
    ensures rows == Filtered(matches, worlds(0).nodes)
  {
    hide Filtered, DrainFrom, Remote, HelperReplies, Turns, Joined;
    var offsets := SucceededMeansJoined(codec, request, matches, worlds, replies, rows);
    SameListingJoins(matches, worlds, request.limit, 0, offsets, worlds(0).nodes);
    assert worlds(0).nodes[0..] == worlds(0).nodes;
  }
}
