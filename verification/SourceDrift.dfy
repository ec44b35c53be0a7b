/**
  A change the generation does not show. For most namespaces the generation is the boot id, and for
  files it is the state of the scope root alone, so a listing can shrink between pages unnoticed.
*/
module SourceDrift {
  import opened Wrappers
  import opened OffsetScan
  import opened Protocol
  import opened Cursor
  import opened Drain
  import opened Enumerate
  import opened Collection
  import opened CleanActions
  import opened QuietActions

  /** The host of the example: two nodes at first, then only the second, under one generation. */
  function Shrinking(generation: string): nat -> World<int> {
    (page: nat) => World(if page == 0 then [Some(1), Some(2)] else [Some(2)], generation, generation)
  }

  function PagesAt(generation: string, page: nat): nat -> Collected<int> {
    (offset: nat) => ExactPage(Everything(), Shrinking(generation)(page).nodes, offset, 1, Always())
  }

  function ShrinkingReplies(codec: Codec, request: Request, generation: string): (nat,
      Option<string>) -> Response<int> {
    (page: nat, cursor: Option<string>) => QuietReply(codec, request, generation, PagesAt(generation, page), cursor)
  }

  lemma ShrinkingRepliesAreReplies(codec: Codec, request: Request, generation: string)
    requires request.limit == 1
    ensures HelperReplies(codec, request, Everything(), Shrinking(generation),
                          ShrinkingReplies(codec, request, generation))
  {
    hide IsOffsetPage, ExactPage;
    forall page: nat, cursor: Option<string>
      ensures IsReply(codec, request, Everything(), Shrinking(generation)(page), cursor,
                      ShrinkingReplies(codec, request, generation)(page, cursor))
    {
      var nodes := Shrinking(generation)(page).nodes;
      forall offset: nat
        ensures IsOffsetPage(Everything(), nodes, offset, 1, PagesAt(generation, page)(offset))
      {
        ExactPageIsAnOffsetPage(Everything(), nodes, offset, 1, Always());
      }
      QuietRepliesAreReplies(codec, request, Everything(), nodes, generation, PagesAt(generation, page));
      var world := World(nodes, generation, generation);
      assert Shrinking(generation)(page) == world;
      var replies :=
        (p: nat, c: Option<string>) => QuietReply(codec, request, generation, PagesAt(generation, page), c);
      assert IsReply(codec, request, Everything(), world, cursor, replies(0, cursor));
    }
  }

  lemma TheTwoPages(generation: string)
    ensures PagesAt(generation, 0)(0) == Collected([1], false, 1, 1, 1, None, false)
    ensures PagesAt(generation, 1)(1) == Collected([], false, 0, 0, 1, None, true)
  {
    var nodes := [Some(1), Some(2)];
    assert ScanEnd(Everything(), nodes, 0, 1, ENUMERATE_SCAN_PAGE_LIMIT) == 1;
    assert nodes[0..1] == [Some(1)];
    assert Filtered(Everything(), [Some(1)]) == [1] + Filtered(Everything(), [Some(1)][1..]);
    assert [Some(2)][1..1] == [];
  }

  /**
    A clean action that loses a node which is in the listing at every page: the first page returns
    node 1, which then disappears, and node 2 moves to the place the second page has already passed.
  */
  lemma AShrinkingListingLosesANode(codec: Codec, request: Request, generation: string)
    requires Faithful(codec) && request.limit == 1 && |TokenAt(codec, request, 1, generation)| <= MAX_CURSOR_LENGTH
    ensures var worlds, replies := Shrinking(generation), ShrinkingReplies(codec, request, generation);
      && HelperReplies(codec, request, Everything(), worlds, replies)
      && (forall i, j :: worlds(i).before == worlds(i).after == worlds(j).before)
      && (forall i :: Some(2) in worlds(i).nodes)
      && DrainFrom(Remote(replies), true, 0, None, false, []) == Finished(false, [1])
  {
    ShrinkingRepliesAreReplies(codec, request, generation);
    var tool := Remote(ShrinkingReplies(codec, request, generation));
    TheTwoPages(generation);
    hide PagesAt;
    var first, second := Start(0, false, None), Start(1, false, None);
    BindingIgnoresCursor(codec, request, None);
    RepliesParse(codec, request, first, PagesAt(generation, 0)(0), generation, generation);
    CleanPageIff(codec, request, first, PagesAt(generation, 0)(0), generation, generation);
    IssuedCursorRestores(codec, request, 1, generation, generation);
    RepliesParse(codec, request, second, PagesAt(generation, 1)(1), generation, generation);
    CleanPageIff(codec, request, second, PagesAt(generation, 1)(1), generation, generation);
    var cursor := Some(TokenAt(codec, request, 1, generation));
    assert tool(0, None).cursorRef == cursor && tool(0, None).rows == [1];
    assert tool(1, cursor).rows == [] && tool(1, cursor).cursorRef == None;
    TwoPagesDrain(tool, cursor.value, [1]);
  }

  lemma TwoPagesDrain<R>(tool: Tool<R>, cursor: string, rows: seq<R>)
    requires tool(0, None).Details? && !IsIncompleteRemotePage(tool(0, None))
    requires tool(0, None).cursorRef == Some(cursor) && tool(0, None).rows == rows
    requires tool(1, Some(cursor)).Details? && !IsIncompleteRemotePage(tool(1, Some(cursor)))
    requires tool(1, Some(cursor)).cursorRef.None? && tool(1, Some(cursor)).rows == []
    ensures DrainFrom(tool, true, 0, None, false, []) == Finished(false, rows)
  {
    hide IsIncompleteRemotePage;
    assert [] + rows == rows && rows + [] == rows;
    assert DrainFrom(tool, true, 1, Some(cursor), false, rows) == Finished(false, rows);
  }
}
