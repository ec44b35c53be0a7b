/** Paging over the files of a directory walk. */
module FileScan {
  import opened Wrappers
  import opened OffsetScan

  /** A directory entry as the collector finds it. */
  datatype FileNode<+R> = Irregular | Unreadable | Regular(facts: R)

  /**
    One directory of the walk, in walk order: whether the deadline has passed when it is reached,
    whether the walk had to record a skip there, and its file names in sorted order.
  */
  datatype Directory<+R> = Directory(expired: bool, skipped: bool, files: seq<FileNode<R>>)

  function NodeOf<R>(file: FileNode<R>): Option<R> {
    if file.Regular? then Some(file.facts) else None
  }

  function Nodes<R>(files: seq<FileNode<R>>): (nodes: seq<Option<R>>)
    ensures |nodes| == |files|
    ensures forall i :: 0 <= i < |files| ==> nodes[i] == NodeOf(files[i])
  {
    seq(|files|, i requires 0 <= i < |files| => NodeOf(files[i]))
  }

  /** Every file of the walk. */
  function AllFiles<R>(walk: seq<Directory<R>>): seq<FileNode<R>> {
    if walk == [] then [] else walk[0].files + AllFiles(walk[1..])
  }

  /** The directories reached before the deadline. */
  function BeforeDeadline<R>(walk: seq<Directory<R>>): seq<Directory<R>> {
    if walk == [] || walk[0].expired then [] else [walk[0]] + BeforeDeadline(walk[1..])
  }

  ghost predicate Expires<R>(walk: seq<Directory<R>>) {
    exists i :: 0 <= i < |walk| && walk[i].expired
  }

  ghost predicate Skips<R>(walk: seq<Directory<R>>) {
    exists i :: 0 <= i < |walk| && walk[i].skipped
  }

  lemma {:induction false} AllFilesAppend<R>(a: seq<Directory<R>>, b: seq<Directory<R>>)
    ensures AllFiles(a + b) == AllFiles(a) + AllFiles(b)
  {
    if a == [] {
      assert a + b == b;
    } else {
      AllFilesAppend(a[1..], b);
      assert (a + b)[1..] == a[1..] + b && (a + b)[0] == a[0];
      var head, middle, tail := a[0].files, AllFiles(a[1..]), AllFiles(b);
      assert head + (middle + tail) == head + middle + tail;
    }
  }

  lemma {:induction false} AllFilesSplit<R>(walk: seq<Directory<R>>, i: nat)
    requires i <= |walk|
    ensures AllFiles(walk) == AllFiles(walk[..i]) + AllFiles(walk[i..])
  {
    if i > 0 {
      AllFilesSplit(walk[1..], i - 1);
      assert walk[..i][1..] == walk[1..][..i - 1] && walk[1..][i - 1..] == walk[i..];
      var head, middle, tail := walk[0].files, AllFiles(walk[1..][..i - 1]), AllFiles(walk[i..]);
      assert head + (middle + tail) == head + middle + tail;
    }
  }

  lemma AllFilesNext<R>(walk: seq<Directory<R>>, i: nat)
    requires i < |walk|
    ensures AllFiles(walk[..i + 1]) == AllFiles(walk[..i]) + walk[i].files
    ensures var seen, here := |AllFiles(walk[..i])|, walk[i].files;
      seen + |here| <= |AllFiles(walk)| && here == AllFiles(walk)[seen..seen + |here|]
  {
    AllFilesSplit(walk, i);
    assert AllFiles(walk[i..]) == walk[i].files + AllFiles(walk[i + 1..]);
    AllFilesOfOne(walk[i]);
    hide AllFiles;
    assert walk[..i + 1] == walk[..i] + [walk[i]];
    AllFilesAppend(walk[..i], [walk[i]]);
  }

  lemma AllFilesOfOne<R>(directory: Directory<R>)
    ensures AllFiles([directory]) == directory.files
  {
    assert [directory][1..] == [] && directory.files + [] == directory.files;
  }

  lemma {:induction false} BeforeDeadlineIsPrefix<R>(walk: seq<Directory<R>>)
    ensures var n := |BeforeDeadline(walk)|;
      && n <= |walk| && BeforeDeadline(walk) == walk[..n]
      && (forall i :: 0 <= i < n ==> !walk[i].expired)
      && (n < |walk| ==> walk[n].expired)
      && (n == |walk| <==> !Expires(walk))
  {
    if walk != [] && !walk[0].expired {
      BeforeDeadlineIsPrefix(walk[1..]);
      var n := |BeforeDeadline(walk[1..])|;
      assert walk[..n + 1] == [walk[0]] + walk[1..][..n];
    }
  }

  /** Progress of a page over a list of files: `scanned` of them have been looked at. */
  ghost predicate Progress<R>(matches: R -> bool, files: seq<FileNode<R>>, start: nat, maximum: nat,
                              scanned: nat, rows: seq<R>, unreadable: bool) {
    var first := First(start, |files|);
    && first + scanned <= |files|
    && Walked(matches, Nodes(files), first, first + scanned, maximum, ENUMERATE_SCAN_PAGE_LIMIT, rows)
    && (unreadable <==> exists i :: first <= i < first + scanned && files[i].Unreadable?)
  }

  lemma NothingLookedAt<R>(matches: R -> bool, files: seq<FileNode<R>>, start: nat, maximum: nat)
    ensures Progress(matches, files, start, maximum, 0, [], false)
  {
    WalkStarts(matches, Nodes(files), First(start, |files|), maximum, ENUMERATE_SCAN_PAGE_LIMIT);
  }

  lemma LookedAt<R>(matches: R -> bool, files: seq<FileNode<R>>, start: nat, maximum: nat, scanned: nat, rows: seq<R>,
                    unreadable: bool)
    requires Progress(matches, files, start, maximum, scanned, rows, unreadable)
    requires start + scanned < |files| && scanned < ENUMERATE_SCAN_PAGE_LIMIT && |rows| < maximum
    ensures var file := files[start + scanned];
      Progress(matches, files, start, maximum, scanned + 1,
               rows + (if Hits(matches, NodeOf(file)) then [file.facts] else []), unreadable || file.Unreadable?)
  {
    hide Walked;
    WalkGoesOn(matches, Nodes(files), start, start + scanned, maximum, ENUMERATE_SCAN_PAGE_LIMIT, rows);
  }

  /** Why the walk ended: full, out of budget with another file waiting, deadline, or no more directories. */
  datatype Ending = Full | OutOfBudget | Expired | Exhausted

  ghost predicate Ended<R>(matches: R -> bool, files: seq<FileNode<R>>, start: nat, maximum: nat,
                           scanned: nat, rows: seq<R>, unreadable: bool, ending: Ending) {
    && Progress(matches, files, start, maximum, scanned, rows, unreadable)
    && match ending
       case Full => |rows| == maximum
       case OutOfBudget => |rows| < maximum && scanned == ENUMERATE_SCAN_PAGE_LIMIT
         && First(start, |files|) + scanned < |files|
       case Expired => |rows| < maximum && First(start, |files|) + scanned == |files|
       case Exhausted => |rows| < maximum && First(start, |files|) + scanned == |files|
  }

  /** Looks at the files of one directory; `visited` counts every file seen since the walk began. */
  method VisitDirectory<R>(ghost matches: R -> bool, ghost files: seq<FileNode<R>>, here: seq<FileNode<R>>,
                           predicate_: Option<R -> bool>, start: nat, maximum: nat, visited0: nat, scanned0: nat,
                           rows0: seq<R>, unreadable0: bool)
    returns (visited: nat, scanned: nat, rows: seq<R>, unreadable: bool, ghost ending: Ending, stop: bool)
    requires forall row :: matches(row) <==> predicate_.None? || predicate_.value(row)
    requires visited0 + |here| <= |files| && here == files[visited0..visited0 + |here|]
    requires Progress(matches, files, start, maximum, scanned0, rows0, unreadable0) && |rows0| < maximum
    requires scanned0 == if visited0 <= start then 0 else visited0 - start
    requires scanned0 <= ENUMERATE_SCAN_PAGE_LIMIT
    ensures stop ==>
      && ending != Expired && ending != Exhausted
      && Ended(matches, files, start, maximum, scanned, rows, unreadable, ending)
    ensures !stop ==>
      && visited == visited0 + |here| && |rows| < maximum && scanned <= ENUMERATE_SCAN_PAGE_LIMIT
      && scanned == (if visited <= start then 0 else visited - start)
      && Progress(matches, files, start, maximum, scanned, rows, unreadable)
  {
    hide Progress;
    visited, scanned, rows, unreadable, stop := visited0, scanned0, rows0, unreadable0, false;
    ending := Full;
    var j := 0;
    while j < |here|
      invariant j <= |here| && visited == visited0 + j
      invariant scanned == (if visited <= start then 0 else visited - start)
      invariant scanned <= ENUMERATE_SCAN_PAGE_LIMIT && |rows| < maximum
      invariant Progress(matches, files, start, maximum, scanned, rows, unreadable)
    {
      var file := here[j];
      assert file == files[visited];
      visited := visited + 1;
      j := j + 1;
      if visited <= start {
        continue;
      }
      if scanned >= ENUMERATE_SCAN_PAGE_LIMIT {
        stop, ending := true, OutOfBudget;
        return;
      }
      LookedAt(matches, files, start, maximum, scanned, rows, unreadable);
      assert rows + [] == rows;
      scanned := scanned + 1;
      match file
      case Irregular =>
      case Unreadable => unreadable := true;
      case Regular(facts) =>
        if predicate_.None? || predicate_.value(facts) {
          rows := rows + [facts];
        }
      if |rows| >= maximum {
        stop, ending := true, Full;
        return;
      }
    }
  }

  /** Where the deadline cuts the walk, one directory at a time. */
  lemma DirectoryIsReached<R>(walk: seq<Directory<R>>, i: nat)
    requires i < |walk| && i <= |BeforeDeadline(walk)|
    ensures walk[i].expired <==> i == |BeforeDeadline(walk)|
    ensures walk[i].expired ==> Expires(walk)
    ensures !walk[i].expired ==> BeforeDeadline(walk)[i] == walk[i]
  {
    BeforeDeadlineIsPrefix(walk);
  }

  lemma DeadlineNeverCame<R>(walk: seq<Directory<R>>)
    requires |walk| <= |BeforeDeadline(walk)|
    ensures |BeforeDeadline(walk)| == |walk| && !Expires(walk)
  {
    BeforeDeadlineIsPrefix(walk);
  }

  method WalkDirectories<R>(walk: seq<Directory<R>>, predicate_: Option<R -> bool>, start: nat, maximum: nat)
    returns (rows: seq<R>, scanned: nat, skips: bool, unreadable: bool, expired: bool, complete: bool,
             ghost ending: Ending)
    requires 1 <= maximum
    ensures Ended(Wanted(predicate_), AllFiles(BeforeDeadline(walk)), start, maximum, scanned, rows, unreadable, ending)
    ensures expired == ending.Expired? && (expired ==> Expires(walk))
    ensures complete == ending.Exhausted? && (complete ==> !Expires(walk))
    ensures skips ==> Skips(walk)
    ensures complete ==> (skips <==> Skips(walk))
  {
    hide Progress, AllFiles, BeforeDeadline;
    ghost var matches := Wanted(predicate_);
    ghost var reached := BeforeDeadline(walk);
    ghost var files := AllFiles(reached);
    NothingLookedAt(matches, files, start, maximum);
    NoFiles(reached);
    WholeWalk(reached);
    var visited: nat := 0;
    rows, scanned, skips, unreadable, expired := [], 0, false, false, false;
    for i := 0 to |walk|
      invariant i <= |reached| && visited == |AllFiles(reached[..i])|
      invariant scanned == (if visited <= start then 0 else visited - start)
      invariant scanned <= ENUMERATE_SCAN_PAGE_LIMIT && |rows| < maximum
      invariant Progress(matches, files, start, maximum, scanned, rows, unreadable)
      invariant skips <==> exists k :: 0 <= k < i && walk[k].skipped
      invariant !expired
    {
      DirectoryIsReached(walk, i);
      if walk[i].expired {
        expired, complete, ending := true, false, Expired;
        return;
      }
      AllFilesNext(reached, i);
      skips := skips || walk[i].skipped;
      var stop: bool;
      visited, scanned, rows, unreadable, ending, stop :=
        VisitDirectory(matches, files, walk[i].files, predicate_, start, maximum, visited, scanned, rows, unreadable);
      if stop {
        complete := false;
        return;
      }
    }
    DeadlineNeverCame(walk);
    complete, ending := true, Exhausted;
  }

  method FileInventory<R>(rootReadable: bool, walk: seq<Directory<R>>, predicate_: Option<R -> bool>, start: nat,
                          maximum: nat)
    returns (page: Collected<R>)
    requires 1 <= maximum <= 500
    ensures !rootReadable ==> page == Collected([], true, 0, 0, start, None, true)
    ensures rootReadable ==> FilePage(Wanted(predicate_), walk, start, maximum, page)
  {
    if !rootReadable {
      return Collected([], true, 0, 0, start, None, true);
    }
    hide Ended, FilePage;
    var rows, scanned, skips, unreadable, expired, complete, ending :=
      WalkDirectories(walk, predicate_, start, maximum);
    page := Collected(rows, skips || unreadable || expired, scanned, |rows|, start + scanned, None, complete);
    EndsAsPage(walk, Wanted(predicate_), start, maximum, scanned, rows, unreadable, ending, page);
  }

  lemma NoFiles<R>(walk: seq<Directory<R>>)
    ensures AllFiles(walk[..0]) == []
  {
  }

  lemma WholeWalk<R>(walk: seq<Directory<R>>)
    ensures walk[..|walk|] == walk
  {
  }

  lemma EndsAsPage<R>(walk: seq<Directory<R>>, matches: R -> bool, start: nat, maximum: nat, scanned: nat, rows: seq<R>,
                      unreadable: bool, ending: Ending, page: Collected<R>)
    requires Ended(matches, AllFiles(BeforeDeadline(walk)), start, maximum, scanned, rows, unreadable, ending)
    requires maximum >= 1 && (ending.Expired? ==> Expires(walk)) && (ending.Exhausted? ==> !Expires(walk))
    requires page == Collected(rows, page.partial, scanned, |rows|, start + scanned, None, ending.Exhausted?)
    requires unreadable ==> page.partial
    requires page.partial ==> unreadable || ending.Expired? || Skips(walk)
    requires ending.Expired? ==> page.partial
    requires ending.Exhausted? && Skips(walk) ==> page.partial
    ensures FilePage(matches, walk, start, maximum, page)
  {
    var files := AllFiles(BeforeDeadline(walk));
    var first := First(start, |files|);
    WalkStops(matches, Nodes(files), first, first + scanned, maximum, ENUMERATE_SCAN_PAGE_LIMIT, rows);
  }

  /** What a page of the file walk is. */
  ghost predicate FilePage<R>(matches: R -> bool, walk: seq<Directory<R>>, start: nat, maximum: nat,
                              page: Collected<R>) {
    var files := AllFiles(BeforeDeadline(walk));
    var first := First(start, |files|);
    var end := ScanEnd(matches, Nodes(files), first, maximum, ENUMERATE_SCAN_PAGE_LIMIT);
    var unreadable := exists i :: first <= i < end && files[i].Unreadable?;
    && IsOffsetPage(matches, Nodes(files), start, maximum, page)
    && (page.complete <==> !Expires(walk) && end == |files| && |page.rows| < maximum)
    && (unreadable ==> page.partial)
    && (page.partial ==> Expires(walk) || Skips(walk) || unreadable)
    && (end == |files| && |page.rows| < maximum && (Expires(walk) || Skips(walk)) ==> page.partial)
  }
}
