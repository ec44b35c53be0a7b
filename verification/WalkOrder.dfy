/** The order of the directory walk: which directory comes when, and what each contributes. */
module WalkOrder {
  import opened Ordering
  import opened Selection
  import opened TextOrder
  import opened FileScan
  import opened FileTree

  function Above(): (string, string) -> bool {
    (a: string, b: string) => a != b && TextLe(a, b)
  }

  /** A path before those it begins, and otherwise the first name by which two paths differ decides. */
  predicate PathBefore(a: seq<string>, b: seq<string>) {
    if a == [] then b != []
    else b != [] && if a[0] == b[0] then PathBefore(a[1..], b[1..]) else TextLe(a[0], b[0])
  }

  ghost predicate PathsAscend(paths: seq<seq<string>>) {
    forall i, j :: 0 <= i < j < |paths| ==> PathBefore(paths[i], paths[j])
  }

  /** The files of a directory, each once and in the order of their names. */
  ghost predicate ByName<R>(end: Tree<R>, files: seq<FileNode<R>>, names: seq<string>) {
    && |names| == |files| && Ordered(Above(), names)
    && (forall name :: name in names <==> name in end.files)
    && forall i :: 0 <= i < |names| ==> names[i] in end.files && files[i] == end.files[names[i]]
  }

  /** What the walk makes of one directory. */
  ghost predicate Describes<R>(d: Directory<R>, end: Tree<R>, late: bool, depth: nat) {
    if !end.listable then d == Directory(false, true, [])
    else d.expired == late && (d.skipped <==> LeavesOut(end, depth)) && exists names :: ByName(end, d.files, names)
  }

  /** The directory at the end of a path, as the walk that starts at depth `depth` under `path` makes it. */
  ghost predicate Visited<R(!new)>(tree: Tree<R>, listing: Listing, path: seq<string>, depth: nat, dirs: seq<string>,
                                   d: Directory<R>) {
    exists end: Tree<R> :: LeadsTo(tree, dirs, end) && Describes(d, end, listing(path + dirs).late, depth + |dirs|)
  }

  ghost predicate IsThere<R(!new)>(tree: Tree<R>, dirs: seq<string>) {
    exists end: Tree<R> :: LeadsTo(tree, dirs, end)
  }

  function Under(name: string, paths: seq<seq<string>>): seq<seq<string>> {
    seq(|paths|, i requires 0 <= i < |paths| => [name] + paths[i])
  }

  /** Where each directory of the walk lies. */
  ghost function PathsOf<R>(tree: Tree<R>, listing: Listing, path: seq<string>, depth: nat): seq<seq<string>>
    requires TrueListing(tree, listing, path, depth)
    decreases WALK_MAX_DEPTH - depth, 1, 0
  {
    if !tree.listable then [[]]
    else [[]] + PathsBelow(tree, FoldersToVisit(tree, listing(path).folders, depth), listing, path, depth)
  }

  ghost function PathsBelow<R>(tree: Tree<R>, names: seq<string>, listing: Listing, path: seq<string>,
                               depth: nat): seq<seq<string>>
    requires TrueListing(tree, listing, path, depth) && EntersAll(tree, depth, names)
    decreases WALK_MAX_DEPTH - depth, 0, |names|
  {
    if names == [] then []
    else
      Under(names[0], PathsOf(tree.folders[names[0]].tree, listing, path + [names[0]], depth + 1))
      + PathsBelow(tree, names[1..], listing, path, depth)
  }

  // ---- Names come in order ----

  lemma SortedNamesAscend<V>(names: seq<string>, entries: map<string, V>)
    requires multiset(names) == multiset(entries.Keys)
    ensures Ordered(Above(), SortedNames(names))
  {
    TextLeIsTotalOrder();
    SortIsPermutation(TextLe, names);
    SortIsOrdered(TextLe, names);
    var sorted := SortedNames(names);
    hide StableSort, SortedNames, TextLe;
    forall i, j | 0 <= i < j < |sorted|
      ensures Above()(sorted[i], sorted[j])
    {
      if sorted[i] == sorted[j] {
        TwiceCountsTwo(sorted, i, j);
      }
    }
  }

  lemma FoldersAscend<R>(tree: Tree<R>, names: seq<string>, depth: nat)
    requires multiset(names) == multiset(tree.folders.Keys)
    ensures Ordered(Above(), FoldersToVisit(tree, names, depth))
  {
    SortedNamesAscend(names, tree.folders);
    KeepStaysOrdered(Above(), GoesInto(tree, depth), SortedNames(names));
  }

  // ---- Where the directories lie ----

  lemma FilesComeByName<R>(tree: Tree<R>, names: seq<string>)
    requires multiset(names) == multiset(tree.files.Keys)
    ensures (forall name :: name in SortedNames(names) ==> name in tree.files)
    ensures ByName(tree, FilesNamed(tree, SortedNames(names)), SortedNames(names))
  {
    NamesAreKeys(names, tree.files);
    SortedNamesAscend(names, tree.files);
    var sorted := SortedNames(names);
    hide SortedNames, Above;
    assert forall i :: 0 <= i < |sorted| ==> sorted[i] in sorted;
  }

  lemma FirstIsDescribed<R(!new)>(tree: Tree<R>, listing: Listing, path: seq<string>, depth: nat)
    requires TrueListing(tree, listing, path, depth)
    ensures var walk := WalkOf(tree, listing, path, depth);
      walk != [] && Visited(tree, listing, path, depth, [], walk[0])
  {
    var d := WalkOf(tree, listing, path, depth)[0];
    assert path + [] == path && LeadsTo(tree, [], tree);
    hide WalkBelow;
    if tree.listable {
      FilesComeByName(tree, listing(path).files);
      assert d.skipped <==> LeavesOut(tree, depth);
      hide SortedNames, Prunes, LeavesOut, ByName, FilesNamed;
    }
    assert Describes(d, tree, listing(path).late, depth);
  }

  lemma VisitedBelow<R(!new)>(tree: Tree<R>, listing: Listing, path: seq<string>, depth: nat, name: string,
                              dirs: seq<string>, d: Directory<R>)
    requires tree.listable && Enters(tree, depth, name)
    requires Visited(tree.folders[name].tree, listing, path + [name], depth + 1, dirs, d)
    ensures Visited(tree, listing, path, depth, [name] + dirs, d)
  {
    hide Describes;
    var end: Tree<R> :| LeadsTo(tree.folders[name].tree, dirs, end)
      && Describes(d, end, listing(path + [name] + dirs).late, depth + 1 + |dirs|);
    assert ([name] + dirs)[1..] == dirs && path + [name] + dirs == path + ([name] + dirs);
    assert LeadsTo(tree, [name] + dirs, end);
  }

  /** Entry for entry, the walk describes the directory at its path. */
  lemma {:induction false} PathsAreDescribed<R(!new)>(tree: Tree<R>, listing: Listing, path: seq<string>, depth: nat)
    requires TrueListing(tree, listing, path, depth)
    ensures AllVisited(tree, listing, path, depth, PathsOf(tree, listing, path, depth),
                       WalkOf(tree, listing, path, depth))
    decreases WALK_MAX_DEPTH - depth, 1, 0
  {
    hide Visited, WalkBelow, PathsBelow, FoldersToVisit;
    FirstIsDescribed(tree, listing, path, depth);
    if tree.listable {
      var names := FoldersToVisit(tree, listing(path).folders, depth);
      PathsBelowAreDescribed(tree, names, listing, path, depth);
    }
  }

  ghost predicate AllVisited<R(!new)>(tree: Tree<R>, listing: Listing, path: seq<string>, depth: nat,
                                      paths: seq<seq<string>>, walk: seq<Directory<R>>) {
    |paths| == |walk| && forall i :: 0 <= i < |walk| ==> Visited(tree, listing, path, depth, paths[i], walk[i])
  }

  lemma AllVisitedBelow<R(!new)>(tree: Tree<R>, listing: Listing, path: seq<string>, depth: nat, name: string,
                                 paths: seq<seq<string>>, walk: seq<Directory<R>>)
    requires tree.listable && Enters(tree, depth, name)
    requires AllVisited(tree.folders[name].tree, listing, path + [name], depth + 1, paths, walk)
    ensures AllVisited(tree, listing, path, depth, Under(name, paths), walk)
  {
    hide Visited, Enters;
    forall i | 0 <= i < |walk|
      ensures Visited(tree, listing, path, depth, Under(name, paths)[i], walk[i])
    {
      VisitedBelow(tree, listing, path, depth, name, paths[i], walk[i]);
    }
  }

  lemma {:induction false} PathsBelowAreDescribed<R(!new)>(tree: Tree<R>, names: seq<string>, listing: Listing,
                                                           path: seq<string>, depth: nat)
    requires TrueListing(tree, listing, path, depth) && EntersAll(tree, depth, names) && tree.listable
    ensures AllVisited(tree, listing, path, depth, PathsBelow(tree, names, listing, path, depth),
                       WalkBelow(tree, names, listing, path, depth))
    decreases WALK_MAX_DEPTH - depth, 0, |names|
  {
    hide Visited, WalkOf, PathsOf;
    if names != [] {
      var below := tree.folders[names[0]].tree;
      PathsAreDescribed(below, listing, path + [names[0]], depth + 1);
      PathsBelowAreDescribed(tree, names[1..], listing, path, depth);
      AllVisitedBelow(tree, listing, path, depth, names[0], PathsOf(below, listing, path + [names[0]], depth + 1),
                      WalkOf(below, listing, path + [names[0]], depth + 1));
    }
  }

  // ---- Every directory is there ----

  lemma UnderMembers(name: string, paths: seq<seq<string>>, dirs: seq<string>)
    ensures dirs in Under(name, paths) <==> dirs != [] && dirs[0] == name && dirs[1..] in paths
  {
    if dirs != [] && dirs[0] == name && dirs[1..] in paths {
      var i :| 0 <= i < |paths| && paths[i] == dirs[1..];
      assert Under(name, paths)[i] == dirs;
    }
  }

  lemma IsThereBelow<R(!new)>(tree: Tree<R>, dirs: seq<string>)
    ensures IsThere(tree, dirs) <==>
      || dirs == []
      || (tree.listable && dirs[0] in tree.folders && tree.folders[dirs[0]].standing.Plain?
          && IsThere(tree.folders[dirs[0]].tree, dirs[1..]))
  {
    if dirs == [] {
      assert LeadsTo(tree, [], tree);
    } else if tree.listable && dirs[0] in tree.folders && tree.folders[dirs[0]].standing.Plain? {
      var below := tree.folders[dirs[0]].tree;
      if end: Tree<R> :| LeadsTo(below, dirs[1..], end) {
        assert LeadsTo(tree, dirs, end);
      }
      if end: Tree<R> :| LeadsTo(tree, dirs, end) {
        assert LeadsTo(below, dirs[1..], end);
      }
    }
  }

  lemma {:induction false} PathsAreAll<R(!new)>(tree: Tree<R>, listing: Listing, path: seq<string>, depth: nat,
                                                dirs: seq<string>)
    requires TrueListing(tree, listing, path, depth)
    ensures dirs in PathsOf(tree, listing, path, depth) <==>
      IsThere(tree, dirs) && (dirs != [] ==> depth + |dirs| <= 12)
    decreases WALK_MAX_DEPTH - depth, 1, 0
  {
    hide IsThere, PathsBelow, FoldersToVisit;
    IsThereBelow(tree, dirs);
    if tree.listable {
      NamesAreKeys(listing(path).folders, tree.folders);
      PathsBelowAreAll(tree, FoldersToVisit(tree, listing(path).folders, depth), listing, path, depth, dirs);
    }
  }

  lemma {:induction false} PathsBelowAreAll<R(!new)>(tree: Tree<R>, names: seq<string>, listing: Listing,
                                                     path: seq<string>, depth: nat, dirs: seq<string>)
    requires TrueListing(tree, listing, path, depth) && EntersAll(tree, depth, names)
    ensures dirs in PathsBelow(tree, names, listing, path, depth) <==>
      && dirs != [] && dirs[0] in names && Enters(tree, depth, dirs[0])
      && IsThere(tree.folders[dirs[0]].tree, dirs[1..]) && depth + |dirs| <= 12
    decreases WALK_MAX_DEPTH - depth, 0, |names|
  {
    hide IsThere, PathsOf;
    if names != [] {
      var below := tree.folders[names[0]].tree;
      assert names == [names[0]] + names[1..];
      if dirs != [] {
        PathsAreAll(below, listing, path + [names[0]], depth + 1, dirs[1..]);
      }
      UnderMembers(names[0], PathsOf(below, listing, path + [names[0]], depth + 1), dirs);
      PathsBelowAreAll(tree, names[1..], listing, path, depth, dirs);
    }
  }

  // ---- They come in order ----

  lemma UnderAscends(name: string, paths: seq<seq<string>>)
    requires PathsAscend(paths)
    ensures PathsAscend(Under(name, paths))
  {
    var under := Under(name, paths);
    forall i, j | 0 <= i < j < |under|
      ensures PathBefore(under[i], under[j])
    {
      assert under[i][1..] == paths[i] && under[j][1..] == paths[j];
    }
  }

  lemma {:induction false} PathsAreInOrder<R>(tree: Tree<R>, listing: Listing, path: seq<string>, depth: nat)
    requires TrueListing(tree, listing, path, depth)
    ensures PathsAscend(PathsOf(tree, listing, path, depth))
    decreases WALK_MAX_DEPTH - depth, 1, 0
  {
    hide PathsBelow, FoldersToVisit;
    if tree.listable {
      var names := FoldersToVisit(tree, listing(path).folders, depth);
      FoldersAscend(tree, listing(path).folders, depth);
      PathsBelowAreInOrder(tree, names, listing, path, depth);
    }
  }

  ghost predicate BeginIn(paths: seq<seq<string>>, names: seq<string>) {
    forall i :: 0 <= i < |paths| ==> paths[i] != [] && paths[i][0] in names
  }

  lemma JoinedInOrder(names: seq<string>, first: seq<seq<string>>, rest: seq<seq<string>>)
    requires names != [] && Ordered(Above(), names) && PathsAscend(first) && PathsAscend(rest)
    requires BeginIn(rest, names[1..])
    ensures PathsAscend(Under(names[0], first) + rest) && BeginIn(Under(names[0], first) + rest, names)
  {
    UnderAscends(names[0], first);
    var under := Under(names[0], first);
    hide TextLe;
    forall i, j | 0 <= i < |first| && 0 <= j < |rest|
      ensures PathBefore(under[i], rest[j])
    {
      assert rest[j][0] in names[1..];
      var k :| 0 <= k < |names[1..]| && names[1..][k] == rest[j][0];
      assert names[k + 1] == rest[j][0] && Above()(names[0], names[k + 1]);
    }
  }

  lemma {:induction false} PathsBelowAreInOrder<R>(tree: Tree<R>, names: seq<string>, listing: Listing,
                                                   path: seq<string>, depth: nat)
    requires TrueListing(tree, listing, path, depth) && EntersAll(tree, depth, names) && Ordered(Above(), names)
    ensures var paths := PathsBelow(tree, names, listing, path, depth);
      PathsAscend(paths) && BeginIn(paths, names)
    decreases WALK_MAX_DEPTH - depth, 0, |names|
  {
    hide PathsOf;
    if names != [] {
      hide PathsAscend, BeginIn, Under;
      assert Ordered(Above(), names[1..]);
      var below := tree.folders[names[0]].tree;
      PathsAreInOrder(below, listing, path + [names[0]], depth + 1);
      PathsBelowAreInOrder(tree, names[1..], listing, path, depth);
      JoinedInOrder(names, PathsOf(below, listing, path + [names[0]], depth + 1),
                    PathsBelow(tree, names[1..], listing, path, depth));
    }
  }

  /**
    The walk from a root, directory by directory: it visits exactly the directories at the end of a path
    of at most 12, each once, before those in it and by name, and lists the files of each by name.
  */
  lemma WalkGoesInOrder<R(!new)>(tree: Tree<R>, listing: Listing) returns (paths: seq<seq<string>>)
    requires TrueListing(tree, listing, [], 0)
    ensures AllVisited(tree, listing, [], 0, paths, WalkOf(tree, listing, [], 0))
    ensures PathsAscend(paths)
    ensures forall dirs :: dirs in paths <==> |dirs| <= 12 && IsThere(tree, dirs)
  {
    hide WalkOf, PathsOf, AllVisited, IsThere, PathsAscend, TrueListing;
    paths := PathsOf(tree, listing, [], 0);
    PathsAreDescribed(tree, listing, [], 0);
    PathsAreInOrder(tree, listing, [], 0);
    forall dirs
      ensures dirs in paths <==> |dirs| <= 12 && IsThere(tree, dirs)
    {
      PathsAreAll(tree, listing, [], 0, dirs);
    }
  }
}
