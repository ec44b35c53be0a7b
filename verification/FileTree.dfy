/**
  The directory walk behind a page of files: what the helper makes of a directory tree, in which
  order, and what it leaves out and owns up to.
*/
module FileTree {
  import opened Ordering
  import opened Selection
  import opened TextOrder
  import opened FileScan

  const WALK_MAX_DEPTH: nat := 12

  /** What the helper learns of a directory before it goes down into it. */
  datatype Standing = Unknown | Link | Elsewhere | Plain

  datatype Folder<+R> = Folder(standing: Standing, tree: Tree<R>)

  /** A directory: whether it can be listed, its files, and the directories in it. */
  datatype Tree<+R> = Tree(listable: bool, files: map<string, FileNode<R>>, folders: map<string, Folder<R>>)

  /**
    What the system answers when a directory is listed: names in any order, and whether the
    deadline has passed by then.
  */
  datatype Names = Names(files: seq<string>, folders: seq<string>, late: bool)

  type Listing = seq<string> -> Names

  predicate Kept<R>(folder: Folder<R>, depth: nat) {
    folder.standing.Plain? && depth + 1 <= WALK_MAX_DEPTH
  }

  /** The system names every entry of every directory the walk goes into, and each once. */
  ghost predicate TrueListing<R>(tree: Tree<R>, listing: Listing, path: seq<string>, depth: nat)
    decreases WALK_MAX_DEPTH - depth
  {
    && multiset(listing(path).files) == multiset(tree.files.Keys)
    && multiset(listing(path).folders) == multiset(tree.folders.Keys)
    && forall name :: name in tree.folders && Kept(tree.folders[name], depth) ==>
         TrueListing(tree.folders[name].tree, listing, path + [name], depth + 1)
  }

  function SortedNames(names: seq<string>): (sorted: seq<string>)
    ensures forall name :: name in sorted <==> name in names
  {
    TextLeIsTotalOrder();
    SortIsPermutation(TextLe, names);
    SameElements(StableSort(TextLe, names), names);
    StableSort(TextLe, names)
  }

  lemma SameElements<T>(some: seq<T>, other: seq<T>)
    requires multiset(some) == multiset(other)
    ensures forall x :: x in some <==> x in other
  {
    forall x
      ensures x in some <==> x in other
    {
      assert x in multiset(some) <==> x in multiset(other);
    }
  }

  lemma NamesAreKeys<V>(names: seq<string>, entries: map<string, V>)
    requires multiset(names) == multiset(entries.Keys)
    ensures forall name :: name in names <==> name in entries
  {
    forall name
      ensures name in names <==> name in entries
    {
      assert name in multiset(names) <==> name in multiset(entries.Keys);
    }
  }

  function FilesNamed<R>(tree: Tree<R>, names: seq<string>): seq<FileNode<R>>
    requires forall name :: name in names ==> name in tree.files
  {
    seq(|names|, i requires 0 <= i < |names| => tree.files[names[i]])
  }

  predicate Prunes<R>(tree: Tree<R>, depth: nat) {
    exists name :: name in tree.folders && !Kept(tree.folders[name], depth)
  }

  predicate Enters<R>(tree: Tree<R>, depth: nat, name: string) {
    name in tree.folders && Kept(tree.folders[name], depth)
  }

  predicate EntersAll<R>(tree: Tree<R>, depth: nat, names: seq<string>) {
    forall i :: 0 <= i < |names| ==> Enters(tree, depth, names[i])
  }

  function GoesInto<R>(tree: Tree<R>, depth: nat): string -> bool {
    name => Enters(tree, depth, name)
  }

  /** Goes through the names of the directories and keeps those to go down into. */
  method KeepFolders<R>(tree: Tree<R>, names: seq<string>, depth: nat) returns (keep: seq<string>, skipped: bool)
    requires forall name :: name in names <==> name in tree.folders
    ensures keep == FoldersToVisit(tree, names, depth)
    ensures skipped <==> Prunes(tree, depth)
  {
    hide Keep;
    var sorted := SortedNames(names);
    keep, skipped := [], false;
    KeepNone(GoesInto(tree, depth), sorted[..0]);
    for i := 0 to |sorted|
      invariant keep == Keep(GoesInto(tree, depth), sorted[..i])
      invariant skipped <==> exists j :: 0 <= j < i && !Kept(tree.folders[sorted[j]], depth)
    {
      KeepNext(GoesInto(tree, depth), sorted, i);
      assert sorted[i] in sorted;
      if Kept(tree.folders[sorted[i]], depth) {
        keep := keep + [sorted[i]];
      } else {
        skipped := true;
      }
    }
    assert sorted[..|sorted|] == sorted;
    PrunesAmong(tree, sorted, depth);
  }

  lemma KeepNext<T>(wanted: T -> bool, s: seq<T>, i: nat)
    requires i < |s|
    ensures Keep(wanted, s[..i + 1]) == if wanted(s[i]) then Keep(wanted, s[..i]) + [s[i]] else Keep(wanted, s[..i])
  {
    assert s[..i + 1] == s[..i] + [s[i]];
    KeepOfBoth(wanted, s[..i], [s[i]]);
  }

  lemma PrunesAmong<R>(tree: Tree<R>, names: seq<string>, depth: nat)
    requires forall name :: name in names <==> name in tree.folders
    ensures Prunes(tree, depth) <==> exists j :: 0 <= j < |names| && !Kept(tree.folders[names[j]], depth)
  {
    if Prunes(tree, depth) {
      var name :| name in tree.folders && !Kept(tree.folders[name], depth);
      assert name in names;
    }
    if j :| 0 <= j < |names| && !Kept(tree.folders[names[j]], depth) {
      assert names[j] in names;
    }
  }

  function FoldersToVisit<R>(tree: Tree<R>, names: seq<string>, depth: nat): (visit: seq<string>)
    ensures EntersAll(tree, depth, visit)
    ensures forall name :: name in visit <==> name in names && Enters(tree, depth, name)
  {
    KeepMembers(GoesInto(tree, depth), SortedNames(names));
    var visit := Keep(GoesInto(tree, depth), SortedNames(names));
    assert forall i :: 0 <= i < |visit| ==> visit[i] in visit;
    visit
  }

  // ---- The walk ----

  /** A directory before the directories in it, and those by name. */
  function WalkOf<R>(tree: Tree<R>, listing: Listing, path: seq<string>, depth: nat): seq<Directory<R>>
    requires TrueListing(tree, listing, path, depth)
    decreases WALK_MAX_DEPTH - depth, 1, 0
  {
    if !tree.listable then [Directory(false, true, [])]
    else
      var names := listing(path);
      NamesAreKeys(names.files, tree.files);
      [Directory(names.late, Prunes(tree, depth), FilesNamed(tree, SortedNames(names.files)))]
      + WalkBelow(tree, FoldersToVisit(tree, names.folders, depth), listing, path, depth)
  }

  function WalkBelow<R>(tree: Tree<R>, names: seq<string>, listing: Listing, path: seq<string>,
                        depth: nat): seq<Directory<R>>
    requires TrueListing(tree, listing, path, depth) && EntersAll(tree, depth, names)
    decreases WALK_MAX_DEPTH - depth, 0, |names|
  {
    if names == [] then []
    else
      WalkOf(tree.folders[names[0]].tree, listing, path + [names[0]], depth + 1)
      + WalkBelow(tree, names[1..], listing, path, depth)
  }

  // ---- The system's order does not matter ----

  /** Two listings of the same directories that agree about the deadline. */
  ghost predicate SameDeadline(some: Listing, other: Listing) {
    forall path :: some(path).late == other(path).late
  }

  lemma SortedNamesAgree<V>(some: seq<string>, other: seq<string>, entries: map<string, V>)
    requires multiset(some) == multiset(entries.Keys) == multiset(other)
    ensures SortedNames(some) == SortedNames(other)
  {
    TextLeIsTotalOrder();
    SortIgnoresArrivalOrder(TextLe, some, other);
  }

  /**
    In whatever order the system lists the entries of a directory, the walk is the same: an offset
    counts the same files on every page.
  */
  lemma {:induction false} ListingOrderDoesNotMatter<R>(tree: Tree<R>, some: Listing, other: Listing, path: seq<string>,
                                                        depth: nat)
    requires TrueListing(tree, some, path, depth) && TrueListing(tree, other, path, depth) && SameDeadline(some, other)
    ensures WalkOf(tree, some, path, depth) == WalkOf(tree, other, path, depth)
    decreases WALK_MAX_DEPTH - depth, 1, 0
  {
    if tree.listable {
      SortedNamesAgree(some(path).files, other(path).files, tree.files);
      SortedNamesAgree(some(path).folders, other(path).folders, tree.folders);
      hide SortedNames, Prunes, TrueListing;
      OrderBelowDoesNotMatter(tree, FoldersToVisit(tree, some(path).folders, depth), some, other, path, depth);
    }
  }

  lemma {:induction false} OrderBelowDoesNotMatter<R>(tree: Tree<R>, names: seq<string>, some: Listing, other: Listing,
                                                      path: seq<string>, depth: nat)
    requires TrueListing(tree, some, path, depth) && TrueListing(tree, other, path, depth) && SameDeadline(some, other)
    requires EntersAll(tree, depth, names)
    ensures WalkBelow(tree, names, some, path, depth) == WalkBelow(tree, names, other, path, depth)
    decreases WALK_MAX_DEPTH - depth, 0, |names|
  {
    hide WalkOf;
    if names != [] {
      ListingOrderDoesNotMatter(tree.folders[names[0]].tree, some, other, path + [names[0]], depth + 1);
      OrderBelowDoesNotMatter(tree, names[1..], some, other, path, depth);
    }
  }

  // ---- What the walk holds ----

  /** A file lies at a path through directories that can be listed and are gone into. */
  ghost predicate LiesAt<R>(tree: Tree<R>, path: seq<string>, depth: nat, file: FileNode<R>)
    decreases |path|
  {
    && path != [] && tree.listable
    && if |path| == 1 then path[0] in tree.files && tree.files[path[0]] == file
       else Enters(tree, depth, path[0]) && LiesAt(tree.folders[path[0]].tree, path[1..], depth + 1, file)
  }

  /** Something is left out at a path: a directory that cannot be listed, or one in it that is not gone into. */
  ghost predicate CutOffAt<R>(tree: Tree<R>, path: seq<string>, depth: nat)
    decreases |path|
  {
    if path == [] then !tree.listable || Prunes(tree, depth)
    else tree.listable && Enters(tree, depth, path[0]) && CutOffAt(tree.folders[path[0]].tree, path[1..], depth + 1)
  }

  lemma AllFilesOfBoth<R>(some: seq<Directory<R>>, other: seq<Directory<R>>, file: FileNode<R>)
    ensures file in AllFiles(some + other) <==> file in AllFiles(some) || file in AllFiles(other)
    ensures Skips(some + other) <==> Skips(some) || Skips(other)
  {
    AllFilesAppend(some, other);
    hide AllFiles;
    assert forall i :: 0 <= i < |some| ==> (some + other)[i] == some[i];
    assert forall i :: 0 <= i < |other| ==> (some + other)[|some| + i] == other[i];
  }

  lemma FilesOfADirectory<R>(tree: Tree<R>, names: seq<string>, file: FileNode<R>)
    requires multiset(names) == multiset(tree.files.Keys)
    ensures (forall name :: name in names ==> name in tree.files)
    ensures file in FilesNamed(tree, SortedNames(names)) <==> exists name ::
      name in tree.files && tree.files[name] == file
  {
    NamesAreKeys(names, tree.files);
    var sorted := SortedNames(names);
    if file in FilesNamed(tree, sorted) {
      var i :| 0 <= i < |sorted| && tree.files[sorted[i]] == file;
      assert sorted[i] in sorted;
    }
    if name :| name in tree.files && tree.files[name] == file {
      assert name in sorted;
      var i :| 0 <= i < |sorted| && sorted[i] == name;
      assert FilesNamed(tree, sorted)[i] == file;
    }
  }

  /** The walk's first directory, and the walks below it. */
  lemma WalkUnfolds<R>(tree: Tree<R>, listing: Listing, path: seq<string>, depth: nat, file: FileNode<R>)
    requires TrueListing(tree, listing, path, depth) && tree.listable
    ensures (forall name :: name in FoldersToVisit(tree, listing(path).folders, depth) <==> Enters(tree, depth, name))
    ensures var below := WalkBelow(tree, FoldersToVisit(tree, listing(path).folders, depth), listing, path, depth);
      && (file in AllFiles(WalkOf(tree, listing, path, depth)) <==>
            (exists name :: name in tree.files && tree.files[name] == file) || file in AllFiles(below))
      && (Skips(WalkOf(tree, listing, path, depth)) <==> Prunes(tree, depth) || Skips(below))
  {
    var names := listing(path);
    NamesAreKeys(names.files, tree.files);
    NamesAreKeys(names.folders, tree.folders);
    FilesOfADirectory(tree, names.files, file);
    hide AllFiles, SortedNames, Prunes, WalkBelow;
    var here := Directory(names.late, Prunes(tree, depth), FilesNamed(tree, SortedNames(names.files)));
    AllFilesOfOne(here);
    assert Skips([here]) <==> here.skipped;
    AllFilesOfBoth([here], WalkBelow(tree, FoldersToVisit(tree, names.folders, depth), listing, path, depth), file);
  }

  lemma NothingFromAnUnlistedDirectory<R>(tree: Tree<R>, listing: Listing, path: seq<string>, depth: nat)
    requires TrueListing(tree, listing, path, depth) && !tree.listable
    ensures AllFiles(WalkOf(tree, listing, path, depth)) == [] && Skips(WalkOf(tree, listing, path, depth))
  {
    var walk := WalkOf(tree, listing, path, depth);
    assert walk == [Directory(false, true, [])] && walk[0].skipped;
    AllFilesOfOne(walk[0]);
  }

  ghost predicate LiesSomewhere<R>(tree: Tree<R>, depth: nat, file: FileNode<R>) {
    exists path :: LiesAt(tree, path, depth, file)
  }

  ghost predicate CutOffSomewhere<R>(tree: Tree<R>, depth: nat) {
    exists path :: CutOffAt(tree, path, depth)
  }

  lemma LiesHereOrBelow<R>(tree: Tree<R>, depth: nat, file: FileNode<R>)
    ensures LiesSomewhere(tree, depth, file) <==>
      tree.listable && (|| (exists name :: name in tree.files && tree.files[name] == file)
                        || (exists name ::
                              Enters(tree, depth, name) && LiesSomewhere(tree.folders[name].tree, depth + 1, file)))
  {
    if path :| LiesAt(tree, path, depth, file) {
      if |path| > 1 {
        assert LiesAt(tree.folders[path[0]].tree, path[1..], depth + 1, file);
      }
    }
    if name :| tree.listable && name in tree.files && tree.files[name] == file {
      assert LiesAt(tree, [name], depth, file);
    }
    if name :| tree.listable && Enters(tree, depth, name) && LiesSomewhere(tree.folders[name].tree, depth + 1, file) {
      var path :| LiesAt(tree.folders[name].tree, path, depth + 1, file);
      assert ([name] + path)[1..] == path;
      assert LiesAt(tree, [name] + path, depth, file);
    }
  }

  lemma CutOffHereOrBelow<R>(tree: Tree<R>, depth: nat)
    ensures CutOffSomewhere(tree, depth) <==>
      || !tree.listable || Prunes(tree, depth)
      || (exists name :: Enters(tree, depth, name) && CutOffSomewhere(tree.folders[name].tree, depth + 1))
  {
    if path :| CutOffAt(tree, path, depth) {
      if path != [] {
        assert CutOffAt(tree.folders[path[0]].tree, path[1..], depth + 1);
      }
    }
    if !tree.listable || Prunes(tree, depth) {
      assert CutOffAt(tree, [], depth);
    } else if name :| Enters(tree, depth, name) && CutOffSomewhere(tree.folders[name].tree, depth + 1) {
      var path :| CutOffAt(tree.folders[name].tree, path, depth + 1);
      assert ([name] + path)[1..] == path;
      assert CutOffAt(tree, [name] + path, depth);
    }
  }

  /**
    The walk holds exactly the files that lie at a path through directories it goes into, and owns up
    to a skip exactly when at some such path a directory cannot be listed or one in it is left out.
  */
  lemma {:induction false} WalkHoldsWhatItReaches<R>(tree: Tree<R>, listing: Listing, path: seq<string>, depth: nat,
                                                     file: FileNode<R>)
    requires TrueListing(tree, listing, path, depth)
    ensures file in AllFiles(WalkOf(tree, listing, path, depth)) <==> LiesSomewhere(tree, depth, file)
    ensures Skips(WalkOf(tree, listing, path, depth)) <==> CutOffSomewhere(tree, depth)
    decreases WALK_MAX_DEPTH - depth, 1, 0
  {
    hide AllFiles, WalkOf, WalkBelow, FoldersToVisit, LiesSomewhere, CutOffSomewhere, Skips, Prunes, Enters;
    LiesHereOrBelow(tree, depth, file);
    CutOffHereOrBelow(tree, depth);
    if !tree.listable {
      NothingFromAnUnlistedDirectory(tree, listing, path, depth);
    } else {
      WalkUnfolds(tree, listing, path, depth, file);
      HoldsBelow(tree, FoldersToVisit(tree, listing(path).folders, depth), listing, path, depth, file);
    }
  }

  lemma {:induction false} HoldsBelow<R>(tree: Tree<R>, names: seq<string>, listing: Listing, path: seq<string>,
                                         depth: nat, file: FileNode<R>)
    requires TrueListing(tree, listing, path, depth) && EntersAll(tree, depth, names)
    ensures file in AllFiles(WalkBelow(tree, names, listing, path, depth)) <==>
      exists name :: name in names && Enters(tree, depth, name)
        && LiesSomewhere(tree.folders[name].tree, depth + 1, file)
    ensures Skips(WalkBelow(tree, names, listing, path, depth)) <==>
      exists name :: name in names && Enters(tree, depth, name) && CutOffSomewhere(tree.folders[name].tree, depth + 1)
    decreases WALK_MAX_DEPTH - depth, 0, |names|
  {
    hide WalkOf, LiesSomewhere, CutOffSomewhere;
    if names != [] {
      var child := tree.folders[names[0]].tree;
      assert names == [names[0]] + names[1..];
      WalkHoldsWhatItReaches(child, listing, path + [names[0]], depth + 1, file);
      HoldsBelow(tree, names[1..], listing, path, depth, file);
      AllFilesOfBoth(WalkOf(child, listing, path + [names[0]], depth + 1),
                     WalkBelow(tree, names[1..], listing, path, depth), file);
    }
  }

  // ---- The same, read off the tree ----

  /** A path leads to a file through directories that can be listed, are no links and lie on the same file system. */
  ghost predicate Leads<R>(tree: Tree<R>, path: seq<string>, file: FileNode<R>)
    decreases |path|
  {
    && path != [] && tree.listable
    && if |path| == 1 then path[0] in tree.files && tree.files[path[0]] == file
       else path[0] in tree.folders && tree.folders[path[0]].standing == Plain
            && Leads(tree.folders[path[0]].tree, path[1..], file)
  }

  /** The same for a directory. */
  ghost predicate LeadsTo<R>(tree: Tree<R>, dirs: seq<string>, end: Tree<R>)
    decreases |dirs|
  {
    if dirs == [] then end == tree
    else
      && tree.listable && dirs[0] in tree.folders && tree.folders[dirs[0]].standing == Plain
      && LeadsTo(tree.folders[dirs[0]].tree, dirs[1..], end)
  }

  lemma {:induction false} LiesAtMeans<R>(tree: Tree<R>, path: seq<string>, depth: nat, file: FileNode<R>)
    ensures LiesAt(tree, path, depth, file) <==> Leads(tree, path, file) && (|path| > 1 ==> depth + |path| <= 13)
    decreases |path|
  {
    if |path| > 1 && path[0] in tree.folders {
      LiesAtMeans(tree.folders[path[0]].tree, path[1..], depth + 1, file);
    }
  }

  /** A directory that cannot be listed, or with a directory in it that is a link, elsewhere, unknown or too deep. */
  predicate LeavesOut<R>(end: Tree<R>, depth: nat) {
    !end.listable || exists name :: name in end.folders && (end.folders[name].standing != Plain || depth >= 12)
  }

  /** A path leads to such a directory. */
  ghost predicate EndsShort<R(!new)>(tree: Tree<R>, dirs: seq<string>, depth: nat) {
    exists end: Tree<R> :: LeadsTo(tree, dirs, end) && LeavesOut(end, depth)
  }

  lemma EndsShortBelow<R(!new)>(tree: Tree<R>, dirs: seq<string>, depth: nat)
    requires dirs != []
    ensures EndsShort(tree, dirs, depth) <==>
      && tree.listable && dirs[0] in tree.folders && tree.folders[dirs[0]].standing.Plain?
      && EndsShort(tree.folders[dirs[0]].tree, dirs[1..], depth)
  {
    hide LeavesOut;
    if tree.listable && dirs[0] in tree.folders && tree.folders[dirs[0]].standing.Plain? {
      var below := tree.folders[dirs[0]].tree;
      if end: Tree<R> :| LeadsTo(below, dirs[1..], end) && LeavesOut(end, depth) {
        assert LeadsTo(tree, dirs, end);
      }
    }
  }

  lemma {:induction false} CutOffMeans<R(!new)>(tree: Tree<R>, dirs: seq<string>, depth: nat)
    ensures CutOffAt(tree, dirs, depth) <==>
      (dirs != [] ==> depth + |dirs| <= 12) && EndsShort(tree, dirs, depth + |dirs|)
    decreases |dirs|
  {
    if dirs == [] {
      assert Prunes(tree, depth) <==>
        exists name :: name in tree.folders && (tree.folders[name].standing != Plain || depth >= 12);
      assert LeadsTo(tree, [], tree);
    } else {
      hide EndsShort, Prunes;
      EndsShortBelow(tree, dirs, depth + |dirs|);
      if dirs[0] in tree.folders {
        CutOffMeans(tree.folders[dirs[0]].tree, dirs[1..], depth + 1);
      }
    }
  }

  /**
    The walk from a root holds exactly the files at the end of a path of at most 12 directories,
    none of them a link or elsewhere.
  */
  lemma WalkHoldsWhatPathsLeadTo<R(!new)>(tree: Tree<R>, listing: Listing, file: FileNode<R>)
    requires TrueListing(tree, listing, [], 0)
    ensures file in AllFiles(WalkOf(tree, listing, [], 0)) <==> exists path :: |path| <= 13 && Leads(tree, path, file)
  {
    hide WalkOf, AllFiles, Skips, LiesAt, Leads;
    WalkHoldsWhatItReaches(tree, listing, [], 0, file);
    forall path
      ensures LiesAt(tree, path, 0, file) <==> |path| <= 13 && Leads(tree, path, file)
    {
      LiesAtMeans(tree, path, 0, file);
    }
  }

  /** And it owns up to a skip exactly if something at such a place is left out. */
  lemma WalkOwnsUpToWhatIsLeftOut<R(!new)>(tree: Tree<R>, listing: Listing)
    requires TrueListing(tree, listing, [], 0)
    ensures Skips(WalkOf(tree, listing, [], 0)) <==> exists dirs :: |dirs| <= 12 && EndsShort(tree, dirs, |dirs|)
  {
    hide WalkOf, AllFiles, Skips, CutOffAt, EndsShort;
    WalkHoldsWhatItReaches(tree, listing, [], 0, Irregular);
    forall dirs
      ensures CutOffAt(tree, dirs, 0) <==> |dirs| <= 12 && EndsShort(tree, dirs, |dirs|)
    {
      CutOffMeans(tree, dirs, 0);
    }
  }
}
