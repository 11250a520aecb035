/** The exported walks of shared folders, and the replacement they stand for:
    the one-pass walk gives what the plain walk and the collector give in two. */
module SharedWalks {
  import opened Wrappers
  import opened NameOrder
  import opened DirTree
  import opened DirPaths
  import opened EmptyDirs
  import opened DirWalk
  import opened DirReach

  /** What a listing of files has to hold: only files that may be shown, all of
      them unless the limit is used up. */
  ghost predicate Lists(out: seq<FileEntry>, truncated: bool, root: Node, rel: string, base: nat, limit: nat, cap: Cap) {
    && (forall f :: f in out ==> Shown(root, rel, base, cap, f))
    && (!truncated ==> forall f :: Shown(root, rel, base, cap, f) ==> f in out)
    && (truncated ==> |out| == limit) && |out| <= limit
  }

  lemma FoundLists(out: seq<FileEntry>, root: Node, rel: string, base: nat, limit: nat, cap: Cap)
    requires WellNamed(root)
    requires var files := FoundIn(root, rel, base, limit, cap).files; SameElements(out, files) && |out| == |files|
    ensures Lists(out, FoundIn(root, rel, base, limit, cap).truncated, root, rel, base, limit, cap)
  {
    FoundFiles(root, rel, base, limit, cap);
  }

  lemma NoDirectory(root: Node, rel: string, base: nat, limit: nat, cap: Cap)
    requires !root.Dir?
    ensures Lists([], false, root, rel, base, limit, cap)
  {}

  /** And a listing of directories on their own. */
  ghost predicate ListsEmpty(empty: seq<ZipDir>, root: Node, base: nat, cap: Cap) {
    Sorted(empty, ZipName) && forall z :: z in empty <==> ShownEmpty(root, base, cap, z)
  }

  /** walkSharedDir: sorted unless cut short. */
  method WalkSharedDir(root: Node, rel: string, limit: nat, cap: Cap) returns (out: seq<FileEntry>, truncated: bool)
    requires WellNamed(root)
    ensures !root.Dir? ==> out == [] && !truncated
    ensures root.Dir? ==>
      var found := FoundIn(root, rel, DepthOf(rel), limit, cap);
      truncated == found.truncated && SameElements(out, found.files) && (!truncated ==> Sorted(out, PathOf))
    ensures Lists(out, truncated, root, rel, DepthOf(rel), limit, cap)
  {
    if !root.Dir? {
      NoDirectory(root, rel, DepthOf(rel), limit, cap);
      return [], false;
    }
    out, truncated := WalkFrom(Item(root, rel, DepthOf(rel)), limit, cap);
    if !truncated {
      FoundDistinct(root, rel, DepthOf(rel), limit, cap);
      out := SortByName(out, PathOf);
    }
    FoundLists(out, root, rel, DepthOf(rel), limit, cap);
  }

  lemma UnmarkedAreEmpty(root: Node, rel: string, base: nat, limit: nat, cap: Cap, marked: set<string>, empty: seq<ZipDir>)
    requires WellNamed(root) && !FoundIn(root, rel, base, limit, cap).truncated && Sorted(empty, ZipName)
    requires var all, prefix := Record(map[], FoundIn(root, rel, base, limit, cap).dirs, Territory(rel)), Territory(rel);
             forall z :: z in empty <==> exists k :: k in all && prefix <= k && k[|prefix|..] !in marked && z == all[k]
    ensures EmptyList(empty, Collect([Item(root, "", base)], cap), marked)
  {
    var all, prefix := Record(map[], FoundIn(root, rel, base, limit, cap).dirs, Territory(rel)), Territory(rel);
    var ds := Collect([Item(root, "", base)], cap);
    forall z ensures z in empty <==> exists d :: d in ds && d.path !in marked && z == ZipDirOf(d.path, d) {
      if z in empty {
        var k :| k in all && prefix <= k && k[|prefix|..] !in marked && z == all[k];
        MapOfCollected(root, rel, base, limit, cap, k);
        var d :| d in ds && k == Full(rel, d.path);
        assert d.path == k[|prefix|..];
      }
      if d :| d in ds && d.path !in marked && z == ZipDirOf(d.path, d) {
        var k := Full(rel, d.path);
        MapOfCollected(root, rel, base, limit, cap, k);
        assert k[|prefix|..] == d.path;
      }
    }
  }

  lemma MapNames(root: Node, rel: string, base: nat, limit: nat, cap: Cap, k: string)
    requires WellNamed(root) && !FoundIn(root, rel, base, limit, cap).truncated
    requires k in Record(map[], FoundIn(root, rel, base, limit, cap).dirs, Territory(rel))
    ensures var all, prefix := Record(map[], FoundIn(root, rel, base, limit, cap).dirs, Territory(rel)), Territory(rel);
            prefix < k && all[k].name == k[|prefix|..] + "/"
  {
    MapOfCollected(root, rel, base, limit, cap, k);
    var d :| d in Collect([Item(root, "", base)], cap) && k == Full(rel, d.path);
    assert k[|Territory(rel)|..] == d.path;
  }

  /** The one-pass walk up to the sorting of files: what the two exported
      forms share. */
  method OnePass(root: Node, rel: string, base: nat, limit: nat, cap: Cap)
    returns (out: seq<FileEntry>, empty: seq<ZipDir>, truncated: bool)
    requires WellNamed(root)
    ensures var found := FoundIn(root, rel, base, limit, cap); out == found.files && truncated == found.truncated
    ensures !truncated ==> EmptyList(empty, Collect([Item(root, "", base)], cap), AncestorsOf(out, Territory(rel)))
    ensures truncated ==> empty == []
  {
    var prefix := Territory(rel);
    var all, marked;
    out, all, marked, truncated := WalkWithEmpty(Item(root, rel, base), prefix, limit, cap);
    empty := [];
    if !truncated {
      forall k | k in all ensures prefix < k && all[k].name == k[|prefix|..] + "/" { MapNames(root, rel, base, limit, cap, k); }
      empty := Unmarked(all, marked, prefix);
      UnmarkedAreEmpty(root, rel, base, limit, cap, marked, empty);
    }
  }

  /** walkSharedDirWithEmpty: sorted even when cut short; what it then says of
      empty directories is of no use and not part of this model. */
  method WalkSharedDirWithEmpty(root: Node, rel: string, limit: nat, cap: Cap)
    returns (out: seq<FileEntry>, empty: seq<ZipDir>, truncated: bool)
    requires WellNamed(root)
    ensures !root.Dir? ==> out == [] && empty == [] && !truncated
    ensures root.Dir? ==>
      var found := FoundIn(root, rel, DepthOf(rel), limit, cap);
      && truncated == found.truncated && SameElements(out, found.files) && Sorted(out, PathOf)
      && (!truncated ==> EmptyList(empty, Collect([Item(root, "", DepthOf(rel))], cap), AncestorsOf(out, Territory(rel))))
    ensures Lists(out, truncated, root, rel, DepthOf(rel), limit, cap)
    ensures !truncated ==> ListsEmpty(empty, root, DepthOf(rel), cap)
  {
    if !root.Dir? {
      NoDirectory(root, rel, DepthOf(rel), limit, cap);
      return [], [], false;
    }
    var files;
    files, empty, truncated := OnePass(root, rel, DepthOf(rel), limit, cap);
    if !truncated { EmptyListIs(root, rel, DepthOf(rel), limit, cap, empty); }
    FoundDistinct(root, rel, DepthOf(rel), limit, cap);
    out := SortByName(files, PathOf);
    AncestorsOfSame(out, files, Territory(rel));
    FoundLists(out, root, rel, DepthOf(rel), limit, cap);
  }

  /** walkAbsDirUncached: no depth limit. */
  method WalkAbsDir(root: Node, limit: nat) returns (out: seq<FileEntry>, truncated: bool)
    requires WellNamed(root)
    ensures var found := FoundIn(root, "", 0, limit, None);
            truncated == found.truncated && SameElements(out, found.files) && (!truncated ==> Sorted(out, PathOf))
    ensures Lists(out, truncated, root, "", 0, limit, None)
  {
    out, truncated := WalkFrom(Item(root, "", 0), limit, None);
    if !truncated {
      FoundDistinct(root, "", 0, limit, None);
      out := SortByName(out, PathOf);
    }
    FoundLists(out, root, "", 0, limit, None);
  }

  /** walkAbsDirWithEmpty: no directories when cut short. */
  method WalkAbsDirWithEmpty(root: Node, limit: nat)
    returns (out: seq<FileEntry>, empty: seq<ZipDir>, truncated: bool)
    requires WellNamed(root)
    ensures var found := FoundIn(root, "", 0, limit, None);
            && truncated == found.truncated && SameElements(out, found.files) && (!truncated ==> Sorted(out, PathOf))
            && if truncated then empty == [] else EmptyList(empty, Collect([Item(root, "", 0)], None), AncestorsOf(out, ""))
    ensures Lists(out, truncated, root, "", 0, limit, None)
    ensures !truncated ==> ListsEmpty(empty, root, 0, None)
  {
    var files;
    files, empty, truncated := OnePass(root, "", 0, limit, None);
    out := files;
    FoundLists(out, root, "", 0, limit, None);
    if !truncated {
      EmptyListIs(root, "", 0, limit, None, empty);
      FoundDistinct(root, "", 0, limit, None);
      out := SortByName(files, PathOf);
      AncestorsOfSame(out, files, "");
      FoundLists(out, root, "", 0, limit, None);
    }
  }

  // ------------------------------------------------------------------ the theorem

  lemma SameAnswer(plain: seq<FileEntry>, files: seq<FileEntry>, one: seq<ZipDir>, two: seq<ZipDir>, ds: seq<Item>, prefix: string)
    requires Sorted(plain, PathOf) && Sorted(files, PathOf) && SameElements(plain, files)
    requires EmptyList(one, ds, AncestorsOf(files, prefix)) && EmptyList(two, ds, AncestorsOf(plain, prefix))
    ensures plain == files && one == two
  {
    SortedUnique(plain, files, PathOf);
    EmptyListUnique(one, two, ds, AncestorsOf(files, prefix));
  }

  /** For any requested folder, one pass gives what two passes give: the same
      files and truncation flag, and unless cut short literally the same lists. */
  method SharedZipListing(root: Node, rel: string, limit: nat, cap: Cap)
    returns (plain: seq<FileEntry>, cut: bool, collected: seq<ZipDir>, files: seq<FileEntry>, empty: seq<ZipDir>, truncated: bool)
    requires WellNamed(root) && rel != ""
    ensures cut == truncated && SameElements(plain, files)
    ensures !cut ==> plain == files && collected == empty
    ensures Lists(files, cut, root, rel, DepthOf(rel), limit, cap) && (!cut ==> ListsEmpty(empty, root, DepthOf(rel), cap))
  {
    plain, cut := WalkSharedDir(root, rel, limit, cap);
    collected := CollectEmptyDirs(root, Slashes(rel) + 1, plain, rel + "/", cap);
    files, empty, truncated := WalkSharedDirWithEmpty(root, rel, limit, cap);
    if !root.Dir? {
      NothingBelow(root, Slashes(rel) + 1, cap, collected, AncestorsOf(plain, rel + "/"));
    } else if !cut {
      SameAnswer(plain, files, empty, collected, Collect([Item(root, "", DepthOf(rel))], cap), Territory(rel));
    }
  }

  lemma NothingBelow(root: Node, base: nat, cap: Cap, collected: seq<ZipDir>, marked: set<string>)
    requires !root.Dir? && EmptyList(collected, Collect([Item(root, "", base)], cap), marked)
    ensures collected == []
  {
    var start := [Item(root, "", base)];
    assert TopDirs(start, cap) == [] && Next(start, cap) == [];
    assert Collect(start, cap) == [];
    SortedUnique(collected, [], ZipName);
  }

  /** The same for a folder of the host given by its absolute path. */
  method AbsZipListing(root: Node, limit: nat)
    returns (plain: seq<FileEntry>, cut: bool, collected: seq<ZipDir>, files: seq<FileEntry>, empty: seq<ZipDir>, truncated: bool)
    requires WellNamed(root)
    ensures cut == truncated && SameElements(plain, files)
    ensures !cut ==> plain == files && collected == empty
    ensures Lists(files, cut, root, "", 0, limit, None) && (!cut ==> ListsEmpty(empty, root, 0, None))
  {
    plain, cut := WalkAbsDir(root, limit);
    collected := CollectEmptyDirs(root, 0, plain, "", None);
    files, empty, truncated := WalkAbsDirWithEmpty(root, limit);
    if !cut {
      SameAnswer(plain, files, empty, collected, Collect([Item(root, "", 0)], None), "");
    }
  }
}
