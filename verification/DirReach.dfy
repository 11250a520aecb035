/** What the walks show of a tree, told by the names on the way: names without
    a leading dot, through readable directories, down to the depth limit. */
module DirReach {
  import opened Wrappers
  import opened NameOrder
  import opened DirTree
  import opened DirPaths
  import opened EmptyDirs
  import opened DirWalk

  /** Following the names from n, through readable directories, leads to `target`. */
  ghost predicate Leads(n: Node, names: seq<string>, target: Node)
    decreases |names|
  {
    if names == [] then n == target
    else (
      && n.Dir? && n.readable
      && exists i :: 0 <= i < |n.entries| && n.entries[i].name == names[0] && Leads(n.entries[i].node, names[1..], target)
    )
  }

  ghost predicate NoDots(names: seq<string>) {
    forall i :: 0 <= i < |names| ==> names[i] != "" ==> names[i][0] != '.'
  }

  /** Names with slashes between them. */
  function Joined(names: seq<string>): string {
    if names == [] then "" else if |names| == 1 then names[0] else names[0] + "/" + Joined(names[1..])
  }

  function PathTo(path: string, names: seq<string>): string {
    if path == "" then Joined(names) else path + "/" + Joined(names)
  }

  /** Going `levels` directories down stays above the limit. */
  predicate Shallow(depth: nat, levels: int, cap: Cap) {
    levels <= 0 || cap.None? || depth + levels < cap.value
  }

  /** The names lead to a regular file that a listing may show, as `f`. */
  ghost predicate Shows(n: Node, path: string, depth: nat, cap: Cap, names: seq<string>, f: FileEntry) {
    && names != [] && NoDots(names) && Leads(n, names, File(f.size, f.mtime)) && Shallow(depth, |names| - 1, cap)
    && f.path == PathTo(path, names) && f.depth == depth + |names|
  }

  ghost predicate Shown(n: Node, path: string, depth: nat, cap: Cap, f: FileEntry) {
    exists names :: Shows(n, path, depth, cap, names, f)
  }

  lemma PathUnder(path: string, name: string, rest: seq<string>)
    requires name != "" && rest != []
    ensures PathTo(path, [name] + rest) == PathTo(Under(path, name), rest)
  {
    assert ([name] + rest)[1..] == rest;
  }

  lemma {:induction false} SeesNames(n: Node, path: string, depth: nat, cap: Cap, f: FileEntry) returns (names: seq<string>)
    requires WellNamed(n) && Sees(n, path, depth, cap, f)
    ensures Shows(n, path, depth, cap, names, f)
    decreases n
  {
    var es := EntriesOf(n);
    var i :| 0 <= i < |es| &&
      ((Listed(es[i]) && f == FileAt(es[i], path, depth))
       || (Entered(es[i], depth, cap) && Sees(es[i].node, Under(path, es[i].name), depth + 1, cap, f)));
    var name := es[i].name;
    if Listed(es[i]) && f == FileAt(es[i], path, depth) {
      names := [name];
      assert Leads(es[i].node, names[1..], File(f.size, f.mtime));
    } else {
      var rest := SeesNames(es[i].node, Under(path, name), depth + 1, cap, f);
      names := [name] + rest;
      assert names[1..] == rest;
      PathUnder(path, name, rest);
    }
  }

  lemma {:induction false} NamesSeen(n: Node, path: string, depth: nat, cap: Cap, names: seq<string>, f: FileEntry)
    requires WellNamed(n) && Shows(n, path, depth, cap, names, f)
    ensures Sees(n, path, depth, cap, f)
    decreases |names|
  {
    var es, target := EntriesOf(n), File(f.size, f.mtime);
    var i :| 0 <= i < |es| && es[i].name == names[0] && Leads(es[i].node, names[1..], target);
    assert !(es[i].name != "" && es[i].name[0] == '.');
    if |names| == 1 {
      assert Listed(es[i]) && f == FileAt(es[i], path, depth);
    } else {
      var rest := names[1..];
      assert names == [names[0]] + rest;
      PathUnder(path, names[0], rest);
      NamesSeen(es[i].node, Under(path, names[0]), depth + 1, cap, rest, f);
      assert Entered(es[i], depth, cap);
    }
  }

  lemma SeesIff(n: Node, path: string, depth: nat, cap: Cap, f: FileEntry)
    requires WellNamed(n)
    ensures Sees(n, path, depth, cap, f) <==> Shown(n, path, depth, cap, f)
  {
    if Sees(n, path, depth, cap, f) {
      var names := SeesNames(n, path, depth, cap, f);
    }
    if names :| Shows(n, path, depth, cap, names, f) {
      NamesSeen(n, path, depth, cap, names, f);
    }
  }

  // ---------------------------------------------------------------- files found

  /** Whatever a walk lists can be seen, even when it is cut short, which is
      only when its room is used up. */
  lemma {:induction false} WalkListsSeen(stack: seq<Item>, room: nat, cap: Cap)
    ensures forall f :: f in Walk(stack, room, cap).files ==> SomeSees(stack, cap, f)
    ensures |Walk(stack, room, cap).files| <= room
    ensures Walk(stack, room, cap).truncated ==> |Walk(stack, room, cap).files| == room
    decreases Weight(stack)
  {
    if stack != [] && room > 0 {
      var top := TopFiles(stack);
      if |top| > room {
        forall f | f in top[..room] ensures SomeSees(stack, cap, f) { StackSees(stack, cap, f); }
      } else {
        NextWeighsLess(stack, cap);
        WalkListsSeen(Next(stack, cap), room - |top|, cap);
        forall f | f in Walk(stack, room, cap).files ensures SomeSees(stack, cap, f) { StackSees(stack, cap, f); }
      }
    }
  }

  /** A walk of a folder lists only files that may be shown, and all of them
      unless it stops with its room used up. */
  lemma FoundFiles(root: Node, rel: string, base: nat, limit: nat, cap: Cap)
    requires WellNamed(root)
    ensures var found := FoundIn(root, rel, base, limit, cap);
            && (forall f :: f in found.files ==> Shown(root, rel, base, cap, f))
            && (!found.truncated ==> forall f :: Shown(root, rel, base, cap, f) ==> f in found.files)
            && |found.files| <= limit && (found.truncated ==> |found.files| == limit)
  {
    var start := [Item(root, rel, base)];
    WalkListsSeen(start, limit, cap);
    forall f ensures SomeSees(start, cap, f) <==> Shown(root, rel, base, cap, f) {
      assert SomeSees(start, cap, f) <==> ItemSees(start[0], cap, f);
      SeesIff(root, rel, base, cap, f);
    }
    if !FoundIn(root, rel, base, limit, cap).truncated {
      forall f ensures f in FoundIn(root, rel, base, limit, cap).files <==> SomeSees(start, cap, f) {
        WalkFindsAll(start, limit, cap, f);
      }
    }
  }

  // ----------------------------------------------------------- directories met

  /** Directory d is passed somewhere below n. */
  ghost predicate Meets(n: Node, path: string, depth: nat, cap: Cap, d: Item)
    decreases n
  {
    var es := EntriesOf(n);
    exists i :: 0 <= i < |es| && Entered(es[i], depth, cap) &&
      (d == DirAt(es[i], path, depth) || Meets(es[i].node, Under(path, es[i].name), depth + 1, cap, d))
  }

  ghost predicate ItemMeets(it: Item, cap: Cap, d: Item) { Meets(it.dir, it.path, it.depth, cap, d) }

  ghost predicate SomeMeets(stack: seq<Item>, cap: Cap, d: Item) {
    exists i :: 0 <= i < |stack| && ItemMeets(stack[i], cap, d)
  }

  lemma TopMeets(it: Item, cap: Cap, d: Item)
    ensures var subdirs := SubdirsIn(EntriesOf(it.dir), it.path, it.depth, cap);
            ItemMeets(it, cap, d) <==> d in subdirs || SomeMeets(subdirs, cap, d)
  {
    var es := EntriesOf(it.dir);
    var subdirs := SubdirsIn(es, it.path, it.depth, cap);
    SubdirsInIff(es, it.path, it.depth, cap, d);
    forall i | 0 <= i < |es| && Entered(es[i], it.depth, cap) && ItemMeets(DirAt(es[i], it.path, it.depth), cap, d)
      ensures SomeMeets(subdirs, cap, d)
    {
      SubdirsInIff(es, it.path, it.depth, cap, DirAt(es[i], it.path, it.depth));
    }
    if SomeMeets(subdirs, cap, d) {
      var k :| 0 <= k < |subdirs| && ItemMeets(subdirs[k], cap, d);
      SubdirsInIff(es, it.path, it.depth, cap, subdirs[k]);
    }
  }

  lemma SomeMeetsJoin(a: seq<Item>, b: seq<Item>, cap: Cap, d: Item)
    ensures SomeMeets(a + b, cap, d) <==> SomeMeets(a, cap, d) || SomeMeets(b, cap, d)
  {
    if SomeMeets(a, cap, d) {
      var i :| 0 <= i < |a| && ItemMeets(a[i], cap, d);
      assert (a + b)[i] == a[i];
    }
    if SomeMeets(b, cap, d) {
      var i :| 0 <= i < |b| && ItemMeets(b[i], cap, d);
      assert (a + b)[|a| + i] == b[i];
    }
  }

  lemma StackMeets(stack: seq<Item>, cap: Cap, d: Item)
    requires stack != []
    ensures SomeMeets(stack, cap, d) <==> d in TopDirs(stack, cap) || SomeMeets(Next(stack, cap), cap, d)
  {
    var top, below := stack[|stack| - 1], stack[..|stack| - 1];
    SomeMeetsJoin(below, SubdirsIn(EntriesOf(top.dir), top.path, top.depth, cap), cap, d);
    TopMeets(top, cap, d);
    assert stack == below + [top];
    SomeMeetsJoin(below, [top], cap, d);
    assert SomeMeets([top], cap, d) <==> ItemMeets([top][0], cap, d);
  }

  lemma {:induction false} CollectMeets(stack: seq<Item>, cap: Cap, d: Item)
    ensures d in Collect(stack, cap) <==> SomeMeets(stack, cap, d)
    decreases Weight(stack)
  {
    if stack != [] {
      NextWeighsLess(stack, cap);
      CollectMeets(Next(stack, cap), cap, d);
      StackMeets(stack, cap, d);
    }
  }

  /** The names lead to a directory that a walk may enter, as `d`. */
  ghost predicate Passes(n: Node, path: string, depth: nat, cap: Cap, names: seq<string>, d: Item) {
    && names != [] && NoDots(names) && Leads(n, names, d.dir) && d.dir.Dir? && Shallow(depth, |names|, cap)
    && d.path == PathTo(path, names) && d.depth == depth + |names|
  }

  lemma {:induction false} MeetsNames(n: Node, path: string, depth: nat, cap: Cap, d: Item) returns (names: seq<string>)
    requires WellNamed(n) && Meets(n, path, depth, cap, d)
    ensures Passes(n, path, depth, cap, names, d)
    decreases n
  {
    var es := EntriesOf(n);
    var i :| 0 <= i < |es| && Entered(es[i], depth, cap) &&
      (d == DirAt(es[i], path, depth) || Meets(es[i].node, Under(path, es[i].name), depth + 1, cap, d));
    var name := es[i].name;
    if d == DirAt(es[i], path, depth) {
      names := [name];
      assert Leads(es[i].node, names[1..], d.dir);
    } else {
      var rest := MeetsNames(es[i].node, Under(path, name), depth + 1, cap, d);
      names := [name] + rest;
      assert names[1..] == rest;
      PathUnder(path, name, rest);
    }
  }

  lemma {:induction false} NamesMet(n: Node, path: string, depth: nat, cap: Cap, names: seq<string>, d: Item)
    requires WellNamed(n) && Passes(n, path, depth, cap, names, d)
    ensures Meets(n, path, depth, cap, d)
    decreases |names|
  {
    var es := EntriesOf(n);
    var i :| 0 <= i < |es| && es[i].name == names[0] && Leads(es[i].node, names[1..], d.dir);
    assert !(es[i].name != "" && es[i].name[0] == '.');
    assert Entered(es[i], depth, cap);
    if |names| == 1 {
      assert d == DirAt(es[i], path, depth);
    } else {
      var rest := names[1..];
      assert names == [names[0]] + rest;
      PathUnder(path, names[0], rest);
      NamesMet(es[i].node, Under(path, names[0]), depth + 1, cap, rest, d);
    }
  }

  /** The directories a walk of a folder passes. */
  lemma CollectIff(root: Node, base: nat, cap: Cap, d: Item)
    requires WellNamed(root)
    ensures d in Collect([Item(root, "", base)], cap) <==> exists names :: Passes(root, "", base, cap, names, d)
  {
    var start := [Item(root, "", base)];
    CollectMeets(start, cap, d);
    assert SomeMeets(start, cap, d) <==> ItemMeets(start[0], cap, d);
    if Meets(root, "", base, cap, d) {
      var names := MeetsNames(root, "", base, cap, d);
    }
    if names :| Passes(root, "", base, cap, names, d) {
      NamesMet(root, "", base, cap, names, d);
    }
  }

  // ------------------------------------------------------ directories on their own

  /** A directory is listed on its own exactly when no listed file can be seen
      anywhere below it. */
  lemma {:induction false} EmptyIffNothingSeen(root: Node, rel: string, base: nat, limit: nat, cap: Cap, d: Item)
    requires WellNamed(root) && !FoundIn(root, rel, base, limit, cap).truncated
    requires d in Collect([Item(root, "", base)], cap)
    ensures d.path !in AncestorsOf(FoundIn(root, rel, base, limit, cap).files, Territory(rel)) <==>
              forall f :: !ItemSees(Lift(rel, d), cap, f)
  {
    var start, files := [Item(root, rel, base)], FoundIn(root, rel, base, limit, cap).files;
    StartIsNamed(root, rel, base);
    StartIsNamed(root, "", base);
    FoundIsLifted(root, rel, base, limit, cap);
    FoundDistinct(root, rel, base, limit, cap);
    var ds := Collect([Item(root, "", base)], cap);
    var i :| 0 <= i < |ds| && ds[i] == d;
    assert FoundIn(root, rel, base, limit, cap).dirs[i] == Lift(rel, d);
    CollectedNotRoot([Item(root, "", base)], cap);
    MetMeansSeen(start, limit, cap, Lift(rel, d));
    AncestorsOfIff(files, Territory(rel), d.path);
    forall f | f in files ensures Above(d.path, TrimPrefix(f.path, Territory(rel))) <==> ItemSees(Lift(rel, d), cap, f) {
      AboveLong(rel, d.path, f.path);
    }
  }

  lemma AboveLong(rel: string, short: string, path: string)
    requires short != "" && Territory(rel) <= path
    ensures Above(short, TrimPrefix(path, Territory(rel))) <==> Territory(Full(rel, short)) <= path
  {
    var t := Territory(rel);
    var rest := path[|t|..];
    assert path == t + rest;
    AboveIff(short, rest);
    PrefixCancel(t, short + "/", rest);
    assert Territory(Full(rel, short)) == t + (short + "/");
  }

  ghost predicate NothingShown(dir: Node, depth: nat, cap: Cap) {
    forall path, f :: !Shown(dir, path, depth, cap, f)
  }

  /** A directory to list on its own, as `z`: a walk may enter it, and no file
      below it may be shown. */
  ghost predicate ShowsEmpty(root: Node, base: nat, cap: Cap, names: seq<string>, dir: Node, z: ZipDir) {
    && names != [] && NoDots(names) && Leads(root, names, dir) && dir.Dir? && Shallow(base, |names|, cap)
    && NothingShown(dir, base + |names|, cap)
    && z.name == Joined(names) + "/" && z.mtime == dir.mtime
  }

  ghost predicate ShownEmpty(root: Node, base: nat, cap: Cap, z: ZipDir) {
    exists names, dir :: ShowsEmpty(root, base, cap, names, dir, z)
  }

  lemma {:induction false} LeadsNamed(n: Node, names: seq<string>, target: Node)
    requires WellNamed(n) && Leads(n, names, target)
    ensures WellNamed(target)
    decreases |names|
  {
    if names != [] {
      var i :| 0 <= i < |n.entries| && n.entries[i].name == names[0] && Leads(n.entries[i].node, names[1..], target);
      LeadsNamed(n.entries[i].node, names[1..], target);
    }
  }

  /** Whether files may be shown below a directory does not depend on its path. */
  lemma SeenFromAnyPath(dir: Node, path: string, other: string, depth: nat, cap: Cap, f: FileEntry)
    requires Shown(dir, path, depth, cap, f)
    ensures exists g :: Shown(dir, other, depth, cap, g)
  {
    var names :| Shows(dir, path, depth, cap, names, f);
    assert Shows(dir, other, depth, cap, names, f.(path := PathTo(other, names)));
    assert Shown(dir, other, depth, cap, f.(path := PathTo(other, names)));
  }

  lemma NothingSeenIff(d: Item, rel: string, cap: Cap)
    requires WellNamed(d.dir)
    ensures (forall f :: !ItemSees(Lift(rel, d), cap, f)) <==> NothingShown(d.dir, d.depth, cap)
  {
    forall f ensures ItemSees(Lift(rel, d), cap, f) <==> Shown(d.dir, Full(rel, d.path), d.depth, cap, f) {
      SeesIff(d.dir, Full(rel, d.path), d.depth, cap, f);
    }
    if path, f :| Shown(d.dir, path, d.depth, cap, f) {
      SeenFromAnyPath(d.dir, path, Full(rel, d.path), d.depth, cap, f);
    }
  }

  lemma EmptyFromItem(root: Node, rel: string, base: nat, cap: Cap, d: Item, names: seq<string>)
    requires WellNamed(root) && Passes(root, "", base, cap, names, d) && forall f :: !ItemSees(Lift(rel, d), cap, f)
    ensures ShowsEmpty(root, base, cap, names, d.dir, ZipDirOf(d.path, d))
  {
    LeadsNamed(root, names, d.dir);
    NothingSeenIff(d, rel, cap);
  }

  lemma ItemFromEmpty(root: Node, rel: string, base: nat, cap: Cap, names: seq<string>, dir: Node, z: ZipDir) returns (d: Item)
    requires WellNamed(root) && ShowsEmpty(root, base, cap, names, dir, z)
    ensures Passes(root, "", base, cap, names, d) && z == ZipDirOf(d.path, d) && forall f :: !ItemSees(Lift(rel, d), cap, f)
  {
    d := Item(dir, Joined(names), base + |names|);
    LeadsNamed(root, names, dir);
    NothingSeenIff(d, rel, cap);
  }

  /** The listed directories of an uncut walk are exactly those. */
  lemma EmptyListIs(root: Node, rel: string, base: nat, limit: nat, cap: Cap, zs: seq<ZipDir>)
    requires WellNamed(root) && !FoundIn(root, rel, base, limit, cap).truncated
    requires EmptyList(zs, Collect([Item(root, "", base)], cap),
                       AncestorsOf(FoundIn(root, rel, base, limit, cap).files, Territory(rel)))
    ensures Sorted(zs, ZipName) && forall z :: z in zs <==> ShownEmpty(root, base, cap, z)
  {
    var ds, marked := Collect([Item(root, "", base)], cap), AncestorsOf(FoundIn(root, rel, base, limit, cap).files, Territory(rel));
    forall z ensures z in zs <==> ShownEmpty(root, base, cap, z) {
      if z in zs {
        var d :| d in ds && d.path !in marked && z == ZipDirOf(d.path, d);
        CollectIff(root, base, cap, d);
        var names :| Passes(root, "", base, cap, names, d);
        EmptyIffNothingSeen(root, rel, base, limit, cap, d);
        EmptyFromItem(root, rel, base, cap, d, names);
      }
      if names, dir :| ShowsEmpty(root, base, cap, names, dir, z) {
        var d := ItemFromEmpty(root, rel, base, cap, names, dir, z);
        CollectIff(root, base, cap, d);
        EmptyIffNothingSeen(root, rel, base, limit, cap, d);
      }
    }
  }

  // ------------------------------------------------------------------- the depth

  /** The depth of a folder is the number of names in its path. */
  lemma {:induction false} DepthCounts(names: seq<string>)
    requires names != [] && forall i :: 0 <= i < |names| ==> names[i] != "" && '/' !in names[i]
    ensures DepthOf(Joined(names)) == |names|
  {
    if |names| == 1 {
      NoSlashes(names[0]);
    } else {
      DepthCounts(names[1..]);
      NoSlashes(names[0]);
      SlashesJoin(names[0] + "/", Joined(names[1..]));
      SlashesJoin(names[0], "/");
      assert "/"[..0] == "";
    }
  }

  lemma {:induction false} NoSlashes(s: string)
    requires '/' !in s
    ensures Slashes(s) == 0
  {
    if s != "" {
      assert s[|s| - 1] in s;
      NoSlashes(s[..|s| - 1]);
    }
  }

  lemma {:induction false} SlashesJoin(a: string, b: string)
    ensures Slashes(a + b) == Slashes(a) + Slashes(b)
    decreases |b|
  {
    if b == "" {
      assert a + b == a;
    } else {
      assert (a + b)[..|a + b| - 1] == a + b[..|b| - 1];
      SlashesJoin(a, b[..|b| - 1]);
    }
  }
}
