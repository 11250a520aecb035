/** Which directories a zip lists on their own: those that are an ancestor of no
    listed file. */
module EmptyDirs {
  import opened Wrappers
  import opened NameOrder
  import opened DirTree
  import opened DirPaths

  // ------------------------------------------------------------------ ancestors

  /** `a` is the path cut at one of its slashes. */
  predicate Above(a: string, path: string) {
    |a| < |path| && path[|a|] == '/' && path[..|a|] == a
  }

  function Ancestors(path: string): (r: set<string>)
    ensures forall a :: a in r <==> Above(a, path)
  {
    set i | 0 <= i < |path| && path[i] == '/' :: path[..i]
  }

  lemma AboveIff(a: string, path: string)
    ensures Above(a, path) <==> a + "/" <= path
  {
    if Above(a, path) {
      assert path[..|a| + 1] == a + "/";
    }
    if a + "/" <= path {
      assert path[..|a|] == path[..|a| + 1][..|a|];
    }
  }

  function TrimPrefix(s: string, prefix: string): string {
    if prefix <= s then s[|prefix|..] else s
  }

  function AncestorsOf(files: seq<FileEntry>, prefix: string): set<string> {
    if files == [] then {}
    else AncestorsOf(files[..|files| - 1], prefix) + Ancestors(TrimPrefix(files[|files| - 1].path, prefix))
  }

  /** Some file lies below `a`. */
  ghost predicate Marked(files: seq<FileEntry>, prefix: string, a: string) {
    exists f :: f in files && Above(a, TrimPrefix(f.path, prefix))
  }

  lemma MarkedOne(files: seq<FileEntry>, f: FileEntry, prefix: string, a: string)
    ensures Marked(files + [f], prefix, a) <==> Marked(files, prefix, a) || Above(a, TrimPrefix(f.path, prefix))
  {
    var more := files + [f];
    assert f in more && forall g :: g in more <==> g in files || g == f;
  }

  lemma {:induction false} AncestorsOfIff(files: seq<FileEntry>, prefix: string, a: string)
    ensures a in AncestorsOf(files, prefix) <==> Marked(files, prefix, a)
  {
    if files != [] {
      var n := |files| - 1;
      AncestorsOfIff(files[..n], prefix, a);
      assert files == files[..n] + [files[n]];
      MarkedOne(files[..n], files[n], prefix, a);
    }
  }

  /** The order of the entries does not matter. */
  lemma AncestorsOfSame(a: seq<FileEntry>, b: seq<FileEntry>, prefix: string)
    requires forall f :: f in a <==> f in b
    ensures AncestorsOf(a, prefix) == AncestorsOf(b, prefix)
  {
    forall x ensures x in AncestorsOf(a, prefix) <==> x in AncestorsOf(b, prefix) {
      AncestorsOfIff(a, prefix, x);
      AncestorsOfIff(b, prefix, x);
    }
  }

  /** Position i holds the last slash; -1 says there is none. */
  predicate LastSlashAt(name: string, i: int) {
    && -1 <= i < |name| && (i >= 0 ==> name[i] == '/')
    && forall k :: i < k < |name| ==> name[k] != '/'
  }

  method LastSlash(name: string) returns (i: int)
    ensures LastSlashAt(name, i)
  {
    i := |name| - 1;
    while i >= 0 && name[i] != '/'
      invariant -1 <= i < |name| && forall k :: i < k < |name| ==> name[k] != '/'
    {
      i := i - 1;
    }
  }

  lemma LastAncestor(name: string, i: int)
    requires LastSlashAt(name, i)
    ensures Ancestors(name) == if i < 0 then {} else Ancestors(name[..i]) + {name[..i]}
  {
    forall a ensures Above(a, name) <==> i >= 0 && (Above(a, name[..i]) || a == name[..i]) {
      if |a| < i {
        assert name[..i][..|a|] == name[..|a|];
      }
    }
  }

  /** Marking the ancestors of one file as not empty. */
  method MarkAncestors(path: string, marked: set<string>) returns (r: set<string>)
    ensures r == marked + Ancestors(path)
  {
    var name := path;
    r := marked;
    while true
      invariant r + Ancestors(name) == marked + Ancestors(path)
      decreases |name|
    {
      var i := LastSlash(name);
      LastAncestor(name, i);
      if i < 0 {
        break;
      }
      name := name[..i];
      r := r + {name};
    }
  }

  // ------------------------------------------------------- the collector's walk

  /** The directories the collector meets, by path relative to its root. */
  function Collect(stack: seq<Item>, cap: Cap): seq<Item>
    decreases Weight(stack)
  {
    if stack == [] then []
    else
      NextWeighsLess(stack, cap);
      TopDirs(stack, cap) + Collect(Next(stack, cap), cap)
  }

  /** The path, from the shared root, of something below directory `rel`. */
  function Full(rel: string, short: string): string {
    if short == "" then rel else Territory(rel) + short
  }

  function Lift(rel: string, d: Item): Item { d.(path := Full(rel, d.path)) }

  function LiftAll(rel: string, ds: seq<Item>): (r: seq<Item>)
    ensures |r| == |ds| && forall i :: 0 <= i < |ds| ==> r[i] == Lift(rel, ds[i])
  {
    seq(|ds|, i requires 0 <= i < |ds| => Lift(rel, ds[i]))
  }

  lemma FullUnder(rel: string, short: string, name: string)
    requires name != ""
    ensures Under(Full(rel, short), name) == Full(rel, Under(short, name))
  {}

  lemma {:induction false} LiftSubdirs(rel: string, es: seq<Entry>, short: string, depth: nat, cap: Cap)
    requires Siblings(es)
    ensures SubdirsIn(es, Full(rel, short), depth, cap) == LiftAll(rel, SubdirsIn(es, short, depth, cap))
    decreases |es|
  {
    if es != [] {
      var n := |es| - 1;
      LiftSubdirs(rel, es[..n], short, depth, cap);
      FullUnder(rel, short, es[n].name);
    }
  }

  lemma LiftNext(rel: string, stack: seq<Item>, cap: Cap)
    requires stack != [] && Named(stack)
    ensures TopDirs(LiftAll(rel, stack), cap) == LiftAll(rel, TopDirs(stack, cap))
    ensures Next(LiftAll(rel, stack), cap) == LiftAll(rel, Next(stack, cap))
  {
    var top := stack[|stack| - 1];
    EntriesAreSiblings(top.dir);
    LiftSubdirs(rel, EntriesOf(top.dir), top.path, top.depth, cap);
  }

  /** The one-pass walk, when not cut short, meets the collector's directories
      in the collector's order. */
  lemma {:induction false} WalkMeetsCollected(rel: string, stack: seq<Item>, room: nat, cap: Cap)
    requires Territories(stack) && Named(stack) && !Walk(LiftAll(rel, stack), room, cap).truncated
    ensures Walk(LiftAll(rel, stack), room, cap).dirs == LiftAll(rel, Collect(stack, cap))
    decreases Weight(stack)
  {
    var lifted := LiftAll(rel, stack);
    if stack == [] {
      assert lifted == [];
    } else {
      NextWeighsLess(stack, cap);
      NextTerritories(stack, cap);
      LiftNext(rel, stack, cap);
      WalkMeetsCollected(rel, Next(stack, cap), room - |TopFiles(lifted)|, cap);
      JoinLifted(rel, TopDirs(stack, cap), Collect(Next(stack, cap), cap));
    }
  }

  lemma JoinLifted(rel: string, a: seq<Item>, b: seq<Item>)
    ensures LiftAll(rel, a + b) == LiftAll(rel, a) + LiftAll(rel, b)
  {}

  // -------------------------------------------------------------- the listed ones

  /** A directory entry of a zip. */
  datatype ZipDir = ZipDir(name: string, mtime: int)

  function ZipName(z: ZipDir): string { z.name }

  function ZipDirOf(short: string, d: Item): ZipDir {
    ZipDir(short + "/", if d.dir.Dir? then d.dir.mtime else 0)
  }

  /** `zs` lists, sorted, the directories that are above no listed file. */
  ghost predicate EmptyList(zs: seq<ZipDir>, dirs: seq<Item>, marked: set<string>) {
    && Sorted(zs, ZipName)
    && forall z :: z in zs <==> exists d :: d in dirs && d.path !in marked && z == ZipDirOf(d.path, d)
  }

  lemma EmptyListUnique(x: seq<ZipDir>, y: seq<ZipDir>, dirs: seq<Item>, marked: set<string>)
    requires EmptyList(x, dirs, marked) && EmptyList(y, dirs, marked)
    ensures x == y
  {
    SortedUnique(x, y, ZipName);
  }

  // ------------------------------------------------------------ what empty means

  lemma {:induction false} SeesInside(n: Node, path: string, depth: nat, cap: Cap, f: FileEntry)
    requires WellNamed(n) && Sees(n, path, depth, cap, f)
    ensures Territory(path) <= f.path
    decreases n
  {
    var es := EntriesOf(n);
    var i :| 0 <= i < |es| &&
      ((Listed(es[i]) && f == FileAt(es[i], path, depth))
       || (Entered(es[i], depth, cap) && Sees(es[i].node, Under(path, es[i].name), depth + 1, cap, f)));
    UnderTerritory(path, es[i].name);
    if !(Listed(es[i]) && f == FileAt(es[i], path, depth)) {
      SeesInside(es[i].node, Under(path, es[i].name), depth + 1, cap, f);
    }
  }

  /** Of the files a walk lists, those with a path below directory d of the
      stack are the ones seen from d. */
  lemma {:induction false} BelowIsSeen(stack: seq<Item>, room: nat, cap: Cap, k: nat, f: FileEntry)
    requires Territories(stack) && Named(stack) && k < |stack| && !Walk(stack, room, cap).truncated
    ensures f in Walk(stack, room, cap).files && Territory(stack[k].path) <= f.path <==> ItemSees(stack[k], cap, f)
  {
    WalkFindsAll(stack, room, cap, f);
    forall i | 0 <= i < |stack| && ItemSees(stack[i], cap, f) ensures Territory(stack[i].path) <= f.path {
      SeesInside(stack[i].dir, stack[i].path, stack[i].depth, cap, f);
    }
    if f in Walk(stack, room, cap).files && Territory(stack[k].path) <= f.path {
      var i :| 0 <= i < |stack| && ItemSees(stack[i], cap, f);
      Comparable(Territory(stack[i].path), Territory(stack[k].path), f.path);
      assert i == k;
    }
  }

  /** The same for any directory the walk meets on its way. */
  ghost predicate BelowMeansSeen(files: seq<FileEntry>, d: Item, cap: Cap) {
    forall f :: f in files && Territory(d.path) <= f.path <==> ItemSees(d, cap, f)
  }

  lemma {:induction false} MetMeansSeen(stack: seq<Item>, room: nat, cap: Cap, d: Item)
    requires Territories(stack) && Named(stack) && !Walk(stack, room, cap).truncated
    requires d in Walk(stack, room, cap).dirs
    ensures BelowMeansSeen(Walk(stack, room, cap).files, d, cap) && Covered(Territory(d.path), stack)
    decreases Weight(stack)
  {
    var next, left := Next(stack, cap), room - |TopFiles(stack)|;
    NextWeighsLess(stack, cap);
    NextTerritories(stack, cap);
    var rest := Walk(next, left, cap);
    if d in TopDirs(stack, cap) {
      StackedMeansSeen(next, left, cap, d);
    } else {
      MetMeansSeen(next, left, cap, d);
    }
    NextCovers(stack, cap, Territory(d.path));
    TopAddsNothing(stack, cap, d, rest.files);
  }

  lemma {:induction false} BelowAllSeen(stack: seq<Item>, room: nat, cap: Cap, k: nat)
    requires Territories(stack) && Named(stack) && k < |stack| && !Walk(stack, room, cap).truncated
    ensures BelowMeansSeen(Walk(stack, room, cap).files, stack[k], cap)
  {
    forall f ensures f in Walk(stack, room, cap).files && Territory(stack[k].path) <= f.path <==> ItemSees(stack[k], cap, f) {
      BelowIsSeen(stack, room, cap, k, f);
    }
  }

  lemma {:induction false} StackedMeansSeen(stack: seq<Item>, room: nat, cap: Cap, d: Item)
    requires Territories(stack) && Named(stack) && d in stack && !Walk(stack, room, cap).truncated
    ensures BelowMeansSeen(Walk(stack, room, cap).files, d, cap) && Covered(Territory(d.path), stack)
  {
    var k :| 0 <= k < |stack| && stack[k] == d;
    BelowAllSeen(stack, room, cap, k);
    CoversOwn(stack, k);
  }

  lemma CoversOwn(stack: seq<Item>, k: nat)
    requires k < |stack|
    ensures Covered(Territory(stack[k].path), stack)
  {}

  lemma TopAddsNothing(stack: seq<Item>, cap: Cap, d: Item, files: seq<FileEntry>)
    requires stack != [] && Territories(stack) && Named(stack)
    requires BelowMeansSeen(files, d, cap) && Covered(Territory(d.path), Next(stack, cap))
    ensures BelowMeansSeen(TopFiles(stack) + files, d, cap)
  {
    TopOnlyOnce(stack, cap);
    forall f | f in TopFiles(stack) ensures !(Territory(d.path) <= f.path) {
      assert !Covered(PathOf(f), Next(stack, cap));
      if Territory(d.path) <= f.path { CoveredFurther(Territory(d.path), f.path, Next(stack, cap)); }
    }
  }

  lemma CoveredFurther(p: string, q: string, stack: seq<Item>)
    requires Covered(p, stack) && p <= q
    ensures Covered(q, stack)
  {}
}
