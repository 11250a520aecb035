/** Paths of a walk: every file and every directory comes up at most once, and
    what lies below a directory is what its path is a prefix of. */
module DirPaths {
  import opened Wrappers
  import opened NameOrder
  import opened DirTree

  /** Names as a file system gives them: not empty, without slashes, and
      different within a directory. */
  ghost predicate WellNamed(n: Node)
    decreases n
  {
    n.Dir? ==>
      && (forall i :: 0 <= i < |n.entries| ==> n.entries[i].name != "" && '/' !in n.entries[i].name)
      && (forall i, j :: 0 <= i < j < |n.entries| ==> n.entries[i].name != n.entries[j].name)
      && (forall i :: 0 <= i < |n.entries| ==> WellNamed(n.entries[i].node))
  }

  /** What every path below a directory starts with. */
  function Territory(path: string): string { if path == "" then "" else path + "/" }

  predicate Apart(a: string, b: string) { !(a <= b) && !(b <= a) }

  lemma UnderTerritory(path: string, name: string)
    requires name != ""
    ensures Under(path, name) == Territory(path) + name
    ensures Territory(Under(path, name)) == Territory(path) + (name + "/")
  {}

  lemma Comparable(a: string, b: string, s: string)
    requires a <= s && b <= s
    ensures !Apart(a, b)
  {
    if |a| <= |b| { assert a == b[..|a|]; } else { assert b == a[..|b|]; }
  }

  lemma StaysApart(a: string, b: string, x: string)
    requires Apart(a, b)
    ensures Apart(a + x, b) && !(b <= a + x)
  {
    if b <= a + x { Comparable(a, b, a + x); }
    if a + x <= b { Comparable(a, b, b); }
  }

  lemma PrefixCancel(t: string, a: string, b: string)
    ensures t + a <= t + b <==> a <= b
  {
    assert (t + a)[|t|..] == a && (t + b)[|t|..] == b;
    if t + a <= t + b {
      assert (t + b)[..|t| + |a|] == t + a;
      assert b[..|a|] == (t + b)[|t|..|t| + |a|];
    }
  }

  lemma SlashPrefix(x: string, y: string)
    requires '/' !in x && '/' !in y
    ensures !(x + "/" <= y)
    ensures x + "/" <= y + "/" ==> x == y
  {
    assert (x + "/")[|x|] == '/';
    if x + "/" <= y + "/" {
      assert (x + "/")[..|x|] == x && (y + "/")[..|y|] == y;
      assert (y + "/")[|x|] == '/';
      assert |x| == |y|;
    }
  }

  /** Nothing without a slash lies below a sibling, and siblings are apart. */
  lemma NamesApart(t: string, x: string, y: string)
    requires '/' !in x && '/' !in y
    ensures !(t + (x + "/") <= t + y)
    ensures x != y ==> Apart(t + (x + "/"), t + (y + "/")) && t + x != t + y
  {
    PrefixCancel(t, x + "/", y);
    PrefixCancel(t, x + "/", y + "/");
    PrefixCancel(t, y + "/", x + "/");
    PrefixCancel(t, x, y);
    PrefixCancel(t, y, x);
    SlashPrefix(x, y);
    SlashPrefix(y, x);
  }

  // ------------------------------------------------------------- one directory

  function PathOf(f: FileEntry): string { f.path }

  function DirPath(d: Item): string { d.path }

  ghost predicate Named(stack: seq<Item>) {
    forall i :: 0 <= i < |stack| ==> WellNamed(stack[i].dir)
  }

  ghost predicate Territories(stack: seq<Item>) {
    forall i, j :: 0 <= i < j < |stack| ==> Apart(Territory(stack[i].path), Territory(stack[j].path))
  }

  /** Entries as one well-named directory holds them. */
  ghost predicate Siblings(es: seq<Entry>) {
    && (forall i :: 0 <= i < |es| ==> es[i].name != "" && '/' !in es[i].name && WellNamed(es[i].node))
    && (forall i, j :: 0 <= i < j < |es| ==> es[i].name != es[j].name)
  }

  lemma EntriesAreSiblings(n: Node)
    requires WellNamed(n)
    ensures Siblings(EntriesOf(n))
  {}

  lemma SiblingsApart(path: string, a: Entry, b: Entry)
    requires a.name != "" && b.name != "" && '/' !in a.name && '/' !in b.name && a.name != b.name
    ensures Under(path, a.name) != Under(path, b.name)
    ensures Apart(Territory(Under(path, a.name)), Territory(Under(path, b.name)))
  {
    UnderTerritory(path, a.name);
    UnderTerritory(path, b.name);
    NamesApart(Territory(path), a.name, b.name);
  }

  lemma {:induction false} FilesDistinct(es: seq<Entry>, path: string, depth: nat)
    requires Siblings(es)
    ensures Distinct(FilesIn(es, path, depth), PathOf)
    decreases |es|
  {
    if es != [] {
      var n := |es| - 1;
      var before := FilesIn(es[..n], path, depth);
      FilesDistinct(es[..n], path, depth);
      forall k | 0 <= k < |before| ensures before[k].path != Under(path, es[n].name) {
        FilesInIff(es[..n], path, depth, before[k]);
        var i :| 0 <= i < n && Listed(es[..n][i]) && before[k] == FileAt(es[..n][i], path, depth);
        SiblingsApart(path, es[i], es[n]);
      }
    }
  }

  lemma {:induction false} SubdirsDistinct(es: seq<Entry>, path: string, depth: nat, cap: Cap)
    requires Siblings(es)
    ensures Distinct(SubdirsIn(es, path, depth, cap), DirPath)
    ensures Territories(SubdirsIn(es, path, depth, cap)) && Named(SubdirsIn(es, path, depth, cap))
    decreases |es|
  {
    if es != [] {
      var n := |es| - 1;
      var before := SubdirsIn(es[..n], path, depth, cap);
      SubdirsDistinct(es[..n], path, depth, cap);
      forall k | 0 <= k < |before|
        ensures before[k].path != Under(path, es[n].name)
        ensures Apart(Territory(before[k].path), Territory(Under(path, es[n].name)))
      {
        SubdirsInIff(es[..n], path, depth, cap, before[k]);
        var i :| 0 <= i < n && Entered(es[..n][i], depth, cap) && before[k] == DirAt(es[..n][i], path, depth);
        SiblingsApart(path, es[i], es[n]);
      }
    }
  }

  /** Every file and subdirectory of one directory lies in its territory; a
      file lies below none of the subdirectories. */
  lemma FileIsInside(es: seq<Entry>, path: string, depth: nat, f: FileEntry)
    requires Siblings(es) && f in FilesIn(es, path, depth)
    ensures Territory(path) <= f.path
    ensures forall e :: e in es ==> !(Territory(Under(path, e.name)) <= f.path)
  {
    FilesInIff(es, path, depth, f);
    var i :| 0 <= i < |es| && Listed(es[i]) && f == FileAt(es[i], path, depth);
    UnderTerritory(path, es[i].name);
    forall e | e in es ensures !(Territory(Under(path, e.name)) <= f.path) {
      UnderTerritory(path, e.name);
      NamesApart(Territory(path), e.name, es[i].name);
    }
  }

  lemma {:induction false} SubdirIsInside(es: seq<Entry>, path: string, depth: nat, cap: Cap, d: Item)
    requires Siblings(es) && d in SubdirsIn(es, path, depth, cap)
    ensures Territory(path) <= d.path && Territory(path) <= Territory(d.path)
    ensures exists e :: e in es && d == DirAt(e, path, depth)
    ensures forall e :: e in es ==> !(Territory(Under(path, e.name)) <= d.path)
  {
    SubdirsInIff(es, path, depth, cap, d);
    var i :| 0 <= i < |es| && Entered(es[i], depth, cap) && d == DirAt(es[i], path, depth);
    UnderTerritory(path, es[i].name);
    forall e | e in es ensures !(Territory(Under(path, e.name)) <= d.path) {
      UnderTerritory(path, e.name);
      NamesApart(Territory(path), e.name, es[i].name);
    }
  }

  // -------------------------------------------------------------- the whole walk

  lemma NextTerritories(stack: seq<Item>, cap: Cap)
    requires stack != [] && Territories(stack) && Named(stack)
    ensures Territories(Next(stack, cap)) && Named(Next(stack, cap))
  {
    var top, below := stack[|stack| - 1], stack[..|stack| - 1];
    var es := EntriesOf(top.dir);
    var subdirs := SubdirsIn(es, top.path, top.depth, cap);
    EntriesAreSiblings(top.dir);
    SubdirsDistinct(es, top.path, top.depth, cap);
    forall i, k | 0 <= i < |below| && 0 <= k < |subdirs|
      ensures Apart(Territory(below[i].path), Territory(subdirs[k].path))
    {
      SubdirIsInside(es, top.path, top.depth, cap, subdirs[k]);
      InnerApart(Territory(top.path), Territory(stack[i].path), Territory(subdirs[k].path));
    }
    JoinTerritories(below, subdirs);
  }

  lemma InnerApart(outer: string, other: string, inner: string)
    requires Apart(other, outer) && outer <= inner
    ensures Apart(other, inner)
  {
    assert inner == outer + inner[|outer|..];
    StaysApart(outer, other, inner[|outer|..]);
  }

  lemma JoinTerritories(a: seq<Item>, b: seq<Item>)
    requires Territories(a) && Named(a) && Territories(b) && Named(b)
    requires forall i, k :: 0 <= i < |a| && 0 <= k < |b| ==> Apart(Territory(a[i].path), Territory(b[k].path))
    ensures Territories(a + b) && Named(a + b)
  {}

  /** The path lies below some directory on the stack. */
  ghost predicate Covered(p: string, stack: seq<Item>) {
    exists i :: 0 <= i < |stack| && Territory(stack[i].path) <= p
  }

  lemma BelowTop(top: Item, cap: Cap, d: Item, p: string)
    requires WellNamed(top.dir) && d in SubdirsIn(EntriesOf(top.dir), top.path, top.depth, cap)
    requires Territory(d.path) <= p
    ensures Territory(top.path) <= p
  {
    EntriesAreSiblings(top.dir);
    SubdirIsInside(EntriesOf(top.dir), top.path, top.depth, cap, d);
  }

  lemma CoveredJoin(p: string, a: seq<Item>, b: seq<Item>)
    ensures Covered(p, a + b) <==> Covered(p, a) || Covered(p, b)
  {
    var ab := a + b;
    if Covered(p, a) {
      var i :| 0 <= i < |a| && Territory(a[i].path) <= p;
      assert ab[i] == a[i];
    }
    if Covered(p, b) {
      var i :| 0 <= i < |b| && Territory(b[i].path) <= p;
      assert ab[|a| + i] == b[i];
    }
  }

  lemma NextCovers(stack: seq<Item>, cap: Cap, p: string)
    requires stack != [] && Named(stack) && Covered(p, Next(stack, cap))
    ensures Covered(p, stack)
  {
    var top, below, dirs := stack[|stack| - 1], stack[..|stack| - 1], TopDirs(stack, cap);
    CoveredJoin(p, below, dirs);
    CoveredJoin(p, below, [top]);
    assert stack == below + [top];
    if Covered(p, dirs) {
      var i :| 0 <= i < |dirs| && Territory(dirs[i].path) <= p;
      BelowTop(top, cap, dirs[i], p);
      assert [top][0] == top;
    }
  }

  /** What the top directory holds itself lies below nothing on the next stack. */
  lemma TopNotCovered(stack: seq<Item>, cap: Cap, p: string)
    requires stack != [] && Territories(stack) && Named(stack) && Territory(stack[|stack| - 1].path) <= p
    requires forall e :: e in EntriesOf(stack[|stack| - 1].dir) ==> !(Territory(Under(stack[|stack| - 1].path, e.name)) <= p)
    ensures !Covered(p, Next(stack, cap))
  {
    var top, below := stack[|stack| - 1], stack[..|stack| - 1];
    var es := EntriesOf(top.dir);
    EntriesAreSiblings(top.dir);
    forall i | 0 <= i < |Next(stack, cap)| ensures !(Territory(Next(stack, cap)[i].path) <= p) {
      var d := Next(stack, cap)[i];
      if i < |below| {
        assert d == stack[i] && Apart(Territory(stack[i].path), Territory(top.path));
        if Territory(d.path) <= p { Comparable(Territory(d.path), Territory(top.path), p); }
      } else {
        assert d == SubdirsIn(es, top.path, top.depth, cap)[i - |below|];
        SubdirIsInside(es, top.path, top.depth, cap, d);
      }
    }
  }

  /** Different paths, each below some directory on the stack. */
  ghost predicate OnlyOnce<T(!new)>(xs: seq<T>, name: T -> string, stack: seq<Item>) {
    Distinct(xs, name) && forall x :: x in xs ==> Covered(name(x), stack)
  }

  lemma TopOnlyOnce(stack: seq<Item>, cap: Cap)
    requires stack != [] && Territories(stack) && Named(stack)
    ensures OnlyOnce(TopFiles(stack), PathOf, stack) && OnlyOnce(TopDirs(stack, cap), DirPath, stack)
    ensures forall f :: f in TopFiles(stack) ==> !Covered(PathOf(f), Next(stack, cap))
    ensures forall d :: d in TopDirs(stack, cap) ==> !Covered(DirPath(d), Next(stack, cap))
  {
    var top := stack[|stack| - 1];
    var es := EntriesOf(top.dir);
    EntriesAreSiblings(top.dir);
    FilesDistinct(es, top.path, top.depth);
    SubdirsDistinct(es, top.path, top.depth, cap);
    forall f | f in TopFiles(stack) ensures Covered(f.path, stack) && !Covered(f.path, Next(stack, cap)) {
      FileIsInside(es, top.path, top.depth, f);
      TopNotCovered(stack, cap, f.path);
    }
    forall d | d in TopDirs(stack, cap) ensures Covered(d.path, stack) && !Covered(d.path, Next(stack, cap)) {
      SubdirIsInside(es, top.path, top.depth, cap, d);
      TopNotCovered(stack, cap, d.path);
    }
  }

  lemma JoinOnlyOnce<T(!new)>(a: seq<T>, b: seq<T>, name: T -> string, stack: seq<Item>, next: seq<Item>)
    requires OnlyOnce(a, name, stack) && OnlyOnce(b, name, next)
    requires forall x :: x in a ==> !Covered(name(x), next)
    requires forall p :: Covered(p, next) ==> Covered(p, stack)
    ensures OnlyOnce(a + b, name, stack)
  {
    forall i, j | 0 <= i < j < |a + b| ensures name((a + b)[i]) != name((a + b)[j]) {
      if i < |a| <= j { assert a[i] in a && b[j - |a|] in b; }
    }
  }

  ghost predicate FoundOnce(found: Found, stack: seq<Item>) {
    OnlyOnce(found.files, PathOf, stack) && OnlyOnce(found.dirs, DirPath, stack)
  }

  lemma StepFoundOnce(stack: seq<Item>, cap: Cap, rest: Found, found: Found)
    requires stack != [] && Territories(stack) && Named(stack) && FoundOnce(rest, Next(stack, cap))
    requires found == Found(TopFiles(stack) + rest.files, TopDirs(stack, cap) + rest.dirs, rest.truncated)
    ensures FoundOnce(found, stack)
  {
    var next := Next(stack, cap);
    TopOnlyOnce(stack, cap);
    forall p | Covered(p, next) ensures Covered(p, stack) { NextCovers(stack, cap, p); }
    JoinOnlyOnce(TopFiles(stack), rest.files, PathOf, stack, next);
    JoinOnlyOnce(TopDirs(stack, cap), rest.dirs, DirPath, stack, next);
  }

  lemma CutFoundOnce(stack: seq<Item>, cap: Cap, room: nat, found: Found)
    requires stack != [] && Territories(stack) && Named(stack) && room <= |TopFiles(stack)|
    requires found == Found(TopFiles(stack)[..room], [], true)
    ensures FoundOnce(found, stack)
  {
    TopOnlyOnce(stack, cap);
  }

  /** A walk meets every file and every directory at most once. */
  lemma {:induction false} WalkDistinct(stack: seq<Item>, room: nat, cap: Cap)
    requires Territories(stack) && Named(stack)
    ensures FoundOnce(Walk(stack, room, cap), stack)
    decreases Weight(stack)
  {
    var found := Walk(stack, room, cap);
    if stack == [] || room == 0 {
      assert found == Found([], [], stack != []);
    } else if |TopFiles(stack)| > room {
      CutFoundOnce(stack, cap, room, found);
    } else {
      var next, left := Next(stack, cap), room - |TopFiles(stack)|;
      NextWeighsLess(stack, cap);
      NextTerritories(stack, cap);
      WalkDistinct(next, left, cap);
      StepFoundOnce(stack, cap, Walk(next, left, cap), found);
    }
  }
}
