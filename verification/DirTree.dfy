/** Directory trees and what the shared-folder walks list of them: visible
    regular files up to a limit, and the directories passed on the way, in the
    order of a walk with an explicit stack. */
module DirTree {
  import opened Wrappers
  import opened NameOrder

  /** Special stands for everything that is neither a regular file with
      readable info, nor a directory, nor a symbolic link. */
  datatype Node =
    | File(size: int, mtime: int)
    | Dir(readable: bool, mtime: int, entries: seq<Entry>)
    | Symlink
    | Special

  datatype Entry = Entry(name: string, node: Node)

  datatype FileEntry = FileEntry(path: string, size: int, mtime: int, depth: nat)

  /** A directory on the stack, by path and depth. */
  datatype Item = Item(dir: Node, path: string, depth: nat)

  /** The depth from which on directories are left out, if any. */
  type Cap = Option<nat>

  predicate Hidden(e: Entry) { (e.name != "" && e.name[0] == '.') || e.node.Symlink? }

  predicate Listed(e: Entry) { !Hidden(e) && e.node.File? }

  predicate Entered(e: Entry, depth: nat, cap: Cap) {
    !Hidden(e) && e.node.Dir? && (cap.None? || depth + 1 < cap.value)
  }

  function Under(path: string, name: string): string { if path == "" then name else path + "/" + name }

  function EntriesOf(n: Node): seq<Entry> { if n.Dir? && n.readable then n.entries else [] }

  function FileAt(e: Entry, path: string, depth: nat): FileEntry
    requires Listed(e)
  {
    FileEntry(Under(path, e.name), e.node.size, e.node.mtime, depth + 1)
  }

  function DirAt(e: Entry, path: string, depth: nat): Item { Item(e.node, Under(path, e.name), depth + 1) }

  function FilesIn(es: seq<Entry>, path: string, depth: nat): seq<FileEntry> {
    if es == [] then []
    else
      var e, before := es[|es| - 1], FilesIn(es[..|es| - 1], path, depth);
      if Listed(e) then before + [FileAt(e, path, depth)] else before
  }

  function SubdirsIn(es: seq<Entry>, path: string, depth: nat, cap: Cap): seq<Item> {
    if es == [] then []
    else
      var e, before := es[|es| - 1], SubdirsIn(es[..|es| - 1], path, depth, cap);
      if Entered(e, depth, cap) then before + [DirAt(e, path, depth)] else before
  }

  // ---------------------------------------------------------------- termination

  function NodeSize(n: Node): nat
    decreases n
  {
    match n
    case Dir(_, _, entries) => 1 + EntriesSize(n, entries)
    case _ => 1
  }

  function EntriesSize(ghost n: Node, es: seq<Entry>): nat
    requires n.Dir? && es <= n.entries
    decreases n, |es|
  {
    if es == [] then 0
    else
      EntriesSize(n, es[..|es| - 1]) + NodeSize(es[|es| - 1].node)
  }

  function Weight(stack: seq<Item>): nat {
    if stack == [] then 0 else Weight(stack[..|stack| - 1]) + NodeSize(stack[|stack| - 1].dir)
  }

  lemma {:induction false} WeightJoin(a: seq<Item>, b: seq<Item>)
    ensures Weight(a + b) == Weight(a) + Weight(b)
    decreases |b|
  {
    if b == [] {
      assert a + b == a;
    } else {
      assert (a + b)[..|a + b| - 1] == a + b[..|b| - 1];
      WeightJoin(a, b[..|b| - 1]);
    }
  }

  lemma {:induction false} SubdirsWeigh(n: Node, es: seq<Entry>, path: string, depth: nat, cap: Cap)
    requires n.Dir? && es <= n.entries
    ensures Weight(SubdirsIn(es, path, depth, cap)) <= EntriesSize(n, es)
    decreases |es|
  {
    if es != [] {
      SubdirsWeigh(n, es[..|es| - 1], path, depth, cap);
      var before := SubdirsIn(es[..|es| - 1], path, depth, cap);
      var last := SubdirsIn(es, path, depth, cap);
      if last != before {
        assert last[..|last| - 1] == before;
      }
    }
  }

  function TopFiles(stack: seq<Item>): seq<FileEntry>
    requires stack != []
  {
    var top := stack[|stack| - 1];
    FilesIn(EntriesOf(top.dir), top.path, top.depth)
  }

  function TopDirs(stack: seq<Item>, cap: Cap): seq<Item>
    requires stack != []
  {
    var top := stack[|stack| - 1];
    SubdirsIn(EntriesOf(top.dir), top.path, top.depth, cap)
  }

  /** The stack after its top directory has been read. */
  function Next(stack: seq<Item>, cap: Cap): (r: seq<Item>)
    requires stack != []
  {
    stack[..|stack| - 1] + TopDirs(stack, cap)
  }

  lemma NextWeighsLess(stack: seq<Item>, cap: Cap)
    requires stack != []
    ensures Weight(Next(stack, cap)) < Weight(stack)
  {
    var cur := stack[|stack| - 1];
    WeightJoin(stack[..|stack| - 1], SubdirsIn(EntriesOf(cur.dir), cur.path, cur.depth, cap));
    if cur.dir.Dir? && cur.dir.readable {
      SubdirsWeigh(cur.dir, cur.dir.entries, cur.path, cur.depth, cap);
    }
  }

  // ------------------------------------------------------------------- the walk

  datatype Found = Found(files: seq<FileEntry>, dirs: seq<Item>, truncated: bool)

  /** What a walk finds that still has room for `room` files. It is cut short
      when the room is gone and a directory or another file comes up. */
  function Walk(stack: seq<Item>, room: nat, cap: Cap): Found
    decreases Weight(stack)
  {
    if stack == [] then Found([], [], false)
    else if room == 0 then Found([], [], true)
    else
      var files := TopFiles(stack);
      if |files| > room then Found(files[..room], [], true)
      else
        NextWeighsLess(stack, cap);
        var rest := Walk(Next(stack, cap), room - |files|, cap);
        Found(files + rest.files, TopDirs(stack, cap) + rest.dirs, rest.truncated)
  }

  // ---------------------------------------------------------- what should be found

  /** File f is visible somewhere below n. */
  ghost predicate Sees(n: Node, path: string, depth: nat, cap: Cap, f: FileEntry)
    decreases n
  {
    var es := EntriesOf(n);
    exists i :: 0 <= i < |es| &&
      ((Listed(es[i]) && f == FileAt(es[i], path, depth))
       || (Entered(es[i], depth, cap) && Sees(es[i].node, Under(path, es[i].name), depth + 1, cap, f)))
  }

  ghost predicate ItemSees(it: Item, cap: Cap, f: FileEntry) { Sees(it.dir, it.path, it.depth, cap, f) }

  ghost predicate SomeSees(stack: seq<Item>, cap: Cap, f: FileEntry) {
    exists i :: 0 <= i < |stack| && ItemSees(stack[i], cap, f)
  }

  lemma {:induction false} FilesInIff(es: seq<Entry>, path: string, depth: nat, f: FileEntry)
    ensures f in FilesIn(es, path, depth) <==> exists i :: 0 <= i < |es| && Listed(es[i]) && f == FileAt(es[i], path, depth)
    decreases |es|
  {
    if es != [] {
      FilesInIff(es[..|es| - 1], path, depth, f);
    }
  }

  lemma {:induction false} SubdirsInIff(es: seq<Entry>, path: string, depth: nat, cap: Cap, d: Item)
    ensures d in SubdirsIn(es, path, depth, cap) <==>
      exists i :: 0 <= i < |es| && Entered(es[i], depth, cap) && d == DirAt(es[i], path, depth)
    decreases |es|
  {
    if es != [] {
      SubdirsInIff(es[..|es| - 1], path, depth, cap, d);
    }
  }

  lemma TopSees(it: Item, cap: Cap, f: FileEntry)
    ensures ItemSees(it, cap, f) <==>
      f in FilesIn(EntriesOf(it.dir), it.path, it.depth)
      || SomeSees(SubdirsIn(EntriesOf(it.dir), it.path, it.depth, cap), cap, f)
  {
    var es := EntriesOf(it.dir);
    var subdirs := SubdirsIn(es, it.path, it.depth, cap);
    FilesInIff(es, it.path, it.depth, f);
    forall i | 0 <= i < |es| && Entered(es[i], it.depth, cap) && ItemSees(DirAt(es[i], it.path, it.depth), cap, f)
      ensures SomeSees(subdirs, cap, f)
    {
      SubdirsInIff(es, it.path, it.depth, cap, DirAt(es[i], it.path, it.depth));
    }
    if SomeSees(subdirs, cap, f) {
      var k :| 0 <= k < |subdirs| && ItemSees(subdirs[k], cap, f);
      SubdirsInIff(es, it.path, it.depth, cap, subdirs[k]);
    }
  }

  lemma SomeSeesJoin(a: seq<Item>, b: seq<Item>, cap: Cap, f: FileEntry)
    ensures SomeSees(a + b, cap, f) <==> SomeSees(a, cap, f) || SomeSees(b, cap, f)
  {
    if SomeSees(a, cap, f) {
      var i :| 0 <= i < |a| && ItemSees(a[i], cap, f);
      assert (a + b)[i] == a[i];
    }
    if SomeSees(b, cap, f) {
      var i :| 0 <= i < |b| && ItemSees(b[i], cap, f);
      assert (a + b)[|a| + i] == b[i];
    }
  }

  lemma StackSees(stack: seq<Item>, cap: Cap, f: FileEntry)
    requires stack != []
    ensures SomeSees(stack, cap, f) <==> f in TopFiles(stack) || SomeSees(Next(stack, cap), cap, f)
  {
    var top, below := stack[|stack| - 1], stack[..|stack| - 1];
    SomeSeesJoin(below, SubdirsIn(EntriesOf(top.dir), top.path, top.depth, cap), cap, f);
    TopSees(top, cap, f);
    assert stack == below + [top];
    SomeSeesJoin(below, [top], cap, f);
    assert SomeSees([top], cap, f) <==> ItemSees([top][0], cap, f);
  }

  /** A walk that was not cut short lists exactly the files visible below. */
  lemma {:induction false} WalkFindsAll(stack: seq<Item>, room: nat, cap: Cap, f: FileEntry)
    requires !Walk(stack, room, cap).truncated
    ensures f in Walk(stack, room, cap).files <==> SomeSees(stack, cap, f)
    decreases Weight(stack)
  {
    if stack != [] {
      NextWeighsLess(stack, cap);
      WalkFindsAll(Next(stack, cap), room - |TopFiles(stack)|, cap, f);
      StackSees(stack, cap, f);
    }
  }
}
