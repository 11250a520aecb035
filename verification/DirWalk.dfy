/** The shared-folder walks themselves: the plain walk, the walk that also
    gathers empty directories in one pass, and the collector it replaces. */
module DirWalk {
  import opened Wrappers
  import opened NameOrder
  import opened DirTree
  import opened DirPaths
  import opened EmptyDirs

  function Slashes(s: string): nat {
    if s == "" then 0 else Slashes(s[..|s| - 1]) + if s[|s| - 1] == '/' then 1 else 0
  }

  /** Components of a relative path. */
  function DepthOf(rel: string): nat { if rel == "" then 0 else Slashes(rel) + 1 }

  /** What a walk from directory `rel` finds. */
  function FoundIn(root: Node, rel: string, base: nat, limit: nat, cap: Cap): Found {
    Walk([Item(root, rel, base)], limit, cap)
  }

  function Onto(files: seq<FileEntry>, dirs: seq<Item>, rest: Found): Found {
    Found(files + rest.files, dirs + rest.dirs, rest.truncated)
  }

  lemma {:induction false} FilesFront(es: seq<Entry>, k: nat, path: string, depth: nat)
    requires k <= |es|
    ensures FilesIn(es[..k], path, depth) <= FilesIn(es, path, depth)
    decreases |es|
  {
    if k < |es| {
      assert es[..|es| - 1][..k] == es[..k];
      FilesFront(es[..|es| - 1], k, path, depth);
    } else {
      assert es[..k] == es;
    }
  }

  lemma TooMany(es: seq<Entry>, k: nat, path: string, depth: nat, room: nat)
    requires k < |es| && Listed(es[k]) && |FilesIn(es[..k], path, depth)| == room
    ensures |FilesIn(es, path, depth)| > room && FilesIn(es, path, depth)[..room] == FilesIn(es[..k], path, depth)
  {
    assert es[..k + 1][..k] == es[..k];
    FilesFront(es, k + 1, path, depth);
    FilesFront(es, k, path, depth);
  }

  // --------------------------------------------------------------- the plain walk

  /** One directory: its files onto `out`, unless they are too many, and its
      subdirectories onto the stack. */
  method ScanDir(cur: Item, before: seq<FileEntry>, limit: nat, cap: Cap)
    returns (out: seq<FileEntry>, pushed: seq<Item>, cut: bool)
    requires |before| <= limit
    ensures var files := FilesIn(EntriesOf(cur.dir), cur.path, cur.depth);
            && cut == (|before| + |files| > limit)
            && out == before + (if cut then files[..limit - |before|] else files)
    ensures !cut ==> pushed == SubdirsIn(EntriesOf(cur.dir), cur.path, cur.depth, cap)
  {
    out, pushed, cut := before, [], false;
    var rd := EntriesOf(cur.dir);
    for k := 0 to |rd|
      invariant out == before + FilesIn(rd[..k], cur.path, cur.depth) && |out| <= limit
      invariant pushed == SubdirsIn(rd[..k], cur.path, cur.depth, cap)
    {
      var e := rd[k];
      assert rd[..k + 1][..k] == rd[..k];
      if Hidden(e) {
        continue;
      }
      var sub := Under(cur.path, e.name);
      if e.node.Dir? {
        if cap.Some? && cur.depth + 1 >= cap.value {
          continue;
        }
        pushed := pushed + [Item(e.node, sub, cur.depth + 1)];
        continue;
      }
      if !e.node.File? {
        continue;
      }
      if |out| >= limit {
        TooMany(rd, k, cur.path, cur.depth, limit - |before|);
        return out, pushed, true;
      }
      out := out + [FileEntry(sub, e.node.size, e.node.mtime, cur.depth + 1)];
    }
    assert rd[..|rd|] == rd;
  }

  method WalkFrom(root: Item, limit: nat, cap: Cap) returns (out: seq<FileEntry>, truncated: bool)
    ensures out == Walk([root], limit, cap).files && truncated == Walk([root], limit, cap).truncated
  {
    out := [];
    ghost var dirs: seq<Item> := [];
    var stack := [root];
    while stack != []
      invariant |out| <= limit
      invariant Walk([root], limit, cap) == Onto(out, dirs, Walk(stack, limit - |out|, cap))
      decreases Weight(stack)
    {
      if |out| >= limit {
        return out, true;
      }
      var cur := stack[|stack| - 1];
      ghost var was := stack;
      var next, pushed, cut := ScanDir(cur, out, limit, cap);
      if cut {
        return next, true;
      }
      NextWeighsLess(stack, cap);
      stack := stack[..|stack| - 1] + pushed;
      Unrolled(was, limit - |out|, cap, out, dirs);
      dirs := dirs + TopDirs(was, cap);
      out := next;
    }
    return out, false;
  }

  lemma Unrolled(stack: seq<Item>, room: nat, cap: Cap, files: seq<FileEntry>, dirs: seq<Item>)
    requires stack != [] && room > 0 && |TopFiles(stack)| <= room
    ensures Onto(files, dirs, Walk(stack, room, cap))
         == Onto(files + TopFiles(stack), dirs + TopDirs(stack, cap), Walk(Next(stack, cap), room - |TopFiles(stack)|, cap))
  {}

  // ------------------------------------------------------------- the one-pass walk

  function EntryFor(d: Item, prefix: string): ZipDir { ZipDirOf(TrimPrefix(d.path, prefix), d) }

  /** The map of all directories met, filled one by one. */
  function Record(m: map<string, ZipDir>, ds: seq<Item>, prefix: string): map<string, ZipDir> {
    if ds == [] then m
    else Record(m, ds[..|ds| - 1], prefix)[ds[|ds| - 1].path := EntryFor(ds[|ds| - 1], prefix)]
  }

  lemma {:induction false} RecordJoin(m: map<string, ZipDir>, a: seq<Item>, b: seq<Item>, prefix: string)
    ensures Record(Record(m, a, prefix), b, prefix) == Record(m, a + b, prefix)
    decreases |b|
  {
    if b == [] {
      assert a + b == a;
    } else {
      assert (a + b)[..|a + b| - 1] == a + b[..|b| - 1];
      RecordJoin(m, a, b[..|b| - 1], prefix);
    }
  }

  lemma {:induction false} RecordHolds(ds: seq<Item>, prefix: string)
    requires Distinct(ds, DirPath)
    ensures forall k :: k in Record(map[], ds, prefix) <==> exists d :: d in ds && d.path == k
    ensures forall d :: d in ds ==> d.path in Record(map[], ds, prefix) && Record(map[], ds, prefix)[d.path] == EntryFor(d, prefix)
  {
    if ds != [] {
      var n := |ds| - 1;
      RecordHolds(ds[..n], prefix);
      forall i | 0 <= i < n ensures ds[i].path != ds[n].path {
        assert DirPath(ds[i]) != DirPath(ds[n]);
      }
      assert forall d :: d in ds <==> d in ds[..n] || d == ds[n];
    }
  }

  lemma {:induction false} AncestorsJoin(a: seq<FileEntry>, b: seq<FileEntry>, prefix: string)
    ensures AncestorsOf(a + b, prefix) == AncestorsOf(a, prefix) + AncestorsOf(b, prefix)
    decreases |b|
  {
    if b == [] {
      assert a + b == a;
    } else {
      assert (a + b)[..|a + b| - 1] == a + b[..|b| - 1];
      AncestorsJoin(a, b[..|b| - 1], prefix);
    }
  }

  lemma RecordOne(m: map<string, ZipDir>, ds: seq<Item>, d: Item, prefix: string)
    ensures Record(m, ds + [d], prefix) == Record(m, ds, prefix)[d.path := EntryFor(d, prefix)]
  {
    assert (ds + [d])[..|ds|] == ds;
  }

  lemma AncestorsOne(files: seq<FileEntry>, f: FileEntry, prefix: string)
    ensures AncestorsOf(files + [f], prefix) == AncestorsOf(files, prefix) + Ancestors(TrimPrefix(f.path, prefix))
  {
    assert (files + [f])[..|files|] == files;
  }

  /** What scanning the first k entries of a directory has done. */
  ghost predicate Scanned(cur: Item, k: nat, cap: Cap, files: seq<FileEntry>, pushed: seq<Item>) {
    && k <= |EntriesOf(cur.dir)|
    && files == FilesIn(EntriesOf(cur.dir)[..k], cur.path, cur.depth)
    && pushed == SubdirsIn(EntriesOf(cur.dir)[..k], cur.path, cur.depth, cap)
  }

  /** Neither a file nor a directory nor a link. */
  predicate Special(e: Entry) { !e.node.Dir? && !e.node.File? }

  predicate Capped(e: Entry, depth: nat, cap: Cap) { e.node.Dir? && cap.Some? && depth + 1 >= cap.value }

  lemma ScannedPast(cur: Item, k: nat, cap: Cap, files: seq<FileEntry>, pushed: seq<Item>)
    requires k < |EntriesOf(cur.dir)| && Scanned(cur, k, cap, files, pushed)
    requires !Listed(EntriesOf(cur.dir)[k]) && !Entered(EntriesOf(cur.dir)[k], cur.depth, cap)
    ensures Scanned(cur, k + 1, cap, files, pushed)
  {
    var es := EntriesOf(cur.dir);
    assert es[..k + 1][..k] == es[..k];
  }

  lemma ScannedDir(cur: Item, k: nat, cap: Cap, files: seq<FileEntry>, pushed: seq<Item>, d: Item)
    requires k < |EntriesOf(cur.dir)| && Scanned(cur, k, cap, files, pushed)
    requires Entered(EntriesOf(cur.dir)[k], cur.depth, cap) && d == DirAt(EntriesOf(cur.dir)[k], cur.path, cur.depth)
    ensures Scanned(cur, k + 1, cap, files, pushed + [d])
  {
    var es := EntriesOf(cur.dir);
    assert es[..k + 1][..k] == es[..k];
  }

  lemma ScannedFile(cur: Item, k: nat, cap: Cap, files: seq<FileEntry>, pushed: seq<Item>, f: FileEntry)
    requires k < |EntriesOf(cur.dir)| && Scanned(cur, k, cap, files, pushed)
    requires Listed(EntriesOf(cur.dir)[k]) && f == FileAt(EntriesOf(cur.dir)[k], cur.path, cur.depth)
    ensures Scanned(cur, k + 1, cap, files + [f], pushed)
  {
    var es := EntriesOf(cur.dir);
    assert es[..k + 1][..k] == es[..k];
  }

  lemma ScannedTooMany(cur: Item, k: nat, cap: Cap, files: seq<FileEntry>, pushed: seq<Item>)
    requires k < |EntriesOf(cur.dir)| && Scanned(cur, k, cap, files, pushed) && Listed(EntriesOf(cur.dir)[k])
    ensures var all := FilesIn(EntriesOf(cur.dir), cur.path, cur.depth);
            |all| > |files| && all[..|files|] == files
  {
    TooMany(EntriesOf(cur.dir), k, cur.path, cur.depth, |files|);
  }

  lemma ScannedAll(cur: Item, cap: Cap, files: seq<FileEntry>, pushed: seq<Item>)
    requires Scanned(cur, |EntriesOf(cur.dir)|, cap, files, pushed)
    ensures files == FilesIn(EntriesOf(cur.dir), cur.path, cur.depth)
    ensures pushed == SubdirsIn(EntriesOf(cur.dir), cur.path, cur.depth, cap)
  {
    assert EntriesOf(cur.dir)[..|EntriesOf(cur.dir)|] == EntriesOf(cur.dir);
  }

  /** The map and the marks are those of the files and directories so far. */
  ghost predicate Tracks(all: map<string, ZipDir>, marked: set<string>, files: seq<FileEntry>, pushed: seq<Item>,
                         prefix: string, all': map<string, ZipDir>, marked': set<string>) {
    all' == Record(all, pushed, prefix) && marked' == marked + AncestorsOf(files, prefix)
  }

  lemma TracksDir(all: map<string, ZipDir>, marked: set<string>, files: seq<FileEntry>, pushed: seq<Item>,
                  prefix: string, all': map<string, ZipDir>, marked': set<string>, d: Item)
    requires Tracks(all, marked, files, pushed, prefix, all', marked') && d.dir.Dir?
    ensures Tracks(all, marked, files, pushed + [d], prefix,
                   all'[d.path := ZipDir(TrimPrefix(d.path, prefix) + "/", d.dir.mtime)], marked')
  {
    RecordOne(all, pushed, d, prefix);
  }

  lemma TracksFile(all: map<string, ZipDir>, marked: set<string>, files: seq<FileEntry>, pushed: seq<Item>,
                   prefix: string, all': map<string, ZipDir>, marked': set<string>, f: FileEntry)
    requires Tracks(all, marked, files, pushed, prefix, all', marked')
    ensures Tracks(all, marked, files + [f], pushed, prefix, all', marked' + Ancestors(TrimPrefix(f.path, prefix)))
  {
    AncestorsOne(files, f, prefix);
  }

  /** One directory of the one-pass walk. */
  method ScanWithEmpty(cur: Item, before: seq<FileEntry>, all: map<string, ZipDir>, marked: set<string>,
                       prefix: string, limit: nat, cap: Cap)
    returns (out: seq<FileEntry>, pushed: seq<Item>, all': map<string, ZipDir>, marked': set<string>, cut: bool)
    requires |before| <= limit
    ensures var files := FilesIn(EntriesOf(cur.dir), cur.path, cur.depth);
            && cut == (|before| + |files| > limit)
            && out == before + (if cut then files[..limit - |before|] else files)
    ensures !cut ==>
      && pushed == SubdirsIn(EntriesOf(cur.dir), cur.path, cur.depth, cap)
      && all' == Record(all, pushed, prefix)
      && marked' == marked + AncestorsOf(FilesIn(EntriesOf(cur.dir), cur.path, cur.depth), prefix)
  {
    out, pushed, cut := before, [], false;
    all', marked' := all, marked;
    var rd := EntriesOf(cur.dir);
    ghost var files: seq<FileEntry> := [];
    assert Scanned(cur, 0, cap, files, pushed);
    for k := 0 to |rd|
      invariant Scanned(cur, k, cap, files, pushed)
      invariant out == before + files && |out| <= limit
      invariant Tracks(all, marked, files, pushed, prefix, all', marked')
    {
      var e := rd[k];
      var sub := Under(cur.path, e.name);
      if Hidden(e) || Special(e) || Capped(e, cur.depth, cap) {
        ScannedPast(cur, k, cap, files, pushed);
      } else if e.node.Dir? {
        var item := Item(e.node, sub, cur.depth + 1);
        ScannedDir(cur, k, cap, files, pushed, item);
        TracksDir(all, marked, files, pushed, prefix, all', marked', item);
        all' := all'[sub := ZipDir(TrimPrefix(sub, prefix) + "/", e.node.mtime)];
        pushed := pushed + [item];
      } else {
        if |out| >= limit {
          ScannedTooMany(cur, k, cap, files, pushed);
          cut := true;
          return;
        }
        var entry := FileEntry(sub, e.node.size, e.node.mtime, cur.depth + 1);
        ScannedFile(cur, k, cap, files, pushed, entry);
        TracksFile(all, marked, files, pushed, prefix, all', marked', entry);
        out := out + [entry];
        files := files + [entry];
        marked' := MarkAncestors(TrimPrefix(sub, prefix), marked');
      }
    }
    ScannedAll(cur, cap, files, pushed);
  }

  /** The loop of the one-pass walk: files, all directories, marked ancestors. */
  method WalkWithEmpty(root: Item, prefix: string, limit: nat, cap: Cap)
    returns (out: seq<FileEntry>, all: map<string, ZipDir>, marked: set<string>, truncated: bool)
    ensures out == Walk([root], limit, cap).files && truncated == Walk([root], limit, cap).truncated
    ensures !truncated ==> all == Record(map[], Walk([root], limit, cap).dirs, prefix) && marked == AncestorsOf(out, prefix)
  {
    out, all, marked, truncated := [], map[], {}, false;
    ghost var dirs: seq<Item> := [];
    var stack := [root];
    UnderwayStarts([root], limit, cap);
    assert Record(map[], [], prefix) == map[];
    while stack != []
      invariant Underway([root], stack, limit, cap, out, dirs)
      invariant all == Record(map[], dirs, prefix) && marked == AncestorsOf(out, prefix)
      decreases Weight(stack)
    {
      UnderwayStops([root], stack, limit, cap, out, dirs);
      if |out| >= limit {
        truncated := true;
        return;
      }
      var next, pushed, all', marked', cut := ScanWithEmpty(stack[|stack| - 1], out, all, marked, prefix, limit, cap);
      if cut {
        out, truncated := next, true;
        return;
      }
      UnderwayNext([root], stack, limit, cap, out, dirs);
      RecordJoin(map[], dirs, pushed, prefix);
      AncestorsJoin(out, TopFiles(stack), prefix);
      NextWeighsLess(stack, cap);
      stack := stack[..|stack| - 1] + pushed;
      dirs := dirs + pushed;
      out, all, marked := next, all', marked';
    }
    UnderwayStops([root], stack, limit, cap, out, dirs);
  }

  /** A walk from `start` has come to `stack` with these files and directories. */
  ghost predicate Underway(start: seq<Item>, stack: seq<Item>, limit: nat, cap: Cap, out: seq<FileEntry>, dirs: seq<Item>) {
    |out| <= limit && Walk(start, limit, cap) == Onto(out, dirs, Walk(stack, limit - |out|, cap))
  }

  lemma UnderwayStops(start: seq<Item>, stack: seq<Item>, limit: nat, cap: Cap, out: seq<FileEntry>, dirs: seq<Item>)
    requires Underway(start, stack, limit, cap, out, dirs)
    ensures stack == [] ==> Walk(start, limit, cap) == Found(out, dirs, false)
    ensures stack != [] && |out| == limit ==> Walk(start, limit, cap) == Found(out, dirs, true)
    ensures stack != [] && |out| < limit && |out| + |TopFiles(stack)| > limit ==>
              Walk(start, limit, cap) == Found(out + TopFiles(stack)[..limit - |out|], dirs, true)
  {
    assert out + [] == out && dirs + [] == dirs;
  }

  lemma UnderwayStarts(start: seq<Item>, limit: nat, cap: Cap)
    ensures Underway(start, start, limit, cap, [], [])
  {
    var w := Walk(start, limit, cap);
    assert [] + w.files == w.files && [] + w.dirs == w.dirs;
  }

  lemma UnderwayNext(start: seq<Item>, stack: seq<Item>, limit: nat, cap: Cap, out: seq<FileEntry>, dirs: seq<Item>)
    requires stack != [] && Underway(start, stack, limit, cap, out, dirs)
    requires |out| < limit && |out| + |TopFiles(stack)| <= limit
    ensures Underway(start, Next(stack, cap), limit, cap, out + TopFiles(stack), dirs + TopDirs(stack, cap))
  {
    Unrolled(stack, limit - |out|, cap, out, dirs);
  }

  /** The directories of the map that were never marked, sorted by name. */
  method Unmarked(all: map<string, ZipDir>, marked: set<string>, prefix: string) returns (empty: seq<ZipDir>)
    requires forall k :: k in all ==> prefix < k && all[k].name == k[|prefix|..] + "/"
    ensures Sorted(empty, ZipName)
    ensures forall z :: z in empty <==> exists k :: k in all && k[|prefix|..] !in marked && z == all[k]
  {
    empty := [];
    var todo := all.Keys;
    while todo != {}
      invariant todo <= all.Keys && Distinct(empty, ZipName)
      invariant forall z :: z in empty <==> exists k :: k in all && k !in todo && k[|prefix|..] !in marked && z == all[k]
    {
      var sub :| sub in todo;
      var short, d := TrimPrefix(sub, prefix), all[sub];
      todo := todo - {sub};
      if short == "" {
        continue;
      }
      var name := d.name[..|d.name| - 1];
      assert name == short;
      if name !in marked {
        forall z | z in empty ensures z.name != d.name {
          var k :| k in all && k !in todo + {sub} && z == all[k];
          DifferentNames(prefix, k, sub);
        }
        empty := empty + [d];
      }
    }
    empty := SortByName(empty, ZipName);
  }

  lemma DifferentNames(prefix: string, k: string, sub: string)
    requires prefix <= k && prefix <= sub && k != sub
    ensures k[|prefix|..] + "/" != sub[|prefix|..] + "/"
  {
    var a, b := k[|prefix|..], sub[|prefix|..];
    assert k == prefix + a && sub == prefix + b;
    assert (a + "/")[..|a|] == a && (b + "/")[..|b|] == b;
  }

  // ---------------------------------------------------------------- the collector

  function Unseen(ds: seq<Item>, marked: set<string>): seq<ZipDir> {
    if ds == [] then []
    else
      var d, before := ds[|ds| - 1], Unseen(ds[..|ds| - 1], marked);
      if d.path in marked then before else before + [ZipDirOf(d.path, d)]
  }

  lemma {:induction false} UnseenJoin(a: seq<Item>, b: seq<Item>, marked: set<string>)
    ensures Unseen(a + b, marked) == Unseen(a, marked) + Unseen(b, marked)
    decreases |b|
  {
    if b == [] {
      assert a + b == a;
    } else {
      assert (a + b)[..|a + b| - 1] == a + b[..|b| - 1];
      UnseenJoin(a, b[..|b| - 1], marked);
    }
  }

  lemma {:induction false} UnseenIff(ds: seq<Item>, marked: set<string>, z: ZipDir)
    ensures z in Unseen(ds, marked) <==> exists d :: d in ds && d.path !in marked && z == ZipDirOf(d.path, d)
  {
    if ds != [] {
      var n := |ds| - 1;
      UnseenIff(ds[..n], marked, z);
      assert forall d :: d in ds <==> d in ds[..n] || d == ds[n];
    }
  }

  lemma {:induction false} UnseenDistinct(ds: seq<Item>, marked: set<string>)
    requires Distinct(ds, DirPath)
    ensures Distinct(Unseen(ds, marked), ZipName)
  {
    if ds != [] {
      var n := |ds| - 1;
      var before := Unseen(ds[..n], marked);
      UnseenDistinct(ds[..n], marked);
      forall i | 0 <= i < |before| ensures before[i].name != ds[n].path + "/" {
        UnseenIff(ds[..n], marked, before[i]);
        var d :| d in ds[..n] && d.path !in marked && before[i] == ZipDirOf(d.path, d);
        var j :| 0 <= j < n && ds[j] == d;
        assert DirPath(ds[j]) != DirPath(ds[n]);
        SlashesOff(d.path, ds[n].path);
      }
    }
  }

  lemma SlashesOff(a: string, b: string)
    requires a != b
    ensures a + "/" != b + "/"
  {
    assert (a + "/")[..|a|] == a && (b + "/")[..|b|] == b;
  }

  /** The subdirectories of one directory, and those above no file. */
  method ScanDirs(cur: Item, marked: set<string>, cap: Cap) returns (pushed: seq<Item>, empty: seq<ZipDir>)
    ensures pushed == SubdirsIn(EntriesOf(cur.dir), cur.path, cur.depth, cap)
    ensures empty == Unseen(pushed, marked)
  {
    pushed, empty := [], [];
    var rd := EntriesOf(cur.dir);
    for k := 0 to |rd|
      invariant pushed == SubdirsIn(rd[..k], cur.path, cur.depth, cap)
      invariant empty == Unseen(pushed, marked)
    {
      var e := rd[k];
      assert rd[..k + 1][..k] == rd[..k];
      if Hidden(e) || !e.node.Dir? {
        continue;
      }
      var sub := Under(cur.path, e.name);
      if cap.Some? && cur.depth + 1 >= cap.value {
        continue;
      }
      pushed := pushed + [Item(e.node, sub, cur.depth + 1)];
      assert pushed[..|pushed| - 1] == SubdirsIn(rd[..k], cur.path, cur.depth, cap);
      if sub !in marked {
        empty := empty + [ZipDir(sub + "/", e.node.mtime)];
      }
    }
    assert rd[..|rd|] == rd;
  }

  method MarkAll(entries: seq<FileEntry>, prefix: string) returns (marked: set<string>)
    ensures marked == AncestorsOf(entries, prefix)
  {
    marked := {};
    for n := 0 to |entries|
      invariant marked == AncestorsOf(entries[..n], prefix)
    {
      assert entries[..n + 1][..n] == entries[..n];
      marked := MarkAncestors(TrimPrefix(entries[n].path, prefix), marked);
    }
    assert entries[..|entries|] == entries;
  }

  /** The collector's own walk. */
  method CollectUnseen(root: Item, marked: set<string>, cap: Cap) returns (empty: seq<ZipDir>)
    ensures empty == Unseen(Collect([root], cap), marked)
  {
    var stack := [root];
    empty := [];
    assert [] + Unseen(Collect(stack, cap), marked) == Unseen(Collect(stack, cap), marked);
    while stack != []
      invariant Unseen(Collect([root], cap), marked) == empty + Unseen(Collect(stack, cap), marked)
      decreases Weight(stack)
    {
      var pushed, more := ScanDirs(stack[|stack| - 1], marked, cap);
      NextWeighsLess(stack, cap);
      UnseenJoin(pushed, Collect(Next(stack, cap), cap), marked);
      Associate(empty, more, Unseen(Collect(Next(stack, cap), cap), marked));
      stack := stack[..|stack| - 1] + pushed;
      empty := empty + more;
    }
  }

  lemma Associate(a: seq<ZipDir>, b: seq<ZipDir>, c: seq<ZipDir>)
    ensures a + (b + c) == (a + b) + c
  {}

  lemma SortedUnseen(ds: seq<Item>, marked: set<string>, sorted: seq<ZipDir>)
    requires Sorted(sorted, ZipName) && forall z :: z in sorted <==> z in Unseen(ds, marked)
    ensures EmptyList(sorted, ds, marked)
  {
    forall z ensures z in sorted <==> exists d :: d in ds && d.path !in marked && z == ZipDirOf(d.path, d) {
      UnseenIff(ds, marked, z);
    }
  }

  /** collectEmptyDirs and collectEmptyDirsAbs: a second walk, after the files
      are known. */
  method CollectEmptyDirs(root: Node, base: nat, entries: seq<FileEntry>, prefix: string, cap: Cap)
    returns (empty: seq<ZipDir>)
    requires WellNamed(root)
    ensures EmptyList(empty, Collect([Item(root, "", base)], cap), AncestorsOf(entries, prefix))
  {
    var marked := MarkAll(entries, prefix);
    var unsorted := CollectUnseen(Item(root, "", base), marked, cap);
    ghost var ds := Collect([Item(root, "", base)], cap);
    CollectDistinct(root, base, cap);
    UnseenDistinct(ds, marked);
    empty := SortByName(unsorted, ZipName);
    SortedUnseen(ds, marked, empty);
  }

  /** A walk with room for every file meets what the collector meets. */
  lemma {:induction false} CollectIsWalk(stack: seq<Item>, room: nat, cap: Cap)
    requires !Walk(stack, room, cap).truncated
    ensures Walk(stack, room, cap).dirs == Collect(stack, cap)
    decreases Weight(stack)
  {
    if stack != [] {
      NextWeighsLess(stack, cap);
      CollectIsWalk(Next(stack, cap), room - |TopFiles(stack)|, cap);
    }
  }

  lemma {:induction false} EnoughRoom(stack: seq<Item>, cap: Cap) returns (room: nat)
    ensures !Walk(stack, room, cap).truncated
    decreases Weight(stack)
  {
    if stack == [] {
      room := 0;
    } else {
      NextWeighsLess(stack, cap);
      var more := EnoughRoom(Next(stack, cap), cap);
      room := |TopFiles(stack)| + more + 1;
      MoreRoom(Next(stack, cap), more, more + 1, cap);
    }
  }

  lemma {:induction false} MoreRoom(stack: seq<Item>, room: nat, larger: nat, cap: Cap)
    requires !Walk(stack, room, cap).truncated && room <= larger
    ensures !Walk(stack, larger, cap).truncated
    decreases Weight(stack)
  {
    if stack != [] {
      NextWeighsLess(stack, cap);
      MoreRoom(Next(stack, cap), room - |TopFiles(stack)|, larger - |TopFiles(stack)|, cap);
    }
  }

  lemma CollectDistinct(root: Node, base: nat, cap: Cap)
    requires WellNamed(root)
    ensures Distinct(Collect([Item(root, "", base)], cap), DirPath)
  {
    var start := [Item(root, "", base)];
    var room := EnoughRoom(start, cap);
    CollectIsWalk(start, room, cap);
    WalkDistinct(start, room, cap);
  }

  // --------------------------------------------------------- the exported walks

  ghost predicate SameElements<T(!new)>(a: seq<T>, b: seq<T>) { forall x :: x in a <==> x in b }

  lemma StartIsNamed(root: Node, path: string, base: nat)
    requires WellNamed(root)
    ensures Named([Item(root, path, base)]) && Territories([Item(root, path, base)])
  {}

  lemma FoundDistinct(root: Node, rel: string, base: nat, limit: nat, cap: Cap)
    requires WellNamed(root)
    ensures Distinct(FoundIn(root, rel, base, limit, cap).files, PathOf)
    ensures Distinct(FoundIn(root, rel, base, limit, cap).dirs, DirPath)
    ensures forall f :: f in FoundIn(root, rel, base, limit, cap).files ==> Territory(rel) <= f.path
    ensures forall d :: d in FoundIn(root, rel, base, limit, cap).dirs ==> Territory(rel) <= d.path
  {
    var start := [Item(root, rel, base)];
    StartIsNamed(root, rel, base);
    WalkDistinct(start, limit, cap);
    forall p | Covered(p, start) ensures Territory(rel) <= p {}
    forall f | f in FoundIn(root, rel, base, limit, cap).files ensures Territory(rel) <= f.path { assert Covered(PathOf(f), start); }
    forall d | d in FoundIn(root, rel, base, limit, cap).dirs ensures Territory(rel) <= d.path { assert Covered(DirPath(d), start); }
  }

  /** A walk under `rel` meets the collected directories, with longer paths. */
  lemma FoundIsLifted(root: Node, rel: string, base: nat, limit: nat, cap: Cap)
    requires WellNamed(root) && !FoundIn(root, rel, base, limit, cap).truncated
    ensures FoundIn(root, rel, base, limit, cap).dirs == LiftAll(rel, Collect([Item(root, "", base)], cap))
  {
    var start := [Item(root, "", base)];
    StartIsNamed(root, "", base);
    assert LiftAll(rel, start) == [Item(root, rel, base)];
    WalkMeetsCollected(rel, start, limit, cap);
  }

  lemma {:induction false} CollectedNotRoot(stack: seq<Item>, cap: Cap)
    requires Territories(stack) && Named(stack)
    ensures forall d :: d in Collect(stack, cap) ==> d.path != "" && d.dir.Dir?
    decreases Weight(stack)
  {
    if stack != [] {
      NextWeighsLess(stack, cap);
      NextTerritories(stack, cap);
      CollectedNotRoot(Next(stack, cap), cap);
      var top := stack[|stack| - 1];
      EntriesAreSiblings(top.dir);
      forall d | d in TopDirs(stack, cap) ensures d.path != "" && d.dir.Dir? {
        SubdirsInIff(EntriesOf(top.dir), top.path, top.depth, cap, d);
      }
    }
  }

  /** The map of a finished one-pass walk holds an entry for each collected
      directory, under its long path. */
  lemma MapOfCollected(root: Node, rel: string, base: nat, limit: nat, cap: Cap, k: string)
    requires WellNamed(root) && !FoundIn(root, rel, base, limit, cap).truncated
    ensures var all := Record(map[], FoundIn(root, rel, base, limit, cap).dirs, Territory(rel));
            var ds := Collect([Item(root, "", base)], cap);
            && (k in all <==> exists d :: d in ds && k == Full(rel, d.path))
            && (forall d :: d in ds && k == Full(rel, d.path) ==>
                  k in all && all[k] == ZipDirOf(d.path, d) && d.path != "" && k == Territory(rel) + d.path)
  {
    var dirs, ds := FoundIn(root, rel, base, limit, cap).dirs, Collect([Item(root, "", base)], cap);
    FoundDistinct(root, rel, base, limit, cap);
    FoundIsLifted(root, rel, base, limit, cap);
    RecordHolds(dirs, Territory(rel));
    StartIsNamed(root, "", base);
    CollectedNotRoot([Item(root, "", base)], cap);
    forall d | d in ds ensures Lift(rel, d) in dirs && EntryFor(Lift(rel, d), Territory(rel)) == ZipDirOf(d.path, d) {
      var i :| 0 <= i < |ds| && ds[i] == d;
      assert dirs[i] == Lift(rel, d);
    }
    forall d' | d' in dirs ensures exists d :: d in ds && d' == Lift(rel, d) {
      var i :| 0 <= i < |dirs| && dirs[i] == d';
      assert ds[i] in ds;
    }
  }
}
