/** The alignment patterns inside the data area, and all function patterns of a
    version together.  They leave no module of column 6 unset, which is what
    the zigzag walk relies on when it skips that column. */
module QrAlignment {
  import opened Wrappers
  import opened QrModules
  import opened QrPatterns

  // ------------------------------------------------------- where the centres lie

  function Side40(version: int): int { 4 * version + 17 }

  /** Far enough apart not to overlap, the outer two in line with the probes,
      the others clear of them. */
  predicate Spaced(pos: seq<int>, n: int) {
    && (forall i, j | 0 <= i < j < |pos| :: pos[i] + 5 <= pos[j])
    && (pos != [] ==>
          && |pos| >= 2 && pos[0] == 6 && pos[|pos| - 1] == n - 7 && n >= 25
          && forall i | 0 < i < |pos| - 1 :: 10 <= pos[i] <= n - 11)
  }

  /** getPatternPosition: the centres' rows, and columns, by version. */
  function PatternPosition(version: nat): (pos: seq<int>)
    requires 1 <= version <= 40
    ensures Spaced(pos, Side40(version))
  {
    if version <= 13 then UpToThree(version)
    else if version <= 20 then UpToFour(version)
    else if version <= 27 then UpToFive(version)
    else if version <= 34 then UpToSix(version)
    else UpToSeven(version)
  }

  function UpToThree(version: nat): (pos: seq<int>)
    requires 1 <= version <= 13
    ensures Spaced(pos, Side40(version))
  {
    match version
    case 1 => []
    case 2 => [6, 18]
    case 3 => [6, 22]
    case 4 => [6, 26]
    case 5 => [6, 30]
    case 6 => [6, 34]
    case 7 => [6, 22, 38]
    case 8 => [6, 24, 42]
    case 9 => [6, 26, 46]
    case 10 => [6, 28, 50]
    case 11 => [6, 30, 54]
    case 12 => [6, 32, 58]
    case _ => [6, 34, 62]
  }

  function UpToFour(version: nat): (pos: seq<int>)
    requires 14 <= version <= 20
    ensures Spaced(pos, Side40(version))
  {
    match version
    case 14 => [6, 26, 46, 66]
    case 15 => [6, 26, 48, 70]
    case 16 => [6, 26, 50, 74]
    case 17 => [6, 30, 54, 78]
    case 18 => [6, 30, 56, 82]
    case 19 => [6, 30, 58, 86]
    case _ => [6, 34, 62, 90]
  }

  function UpToFive(version: nat): (pos: seq<int>)
    requires 21 <= version <= 27
    ensures Spaced(pos, Side40(version))
  {
    match version
    case 21 => [6, 28, 50, 72, 94]
    case 22 => [6, 26, 50, 74, 98]
    case 23 => [6, 30, 54, 78, 102]
    case 24 => [6, 28, 54, 80, 106]
    case 25 => [6, 32, 58, 84, 110]
    case 26 => [6, 30, 58, 86, 114]
    case _ => [6, 34, 62, 90, 118]
  }

  function UpToSix(version: nat): (pos: seq<int>)
    requires 28 <= version <= 34
    ensures Spaced(pos, Side40(version))
  {
    match version
    case 28 => [6, 26, 50, 74, 98, 122]
    case 29 => [6, 30, 54, 78, 102, 126]
    case 30 => [6, 26, 52, 78, 104, 130]
    case 31 => [6, 30, 56, 82, 108, 134]
    case 32 => [6, 34, 60, 86, 112, 138]
    case 33 => [6, 30, 58, 86, 114, 142]
    case _ => [6, 34, 62, 90, 118, 146]
  }

  function UpToSeven(version: nat): (pos: seq<int>)
    requires 35 <= version <= 40
    ensures Spaced(pos, Side40(version))
  {
    match version
    case 35 => [6, 30, 54, 78, 102, 126, 150]
    case 36 => [6, 24, 50, 76, 102, 128, 154]
    case 37 => [6, 28, 54, 80, 106, 132, 158]
    case 38 => [6, 32, 58, 84, 110, 136, 162]
    case 39 => [6, 26, 54, 82, 110, 138, 166]
    case _ => [6, 30, 58, 86, 114, 142, 170]
  }

  // ------------------------------------------------------------------ one pattern

  function AlignDark(r: int, c: int): bool {
    r == -2 || r == 2 || c == -2 || c == 2 || (r == 0 && c == 0)
  }

  /** An alignment pattern is a dark module, a light ring and a dark ring
      (section 6.3.6 of ISO/IEC 18004:2015). */
  lemma AlignRings(r: int, c: int)
    requires -2 <= r <= 2 && -2 <= c <= 2
    ensures AlignDark(r, c) <==> RingOf(r, c) != 1
  {}

  predicate InBox(row: int, col: int, q: Cell) {
    -2 <= q.0 - row <= 2 && -2 <= q.1 - col <= 2
  }

  function AfterBox(was: Option<bool>, row: int, col: int, q: Cell, drawn: bool): Option<bool> {
    if drawn then Some(AlignDark(q.0 - row, q.1 - col)) else was
  }

  predicate BoxDrawn(row: int, col: int, r: int, c: int, q: Cell) {
    InBox(row, col, q) && (q.0 - row < r || (q.0 - row == r && q.1 - col < c))
  }

  method DrawBox(modules: array2<Option<bool>>, row: int, col: int)
    requires modules.Length0 == modules.Length1
    requires 2 <= row < modules.Length0 - 2 && 2 <= col < modules.Length0 - 2
    modifies modules
    ensures forall i, j :: 0 <= i < modules.Length0 && 0 <= j < modules.Length0 ==>
              modules[i, j] == AfterBox(old(modules[i, j]), row, col, (i, j), InBox(row, col, (i, j)))
  {
    var n := modules.Length0;
    var r := -2;
    while r <= 2
      invariant -2 <= r <= 3
      invariant forall i: int, j: int :: 0 <= i < n && 0 <= j < n ==>
        modules[i, j] == AfterBox(old(modules[i, j]), row, col, (i, j), BoxDrawn(row, col, r, -2, (i, j)))
      decreases 3 - r
    {
      var c := -2;
      while c <= 2
        invariant -2 <= c <= 3
        invariant forall i: int, j: int :: 0 <= i < n && 0 <= j < n ==>
          modules[i, j] == AfterBox(old(modules[i, j]), row, col, (i, j), BoxDrawn(row, col, r, c, (i, j)))
        decreases 3 - c
      {
        modules[row + r, col + c] := Some(AlignDark(r, c));
        c := c + 1;
      }
      r := r + 1;
    }
  }

  // --------------------------------------------------------------- all of them

  predicate InProbes(n: int, q: Cell) {
    InProbe(0, 0, q) || InProbe(n - 7, 0, q) || InProbe(0, n - 7, q)
  }

  function ProbeValue(n: int, q: Cell): Option<bool> {
    if InProbe(0, 0, q) then Some(ProbeDark(q.0, q.1))
    else if InProbe(n - 7, 0, q) then Some(ProbeDark(q.0 - (n - 7), q.1))
    else if InProbe(0, n - 7, q) then Some(ProbeDark(q.0, q.1 - (n - 7)))
    else None
  }

  /** The three pairs whose centre lies under a probe. */
  predicate Corner(a: int, b: int, k: int) {
    (a == 0 && b == 0) || (a == 0 && b == k - 1) || (a == k - 1 && b == 0)
  }

  /** Pattern (a, b) is one of those drawn before pair (i, j), and holds q. */
  predicate Holds(pos: seq<int>, i: int, j: int, a: int, b: int, q: Cell) {
    && 0 <= a < |pos| && 0 <= b < |pos| && (a < i || (a == i && b < j))
    && !Corner(a, b, |pos|) && InBox(pos[a], pos[b], q)
  }

  lemma CornersUnderProbes(pos: seq<int>, n: int, a: int, b: int)
    requires Spaced(pos, n) && 0 <= a < |pos| && 0 <= b < |pos|
    ensures 2 <= pos[a] < n - 2 && 2 <= pos[b] < n - 2
    ensures InProbes(n, (pos[a], pos[b])) <==> Corner(a, b, |pos|)
    ensures forall q: Cell :: InBox(pos[a], pos[b], q) && InProbes(n, q) ==> Corner(a, b, |pos|)
  {
    assert a == 0 || a == |pos| - 1 || 10 <= pos[a] <= n - 11;
    assert b == 0 || b == |pos| - 1 || 10 <= pos[b] <= n - 11;
  }

  /** No module belongs to two patterns. */
  lemma BoxesApart(pos: seq<int>, n: int, a: int, b: int, c: int, d: int, q: Cell)
    requires Spaced(pos, n) && 0 <= a < |pos| && 0 <= b < |pos| && 0 <= c < |pos| && 0 <= d < |pos|
    requires InBox(pos[a], pos[b], q) && InBox(pos[c], pos[d], q)
    ensures a == c && b == d
  {}

  /** What became of one module by the time pair (i, j) is reached. */
  ghost predicate Aligned(was: Option<bool>, now: Option<bool>, pos: seq<int>, i: int, j: int, q: Cell) {
    && (forall a, b :: Holds(pos, i, j, a, b, q) ==> now == Some(AlignDark(q.0 - pos[a], q.1 - pos[b])))
    && ((forall a, b :: !Holds(pos, i, j, a, b, q)) ==> now == was)
  }

  lemma HoldsNext(pos: seq<int>, i: int, j: int, next: int, a: int, b: int, q: Cell)
    requires 0 <= i < |pos| && 0 <= j < |pos| && next == j + 1
    ensures Holds(pos, i, next, a, b, q) <==>
            Holds(pos, i, j, a, b, q) || (a == i && b == j && !Corner(i, j, |pos|) && InBox(pos[i], pos[j], q))
  {}

  lemma AlignedNext(was: Option<bool>, now: Option<bool>, now': Option<bool>, pos: seq<int>, n: int, i: int, j: int, next: int, q: Cell)
    requires Spaced(pos, n) && 0 <= i < |pos| && 0 <= j < |pos| && next == j + 1 && Aligned(was, now, pos, i, j, q)
    requires now' == AfterBox(now, pos[i], pos[j], q, !Corner(i, j, |pos|) && InBox(pos[i], pos[j], q))
    ensures Aligned(was, now', pos, i, next, q)
  {
    var drawn := !Corner(i, j, |pos|) && InBox(pos[i], pos[j], q);
    forall a, b
      ensures Holds(pos, i, next, a, b, q) <==> Holds(pos, i, j, a, b, q) || (a == i && b == j && drawn)
      ensures drawn ==> !Holds(pos, i, j, a, b, q)
    {
      HoldsNext(pos, i, j, next, a, b, q);
      if drawn { NotHeldTwice(pos, n, i, j, a, b, q); }
    }
    assert Holds(pos, i, next, i, j, q) <==> drawn;
  }

  lemma NotHeldTwice(pos: seq<int>, n: int, i: int, j: int, a: int, b: int, q: Cell)
    requires Spaced(pos, n) && 0 <= i < |pos| && 0 <= j < |pos| && InBox(pos[i], pos[j], q)
    ensures !Holds(pos, i, j, a, b, q)
  {
    if Holds(pos, i, j, a, b, q) {
      BoxesApart(pos, n, a, b, i, j, q);
    }
  }

  lemma AlignedRow(was: Option<bool>, now: Option<bool>, pos: seq<int>, i: int, q: Cell)
    requires Aligned(was, now, pos, i, |pos|, q)
    ensures Aligned(was, now, pos, i + 1, 0, q)
  {
    forall a, b ensures Holds(pos, i + 1, 0, a, b, q) <==> Holds(pos, i, |pos|, a, b, q) {}
  }

  /** A centre is still unset when its turn comes, unless a probe covers it. */
  lemma CentreFree(was: Option<bool>, now: Option<bool>, pos: seq<int>, n: int, i: int, j: int)
    requires Spaced(pos, n) && 0 <= i < |pos| && 0 <= j < |pos|
    requires Aligned(was, now, pos, i, j, (pos[i], pos[j])) && (was.Some? <==> InProbes(n, (pos[i], pos[j])))
    ensures now.Some? <==> Corner(i, j, |pos|)
  {
    CornersUnderProbes(pos, n, i, j);
    var q := (pos[i], pos[j]);
    forall a, b ensures !Holds(pos, i, j, a, b, q) {
      NotHeldTwice(pos, n, i, j, a, b, q);
    }
  }

  ghost predicate AllAligned(init: Grid, now: Grid, pos: seq<int>, i: int, j: int)
    requires Square(init, |init|) && Square(now, |now|) && |init| == |now|
  {
    forall q: Cell :: OnGrid(q, |init|) ==> Aligned(At(init, q), At(now, q), pos, i, j, q)
  }

  lemma AllAlignedStart(init: Grid, pos: seq<int>)
    requires Square(init, |init|)
    ensures AllAligned(init, init, pos, 0, 0)
  {}

  lemma AllAlignedRow(init: Grid, now: Grid, pos: seq<int>, i: int, next: int)
    requires Square(init, |init|) && Square(now, |now|) && |init| == |now| && next == i + 1
    requires AllAligned(init, now, pos, i, |pos|)
    ensures AllAligned(init, now, pos, next, 0)
  {
    forall q: Cell | OnGrid(q, |init|) ensures Aligned(At(init, q), At(now, q), pos, next, 0, q) {
      AlignedRow(At(init, q), At(now, q), pos, i, q);
    }
  }

  /** What the probes have set when the alignment patterns are drawn. */
  ghost predicate OnlyProbes(g: Grid)
    requires Square(g, |g|)
  {
    forall q: Cell :: OnGrid(q, |g|) ==> At(g, q) == ProbeValue(|g|, q)
  }

  /** The grid has only probes to begin with, and is on its way to pair (i, j). */
  ghost predicate Reached(modules: array2<Option<bool>>, init: Grid, pos: seq<int>, i: int, j: int)
    reads modules
  {
    && modules.Length0 == modules.Length1 == |init| && Square(init, |init|) && OnlyProbes(init)
    && AllAligned(init, Snapshot(modules), pos, i, j)
  }

  /** One pattern, unless its centre is taken. */
  method DrawOne(modules: array2<Option<bool>>, pos: seq<int>, i: int, j: int, ghost init: Grid)
    requires Spaced(pos, |init|) && 0 <= i < |pos| && 0 <= j < |pos| && Reached(modules, init, pos, i, j)
    modifies modules
    ensures Reached(modules, init, pos, i, j + 1)
  {
    var row, col := pos[i], pos[j];
    ghost var n, before, next := modules.Length0, Snapshot(modules), j + 1;
    CornersUnderProbes(pos, n, i, j);
    CentreFree(At(init, (row, col)), At(before, (row, col)), pos, n, i, j);
    if modules[row, col].None? {
      DrawBox(modules, row, col);
    }
    forall q: Cell | OnGrid(q, n) ensures Aligned(At(init, q), At(Snapshot(modules), q), pos, i, next, q) {
      AlignedNext(At(init, q), At(before, q), modules[q.0, q.1], pos, n, i, j, next, q);
    }
  }

  /** The inner loop: the patterns centred in one row. */
  method DrawRow(modules: array2<Option<bool>>, pos: seq<int>, i: int, ghost init: Grid)
    requires Spaced(pos, |init|) && 0 <= i < |pos| && Reached(modules, init, pos, i, 0)
    modifies modules
    ensures Reached(modules, init, pos, i, |pos|)
  {
    var j := 0;
    while j < |pos|
      invariant 0 <= j <= |pos|
      invariant Reached(modules, init, pos, i, j)
    {
      DrawOne(modules, pos, i, j, init);
      j := j + 1;
    }
    assert j == |pos|;
  }

  /** Every pattern whose centre no probe covers is drawn whole; all other
      modules, those of the probes included, stay as they were. */
  method SetupPositionAdjustPattern(modules: array2<Option<bool>>, pos: seq<int>)
    requires modules.Length0 == modules.Length1 && Spaced(pos, modules.Length0)
    requires OnlyProbes(Snapshot(modules))
    modifies modules
    ensures AllAligned(old(Snapshot(modules)), Snapshot(modules), pos, |pos|, 0)
  {
    ghost var init := Snapshot(modules);
    AllAlignedStart(init, pos);
    var i := 0;
    while i < |pos|
      invariant 0 <= i <= |pos|
      invariant Reached(modules, init, pos, i, 0)
    {
      DrawRow(modules, pos, i, init);
      AllAlignedRow(init, Snapshot(modules), pos, i, i + 1);
      i := i + 1;
    }
  }

  // ------------------------------------------------------ the finished patterns

  function Timed(was: Option<bool>, n: int, q: Cell): Option<bool> {
    if was.Some? then was
    else if q.1 == 6 && 8 <= q.0 < n - 8 then Some(q.0 % 2 == 0)
    else if q.0 == 6 && 8 <= q.1 < n - 8 then Some(q.1 % 2 == 0)
    else None
  }

  /** A module under a probe belongs to it, else to the one alignment pattern
      that holds it, else to a timing track, else to nothing. */
  ghost predicate Patterned(now: Option<bool>, pos: seq<int>, n: int, q: Cell) {
    && (InProbes(n, q) ==> now == ProbeValue(n, q))
    && (!InProbes(n, q) ==>
          && (forall a, b :: Holds(pos, |pos|, 0, a, b, q) ==> now == Some(AlignDark(q.0 - pos[a], q.1 - pos[b])))
          && ((forall a, b :: !Holds(pos, |pos|, 0, a, b, q)) ==> now == Timed(None, n, q)))
  }

  lemma TimedIsPatterned(was: Option<bool>, aligned: Option<bool>, now: Option<bool>, pos: seq<int>, n: int, q: Cell)
    requires Spaced(pos, n) && was == ProbeValue(n, q) && now == Timed(aligned, n, q)
    requires Aligned(was, aligned, pos, |pos|, 0, q)
    ensures Patterned(now, pos, n, q)
    ensures OnGrid(q, n) && q.1 == 6 ==> now.Some?
  {
    if InProbes(n, q) {
      forall a, b ensures !Holds(pos, |pos|, 0, a, b, q) {
        if 0 <= a < |pos| && 0 <= b < |pos| { CornersUnderProbes(pos, n, a, b); }
      }
    }
  }

  method SetupProbes(modules: array2<Option<bool>>)
    requires modules.Length0 == modules.Length1 >= 21
    requires forall i, j :: 0 <= i < modules.Length0 && 0 <= j < modules.Length0 ==> modules[i, j] == None
    modifies modules
    ensures OnlyProbes(Snapshot(modules))
  {
    var n := modules.Length0;
    SetupPositionProbePattern(modules, 0, 0);
    SetupPositionProbePattern(modules, n - 7, 0);
    SetupPositionProbePattern(modules, 0, n - 7);
    forall q: Cell | OnGrid(q, n) ensures At(Snapshot(modules), q) == ProbeValue(n, q) {
      assert At(Snapshot(modules), q) == modules[q.0, q.1];
    }
  }

  /** makeImpl up to the timing tracks, for every version: what each module
      holds, and that column 6 is set. */
  method SetupFunctionPatterns(modules: array2<Option<bool>>, version: nat)
    requires 1 <= version <= 40 && modules.Length0 == modules.Length1 == Side40(version)
    requires forall i, j :: 0 <= i < modules.Length0 && 0 <= j < modules.Length0 ==> modules[i, j] == None
    modifies modules
    ensures forall q: Cell :: OnGrid(q, modules.Length0) ==>
              Patterned(At(Snapshot(modules), q), PatternPosition(version), modules.Length0, q)
    ensures Side(modules.Length0) && Column6Set(Snapshot(modules))
  {
    var pos := PatternPosition(version);
    SetupProbes(modules);
    ghost var probed := Snapshot(modules);
    SetupPositionAdjustPattern(modules, pos);
    ghost var aligned := Snapshot(modules);
    SetupTimingPattern(modules);
    AllPatterned(probed, aligned, Snapshot(modules), pos);
  }

  lemma AllPatterned(probed: Grid, aligned: Grid, now: Grid, pos: seq<int>)
    requires Square(probed, |probed|) && Square(aligned, |aligned|) && Square(now, |now|)
    requires |probed| == |aligned| == |now| > 6 && Spaced(pos, |now|)
    requires OnlyProbes(probed) && AllAligned(probed, aligned, pos, |pos|, 0)
    requires forall i, j :: 0 <= i < |now| && 0 <= j < |now| ==> now[i][j] == Timed(aligned[i][j], |now|, (i, j))
    ensures forall q: Cell :: OnGrid(q, |now|) ==> Patterned(At(now, q), pos, |now|, q)
    ensures Column6Set(now)
  {
    forall q: Cell | OnGrid(q, |now|) ensures Patterned(At(now, q), pos, |now|, q) && (q.1 == 6 ==> At(now, q).Some?) {
      assert now[q.0][q.1] == Timed(aligned[q.0][q.1], |now|, (q.0, q.1));
      TimedIsPatterned(At(probed, q), At(aligned, q), At(now, q), pos, |now|, q);
    }
  }
}
