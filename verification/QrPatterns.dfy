/** The function patterns at the edge of the data area: three position probes
    and the timing tracks. */
module QrPatterns {
  import opened Wrappers
  import opened QrModules

  /** A probe seen from its own corner, with its light border. */
  function ProbeDark(r: int, c: int): bool {
    || (0 <= r <= 6 && (c == 0 || c == 6))
    || (0 <= c <= 6 && (r == 0 || r == 6))
    || (2 <= r <= 4 && 2 <= c <= 4)
  }

  function Apart(a: int, b: int): int { if a < b then b - a else a - b }

  /** How many rings out a module lies from the middle of a pattern. */
  function RingOf(dr: int, dc: int): int { if Apart(dr, 0) < Apart(dc, 0) then Apart(dc, 0) else Apart(dr, 0) }

  /** A probe is a dark block, a light ring, a dark ring and a light border
      (section 6.3.3 of ISO/IEC 18004:2015). */
  lemma ProbeRings(r: int, c: int)
    requires -1 <= r <= 7 && -1 <= c <= 7
    ensures ProbeDark(r, c) <==> RingOf(r - 3, c - 3) <= 1 || RingOf(r - 3, c - 3) == 3
  {}

  predicate InProbe(row: int, col: int, q: Cell) {
    -1 <= q.0 - row <= 7 && -1 <= q.1 - col <= 7
  }

  /** The part of a probe drawn so far: all rows above r, and row r up to c. */
  predicate Drawn(row: int, col: int, r: int, c: int, q: Cell) {
    InProbe(row, col, q) && (q.0 - row < r || (q.0 - row == r && q.1 - col < c))
  }

  function AfterProbe(was: Option<bool>, row: int, col: int, q: Cell, drawn: bool): Option<bool> {
    if drawn then Some(ProbeDark(q.0 - row, q.1 - col)) else was
  }

  method SetupPositionProbePattern(modules: array2<Option<bool>>, row: int, col: int)
    requires modules.Length0 == modules.Length1
    modifies modules
    ensures forall i, j :: 0 <= i < modules.Length0 && 0 <= j < modules.Length0 ==>
              modules[i, j] == AfterProbe(old(modules[i, j]), row, col, (i, j), InProbe(row, col, (i, j)))
  {
    var n := modules.Length0;
    var r := -1;
    while r <= 7
      invariant -1 <= r <= 8
      invariant forall i: int, j: int :: 0 <= i < n && 0 <= j < n ==>
        modules[i, j] == AfterProbe(old(modules[i, j]), row, col, (i, j), Drawn(row, col, r, -1, (i, j)))
      decreases 8 - r
    {
      if row + r <= -1 || n <= row + r {
        r := r + 1;
        continue;
      }
      var c := -1;
      while c <= 7
        invariant -1 <= c <= 8
        invariant forall i: int, j: int :: 0 <= i < n && 0 <= j < n ==>
          modules[i, j] == AfterProbe(old(modules[i, j]), row, col, (i, j), Drawn(row, col, r, c, (i, j)))
        decreases 8 - c
      {
        if !(col + c <= -1 || n <= col + c) {
          modules[row + r, col + c] := Some(ProbeDark(r, c));
        }
        c := c + 1;
      }
      r := r + 1;
    }
  }

  /** Alternating modules along column 6 and row 6, where nothing is set yet. */
  method SetupTimingPattern(modules: array2<Option<bool>>)
    requires modules.Length0 == modules.Length1 && modules.Length0 > 6
    modifies modules
    ensures forall i, j :: 0 <= i < modules.Length0 && 0 <= j < modules.Length0 ==>
              modules[i, j] ==
                if old(modules[i, j]).Some? then old(modules[i, j])
                else if j == 6 && 8 <= i < modules.Length0 - 8 then Some(i % 2 == 0)
                else if i == 6 && 8 <= j < modules.Length0 - 8 then Some(j % 2 == 0)
                else None
  {
    var n := modules.Length0;
    var r := 8;
    while r < n - 8
      invariant 8 <= r
      invariant forall i: int, j: int :: 0 <= i < n && 0 <= j < n ==>
        modules[i, j] == if old(modules[i, j]).None? && j == 6 && 8 <= i < r && i < n - 8 then Some(i % 2 == 0) else old(modules[i, j])
    {
      if modules[r, 6].None? {
        modules[r, 6] := Some(r % 2 == 0);
      }
      r := r + 1;
    }
    var c := 8;
    ghost var mid: Grid := Snapshot(modules);
    while c < n - 8
      invariant 8 <= c
      invariant forall i: int, j: int :: 0 <= i < n && 0 <= j < n ==>
        modules[i, j] == if mid[i][j].None? && i == 6 && 8 <= j < c && j < n - 8 then Some(j % 2 == 0) else mid[i][j]
    {
      if modules[6, c].None? {
        modules[6, c] := Some(c % 2 == 0);
      }
      c := c + 1;
    }
  }
}
