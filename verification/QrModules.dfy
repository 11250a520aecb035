/** Placing the message bits on the module grid: the zigzag walk over pairs of
    columns, and reading the bits back. */
module QrModules {
  import opened Wrappers
  import opened Sequences

  type Grid = seq<seq<Option<bool>>>

  /** The seed of a grid side: odd, and wide enough to have column 6. */
  predicate Side(n: int) { n >= 9 && n % 2 == 1 }

  ghost predicate Square(g: Grid, n: nat) {
    |g| == n && forall r :: 0 <= r < n ==> |g[r]| == n
  }

  type Cell = (int, int)

  predicate OnGrid(p: Cell, n: int) { 0 <= p.0 < n && 0 <= p.1 < n }

  function At(g: Grid, p: Cell): Option<bool>
    requires Square(g, |g|) && OnGrid(p, |g|)
  {
    g[p.0][p.1]
  }

  function Put(g: Grid, p: Cell, v: bool): (r: Grid)
    requires Square(g, |g|) && OnGrid(p, |g|)
    ensures |r| == |g| && Square(r, |g|)
    ensures forall q :: OnGrid(q, |g|) ==> At(r, q) == if q == p then Some(v) else At(g, q)
  {
    g[p.0 := g[p.0][p.1 := Some(v)]]
  }

  // ------------------------------------------------------------------ the walk

  /** Number of column pairs; column 6 belongs to none. */
  function Pairs(n: int): int { (n - 1) / 2 }

  /** Right column of the p-th pair from the right. */
  function PairCol(n: int, p: int): int {
    var c := n - 1 - 2 * p;
    if c > 6 then c else c - 1
  }

  /** Upwards in even pairs, downwards in odd ones. */
  function RowAt(n: int, p: int, t: int): int { if p % 2 == 0 then n - 1 - t else t }

  function PairCells(n: int, p: int, t: int): seq<Cell> {
    [(RowAt(n, p, t), PairCol(n, p)), (RowAt(n, p, t), PairCol(n, p) - 1)]
  }

  /** The cells visited before row t of pair p. */
  function Visits(n: nat, p: nat, t: nat): seq<Cell>
    decreases p, t
  {
    if t > 0 then Visits(n, p, t - 1) + PairCells(n, p, t - 1)
    else if p > 0 then Visits(n, p - 1, n)
    else []
  }

  function Walk(n: nat): seq<Cell> { Visits(n, if n > 0 then Pairs(n) else 0, 0) }

  function PairOf(n: int, c: int): int { if c > 6 then (n - 1 - c) / 2 else (n - 2 - c) / 2 }

  /** Whether the walk has passed a cell before row t of pair p. */
  predicate Passed(n: int, p: int, t: int, q: Cell) {
    && OnGrid(q, n) && q.1 != 6
    && (PairOf(n, q.1) < p || (PairOf(n, q.1) == p && RowAt(n, p, q.0) < t))
  }

  lemma PairCellsMeaning(n: nat, p: nat, t: nat, q: Cell)
    requires Side(n) && p < Pairs(n) && t < n
    ensures q in PairCells(n, p, t) <==>
            OnGrid(q, n) && q.1 != 6 && PairOf(n, q.1) == p && RowAt(n, p, q.0) == t
  {}

  lemma NextPair(n: nat, p: nat, q: Cell)
    requires Side(n)
    ensures Passed(n, p + 1, 0, q) <==> Passed(n, p, n, q)
  {}

  lemma {:induction false} VisitsMeaning(n: nat, p: nat, t: nat)
    requires Side(n) && t <= n && (p < Pairs(n) || (p == Pairs(n) && t == 0))
    ensures forall q :: q in Visits(n, p, t) <==> Passed(n, p, t, q)
    ensures Distinct(Visits(n, p, t))
    decreases p, t
  {
    if t > 0 {
      VisitsMeaning(n, p, t - 1);
      var head, two := Visits(n, p, t - 1), PairCells(n, p, t - 1);
      forall q ensures q in Visits(n, p, t) <==> Passed(n, p, t, q) {
        PairCellsMeaning(n, p, t - 1, q);
        assert q in Visits(n, p, t) <==> q in head || q in two;
      }
      forall q | q in two ensures q !in head {
        PairCellsMeaning(n, p, t - 1, q);
      }
      DistinctConcat(head, two);
    } else if p > 0 {
      VisitsMeaning(n, p - 1, n);
      forall q ensures q in Visits(n, p, t) <==> Passed(n, p, t, q) {
        NextPair(n, p - 1, q);
      }
    } else {
      forall q ensures !Passed(n, 0, 0, q) {}
    }
  }

  /** The walk meets every cell outside column 6 exactly once. */
  lemma WalkMeetsAll(n: nat)
    requires Side(n)
    ensures forall q :: q in Walk(n) <==> OnGrid(q, n) && q.1 != 6
    ensures Distinct(Walk(n))
  {
    VisitsMeaning(n, Pairs(n), 0);
    forall q | OnGrid(q, n) && q.1 != 6 ensures Passed(n, Pairs(n), 0, q) {}
  }

  lemma {:induction false} VisitsAt(n: nat, p: nat, t: nat, a: nat, b: nat, d: nat)
    requires t <= n && d < 2 && b < n && (a < p || (a == p && b < t))
    ensures 2 * (a * n + b) + d < |Visits(n, p, t)| && Visits(n, p, t)[2 * (a * n + b) + d] == PairCells(n, a, b)[d]
    decreases p, t
  {
    if t > 0 {
      VisitsLength(n, p, t - 1);
      if a < p || b < t - 1 { VisitsAt(n, p, t - 1, a, b, d); }
    } else {
      VisitsAt(n, p - 1, n, a, b, d);
    }
  }

  lemma {:induction false} VisitsLength(n: nat, p: nat, t: nat)
    ensures |Visits(n, p, t)| == 2 * (p * n + t)
    decreases p, t
  {
    if t > 0 {
      VisitsLength(n, p, t - 1);
    } else if p > 0 {
      VisitsLength(n, p - 1, n);
      assert (p - 1) * n + n == p * n;
    }
  }

  /** The order of section 7.7.3 of ISO/IEC 18004:2015: two columns at a time
      from the right, upwards first and then by turns, right module before
      left, column 6 passed over. */
  lemma WalkAt(n: nat, p: nat, t: nat, d: nat)
    requires Side(n) && p < (n - 1) / 2 && t < n && d < 2
    ensures |Walk(n)| == n * (n - 1) && 2 * (p * n + t) + d < |Walk(n)|
    ensures Walk(n)[2 * (p * n + t) + d]
         == (if p % 2 == 0 then n - 1 - t else t, n - 1 - 2 * p - d - (if n - 1 - 2 * p > 6 then 0 else 1))
  {
    VisitsAt(n, Pairs(n), 0, p, t, d);
    VisitsLength(n, Pairs(n), 0);
    assert 2 * (Pairs(n) * n) == n * (2 * Pairs(n));
  }

  // ----------------------------------------------------------------- placement

  /** Bit k of the message, most significant bit of each byte first; zero past
      the end. */
  function Bit(data: seq<bv8>, k: nat): bool {
    k / 8 < |data| && (data[k / 8] >> (7 - k % 8)) & 1 == 1
  }

  lemma HighFirst(x: bv8, j: nat)
    requires j < 8
    ensures (x >> (7 - j)) & 1 == 1 <==> x & [0x80, 0x40, 0x20, 0x10, 8, 4, 2, 1][j] != 0
  {
    if j == 0 {
    } else if j == 1 {
    } else if j == 2 {
    } else if j == 3 {
    } else if j == 4 {
    } else if j == 5 {
    } else if j == 6 {
    } else {
      assert j == 7;
    }
  }

  /** The bits of a message are those of its bytes, high bit first, and zero
      past its end. */
  lemma BitsOfBytes(data: seq<bv8>, i: nat, j: nat)
    requires j < 8
    ensures Bit(data, 8 * i + j) <==> i < |data| && data[i] & [0x80, 0x40, 0x20, 0x10, 8, 4, 2, 1][j] != 0
  {
    assert (8 * i + j) / 8 == i && (8 * i + j) % 8 == j;
    if i < |data| { HighFirst(data[i], j); }
  }

  type Mask = (int, int) -> bool

  function Masked(mask: Mask, p: Cell, bit: bool): bool {
    if mask(p.0, p.1) then !bit else bit
  }

  datatype Placed = Placed(grid: Grid, used: nat)

  function PlaceOne(s: Placed, p: Cell, data: seq<bv8>, mask: Mask): (r: Placed)
    requires Square(s.grid, |s.grid|) && OnGrid(p, |s.grid|)
    ensures |r.grid| == |s.grid| && Square(r.grid, |r.grid|)
  {
    if At(s.grid, p).None? then Placed(Put(s.grid, p, Masked(mask, p, Bit(data, s.used))), s.used + 1) else s
  }

  ghost predicate AllOnGrid(cells: seq<Cell>, n: nat) {
    forall i :: 0 <= i < |cells| ==> OnGrid(cells[i], n)
  }

  /** Give each free cell along the walk the next bit of the message. */
  function Place(g: Grid, cells: seq<Cell>, data: seq<bv8>, mask: Mask): (r: Placed)
    requires Square(g, |g|) && AllOnGrid(cells, |g|)
    ensures |r.grid| == |g| && Square(r.grid, |g|)
  {
    if cells == [] then Placed(g, 0)
    else PlaceOne(Place(g, cells[..|cells| - 1], data, mask), cells[|cells| - 1], data, mask)
  }

  /** Read the message back: the unmasked modules at the cells that the
      function patterns `g` left free, in walking order. */
  function ReadBack(g: Grid, final: Grid, cells: seq<Cell>, mask: Mask): seq<bool>
    requires Square(g, |g|) && AllOnGrid(cells, |g|) && |final| == |g| && Square(final, |g|)
  {
    if cells == [] then []
    else
      var p := cells[|cells| - 1];
      ReadBack(g, final, cells[..|cells| - 1], mask)
      + (if At(g, p).None? then [At(final, p) == Some(Masked(mask, p, true))] else [])
  }

  /** Cells off the list, and cells that were set, keep their module; free
      cells on the list are all set. */
  lemma {:induction false} PlaceFrame(g: Grid, cells: seq<Cell>, data: seq<bv8>, mask: Mask)
    requires Square(g, |g|) && AllOnGrid(cells, |g|)
    ensures forall q :: OnGrid(q, |g|) && (q !in cells || At(g, q).Some?) ==>
              At(Place(g, cells, data, mask).grid, q) == At(g, q)
    ensures forall q :: q in cells && OnGrid(q, |g|) ==> At(Place(g, cells, data, mask).grid, q).Some?
  {
    if cells != [] {
      var n := |cells| - 1;
      PlaceFrame(g, cells[..n], data, mask);
      assert cells == cells[..n] + [cells[n]];
    }
  }

  lemma {:induction false} ReadBackSame(g: Grid, a: Grid, b: Grid, cells: seq<Cell>, mask: Mask)
    requires Square(g, |g|) && AllOnGrid(cells, |g|)
    requires |a| == |b| == |g| && Square(a, |g|) && Square(b, |g|)
    requires forall i :: 0 <= i < |cells| ==> At(a, cells[i]) == At(b, cells[i])
    ensures ReadBack(g, a, cells, mask) == ReadBack(g, b, cells, mask)
  {
    if cells != [] {
      ReadBackSame(g, a, b, cells[..|cells| - 1], mask);
    }
  }

  function BitsUpTo(data: seq<bv8>, n: nat): seq<bool> {
    seq(n, k requires 0 <= k < n => Bit(data, k))
  }

  /** Reading the placed modules under the same mask gives the message bits,
      followed by zeros when the message is shorter than the room. */
  lemma {:induction false} ReadBackIsMessage(g: Grid, cells: seq<Cell>, data: seq<bv8>, mask: Mask)
    requires Square(g, |g|) && AllOnGrid(cells, |g|) && Distinct(cells)
    ensures var r := Place(g, cells, data, mask);
            ReadBack(g, r.grid, cells, mask) == BitsUpTo(data, r.used)
  {
    if cells != [] {
      var n := |cells| - 1;
      var before, p := Place(g, cells[..n], data, mask), cells[n];
      var after := Place(g, cells, data, mask);
      ReadBackIsMessage(g, cells[..n], data, mask);
      forall i | 0 <= i < n ensures At(before.grid, cells[..n][i]) == At(after.grid, cells[..n][i]) {
        assert cells[i] != p;
      }
      ReadBackSame(g, before.grid, after.grid, cells[..n], mask);
      PlaceFrame(g, cells[..n], data, mask);
      assert p !in cells[..n];
      if At(g, p).None? {
        assert BitsUpTo(data, after.used) == BitsUpTo(data, before.used) + [Bit(data, before.used)];
      }
    }
  }

  /** Number of free cells on the walk. */
  function Room(g: Grid, cells: seq<Cell>): nat
    requires Square(g, |g|) && AllOnGrid(cells, |g|)
  {
    if cells == [] then 0
    else Room(g, cells[..|cells| - 1]) + (if At(g, cells[|cells| - 1]).None? then 1 else 0)
  }

  lemma {:induction false} UsesAllRoom(g: Grid, cells: seq<Cell>, data: seq<bv8>, mask: Mask)
    requires Square(g, |g|) && AllOnGrid(cells, |g|) && Distinct(cells)
    ensures Place(g, cells, data, mask).used == Room(g, cells)
  {
    if cells != [] {
      var n := |cells| - 1;
      UsesAllRoom(g, cells[..n], data, mask);
      PlaceFrame(g, cells[..n], data, mask);
      assert cells[n] !in cells[..n];
    }
  }

  ghost predicate Column6Set(g: Grid)
    requires Square(g, |g|) && |g| > 6
  {
    forall r :: 0 <= r < |g| ==> At(g, (r, 6)).Some?
  }

  /** Each free cell holds the next bit of the message, turned over where the
      mask says so. */
  lemma {:induction false} PlacedBit(g: Grid, cells: seq<Cell>, data: seq<bv8>, mask: Mask, i: nat)
    requires Square(g, |g|) && AllOnGrid(cells, |g|) && Distinct(cells) && i < |cells| && At(g, cells[i]).None?
    ensures At(Place(g, cells, data, mask).grid, cells[i])
         == Some(Bit(data, Room(g, cells[..i])) != mask(cells[i].0, cells[i].1))
    decreases |cells|
  {
    var n := |cells| - 1;
    var head := cells[..n];
    if i < n {
      PlacedBit(g, head, data, mask, i);
      assert cells[i] != cells[n] && head[..i] == cells[..i];
    } else {
      UsesAllRoom(g, head, data, mask);
      PlaceFrame(g, head, data, mask);
      assert cells[n] !in head;
    }
  }

  /** With column 6 already set, the finished grid has no module left unset,
      keeps every function pattern, holds the masked bits of the message along
      the walk, and gives them back. */
  lemma FinishedGrid(g: Grid, data: seq<bv8>, mask: Mask)
    requires Side(|g|) && Square(g, |g|) && Column6Set(g)
    ensures AllOnGrid(Walk(|g|), |g|)
    ensures var r := Place(g, Walk(|g|), data, mask);
            && (forall q :: OnGrid(q, |g|) ==> At(r.grid, q).Some?)
            && (forall q :: OnGrid(q, |g|) && At(g, q).Some? ==> At(r.grid, q) == At(g, q))
            && r.used == Room(g, Walk(|g|))
            && (forall i :: 0 <= i < |Walk(|g|)| && At(g, Walk(|g|)[i]).None? ==>
                  At(r.grid, Walk(|g|)[i])
                  == Some(Bit(data, Room(g, Walk(|g|)[..i])) != mask(Walk(|g|)[i].0, Walk(|g|)[i].1)))
            && ReadBack(g, r.grid, Walk(|g|), mask) == BitsUpTo(data, Room(g, Walk(|g|)))
  {
    WalkMeetsAll(|g|);
    var w := Walk(|g|);
    forall i | 0 <= i < |w| ensures OnGrid(w[i], |g|) {
      assert w[i] in w;
    }
    PlaceFrame(g, w, data, mask);
    UsesAllRoom(g, w, data, mask);
    ReadBackIsMessage(g, w, data, mask);
    forall i | 0 <= i < |w| && At(g, w[i]).None?
      ensures At(Place(g, w, data, mask).grid, w[i]) == Some(Bit(data, Room(g, w[..i])) != mask(w[i].0, w[i].1))
    {
      PlacedBit(g, w, data, mask, i);
    }
    forall q: Cell | OnGrid(q, |g|) ensures At(Place(g, w, data, mask).grid, q).Some? {
      if q.1 == 6 {
        assert At(g, (q.0, 6)).Some?;
      }
    }
  }

  // ------------------------------------------------------------------- in place

  function Snapshot(modules: array2<Option<bool>>): (g: Grid)
    reads modules
    ensures |g| == modules.Length0
    ensures forall r :: 0 <= r < |g| ==> |g[r]| == modules.Length1
    ensures forall r, c :: 0 <= r < modules.Length0 && 0 <= c < modules.Length1 ==> g[r][c] == modules[r, c]
  {
    seq(modules.Length0, r requires 0 <= r < modules.Length0 reads modules =>
      seq(modules.Length1, c requires 0 <= c < modules.Length1 reads modules => modules[r, c]))
  }

  /** The bit the two counters of the source point at. */
  function CurrentBit(data: seq<bv8>, byteIndex: nat, bitIndex: nat): bool
    requires bitIndex < 8
  {
    byteIndex < |data| && (data[byteIndex] >> bitIndex) & 1 == 1
  }

  lemma CountersPoint(data: seq<bv8>, byteIndex: nat, bitIndex: nat)
    requires bitIndex < 8
    ensures CurrentBit(data, byteIndex, bitIndex) == Bit(data, 8 * byteIndex + 7 - bitIndex)
  {
    var k := 8 * byteIndex + 7 - bitIndex;
    assert k / 8 == byteIndex && 7 - k % 8 == bitIndex;
  }

  /** The modules and the two counters show the state `st`. */
  ghost predicate Shows(modules: array2<Option<bool>>, st: Placed, byteIndex: nat, bitIndex: int)
    reads modules
  {
    && modules.Length0 == modules.Length1 && 0 <= bitIndex < 8
    && Snapshot(modules) == st.grid && st.used == 8 * byteIndex + 7 - bitIndex
  }

  /** Visit one cell. */
  method PlaceModule(modules: array2<Option<bool>>, row: nat, col: nat, data: seq<bv8>, mask: Mask,
                     byteIndex: nat, bitIndex: nat, ghost st: Placed)
    returns (byteIndex': nat, bitIndex': nat, ghost st': Placed)
    requires Shows(modules, st, byteIndex, bitIndex) && row < modules.Length0 && col < modules.Length0
    modifies modules
    ensures Square(st.grid, |st.grid|) && |st.grid| == modules.Length0
    ensures st' == PlaceOne(st, (row, col), data, mask)
    ensures Shows(modules, st', byteIndex', bitIndex')
  {
    byteIndex', bitIndex' := byteIndex, bitIndex;
    st' := PlaceOne(st, (row, col), data, mask);
    if modules[row, col].None? {
      ghost var before := Snapshot(modules);
      var dark := CurrentBit(data, byteIndex, bitIndex);
      CountersPoint(data, byteIndex, bitIndex);
      if mask(row, col) {
        dark := !dark;
      }
      modules[row, col] := Some(dark);
      forall r | 0 <= r < |before| ensures Snapshot(modules)[r] == Put(before, (row, col), dark)[r] {
        assert Snapshot(modules)[r] == if r == row then before[r][col := Some(dark)] else before[r];
      }
      assert Snapshot(modules) == Put(before, (row, col), dark);
      if bitIndex == 0 {
        byteIndex', bitIndex' := byteIndex + 1, 7;
      } else {
        bitIndex' := bitIndex - 1;
      }
    }
  }

  lemma TwoMore(g: Grid, cells: seq<Cell>, p: Cell, q: Cell, data: seq<bv8>, mask: Mask)
    requires Square(g, |g|) && AllOnGrid(cells, |g|) && OnGrid(p, |g|) && OnGrid(q, |g|)
    ensures AllOnGrid(cells + [p, q], |g|)
    ensures Place(g, cells + [p, q], data, mask)
         == PlaceOne(PlaceOne(Place(g, cells, data, mask), p, data, mask), q, data, mask)
  {
    var all := cells + [p, q];
    var n := |cells|;
    assert all[..n + 1][..n] == cells && all[..n + 1] == cells + [p];
  }

  lemma VisitsOnGrid(n: nat, p: nat, t: nat)
    requires Side(n) && t <= n && (p < Pairs(n) || (p == Pairs(n) && t == 0))
    ensures AllOnGrid(Visits(n, p, t), n)
  {
    VisitsMeaning(n, p, t);
    forall i | 0 <= i < |Visits(n, p, t)| ensures OnGrid(Visits(n, p, t)[i], n) {
      assert Visits(n, p, t)[i] in Visits(n, p, t);
    }
  }

  /** How far the walk over an n by n grid has come. */
  ghost predicate Reached(n: nat, st: Placed, init: Grid, data: seq<bv8>, mask: Mask, p: nat, t: nat) {
    && Side(n) && t <= n && Square(init, |init|) && |init| == n
    && (p < Pairs(n) || (p == Pairs(n) && t == 0))
    && AllOnGrid(Visits(n, p, t), n)
    && st == Place(init, Visits(n, p, t), data, mask)
  }

  lemma ReachedNext(n: nat, st: Placed, init: Grid, data: seq<bv8>, mask: Mask, p: nat, t: nat, row: nat, col: nat, st': Placed)
    requires Reached(n, st, init, data, mask, p, t) && p < Pairs(n) && t < n
    requires row == RowAt(n, p, t) < n && col == PairCol(n, p) && 1 <= col < n
    requires st' == PlaceOne(PlaceOne(st, (row, col), data, mask), (row, col - 1), data, mask)
    ensures Reached(n, st', init, data, mask, p, t + 1)
  {
    TwoMore(init, Visits(n, p, t), (row, col), (row, col - 1), data, mask);
    assert Visits(n, p, t + 1) == Visits(n, p, t) + [(row, col), (row, col - 1)];
  }

  /** The rows of a pair run to one edge, where the next pair starts. */
  lemma NextRow(n: nat, p: nat, t: nat, inc: int)
    requires t < n && inc == if p % 2 == 0 then -1 else 1
    ensures RowAt(n, p, t) + inc == RowAt(n, p, t + 1)
    ensures 0 <= RowAt(n, p, t) + inc < n <==> t + 1 < n
    ensures t + 1 == n ==> RowAt(n, p, t) == RowAt(n, p + 1, 0)
    ensures (p + 1) % 2 == 0 <==> p % 2 != 0
  {}

  lemma ReachedPair(n: nat, st: Placed, init: Grid, data: seq<bv8>, mask: Mask, p: nat, t: nat)
    requires Reached(n, st, init, data, mask, p, t) && t == n && p < Pairs(n)
    ensures Reached(n, st, init, data, mask, p + 1, 0)
  {
    VisitsOnGrid(n, p + 1, 0);
    assert Visits(n, p + 1, 0) == Visits(n, p, n);
  }

  /** One row of one column pair. */
  method PlaceTwo(modules: array2<Option<bool>>, row: nat, col: nat, data: seq<bv8>, mask: Mask,
                  byteIndex: nat, bitIndex: nat, ghost st: Placed)
    returns (byteIndex': nat, bitIndex': nat, ghost st': Placed)
    requires Shows(modules, st, byteIndex, bitIndex) && row < modules.Length0 && 1 <= col < modules.Length0
    modifies modules
    ensures Square(st.grid, |st.grid|) && |st.grid| == modules.Length0
    ensures st' == PlaceOne(PlaceOne(st, (row, col), data, mask), (row, col - 1), data, mask)
    ensures Shows(modules, st', byteIndex', bitIndex')
  {
    byteIndex', bitIndex', st' := PlaceModule(modules, row, col, data, mask, byteIndex, bitIndex, st);
    byteIndex', bitIndex', st' := PlaceModule(modules, row, col - 1, data, mask, byteIndex', bitIndex', st');
  }

  method SweepRow(modules: array2<Option<bool>>, row: nat, col: nat, data: seq<bv8>, mask: Mask,
                  byteIndex: nat, bitIndex: nat, ghost init: Grid, ghost p: nat, ghost t: nat, ghost st: Placed)
    returns (byteIndex': nat, bitIndex': nat, ghost st': Placed)
    requires Shows(modules, st, byteIndex, bitIndex) && Reached(modules.Length0, st, init, data, mask, p, t)
    requires p < Pairs(modules.Length0) && t < modules.Length0
    requires row == RowAt(modules.Length0, p, t) && col == PairCol(modules.Length0, p)
    modifies modules
    ensures Shows(modules, st', byteIndex', bitIndex') && Reached(modules.Length0, st', init, data, mask, p, t + 1)
  {
    byteIndex', bitIndex', st' := PlaceTwo(modules, row, col, data, mask, byteIndex, bitIndex, st);
    ReachedNext(modules.Length0, st, init, data, mask, p, t, row, col, st');
  }

  /** The endless inner loop: sweep one column pair to the edge, turn round. */
  method SweepPair(modules: array2<Option<bool>>, data: seq<bv8>, mask: Mask, col: nat, row: nat, inc: int,
                   byteIndex: nat, bitIndex: nat, ghost init: Grid, ghost p: nat, ghost st: Placed)
    returns (row': nat, inc': int, byteIndex': nat, bitIndex': nat, ghost st': Placed)
    requires Shows(modules, st, byteIndex, bitIndex)
    requires Reached(modules.Length0, st, init, data, mask, p, 0) && p < Pairs(modules.Length0)
    requires col == PairCol(modules.Length0, p) && row == RowAt(modules.Length0, p, 0)
    requires inc == if p % 2 == 0 then -1 else 1
    modifies modules
    ensures Shows(modules, st', byteIndex', bitIndex') && Reached(modules.Length0, st', init, data, mask, p + 1, 0)
    ensures row' == RowAt(modules.Length0, p + 1, 0) && inc' == -inc
  {
    var n := modules.Length0;
    var r := row;
    byteIndex', bitIndex', st' := byteIndex, bitIndex, st;
    ghost var t := 0;
    while true
      invariant 0 <= t < n && r == RowAt(n, p, t)
      invariant Shows(modules, st', byteIndex', bitIndex') && Reached(n, st', init, data, mask, p, t)
      decreases n - t
    {
      byteIndex', bitIndex', st' := SweepRow(modules, r, col, data, mask, byteIndex', bitIndex', init, p, t, st');
      NextRow(n, p, t, inc);
      t := t + 1;
      r := r + inc;
      if r < 0 || n <= r {
        r := r - inc;
        ReachedPair(n, st', init, data, mask, p, t);
        break;
      }
    }
    row', inc' := r, -inc;
  }

  /** mapData, with its own loops and counters. */
  method MapData(modules: array2<Option<bool>>, data: seq<bv8>, mask: Mask)
    requires modules.Length0 == modules.Length1 && Side(modules.Length0)
    modifies modules
    ensures AllOnGrid(Walk(modules.Length0), modules.Length0)
    ensures Snapshot(modules) == Place(old(Snapshot(modules)), Walk(modules.Length0), data, mask).grid
  {
    var n := modules.Length0;
    ghost var init := Snapshot(modules);
    ghost var st := Placed(init, 0);
    var inc, row, bitIndex, byteIndex := -1, n - 1, 7, 0;
    var col := n - 1;
    ghost var p := 0;
    VisitsOnGrid(n, 0, 0);
    while col > 0
      invariant 0 <= p <= Pairs(n) && (col == PairCol(n, p) || (col == 6 && PairCol(n, p) == 5))
      invariant inc == (if p % 2 == 0 then -1 else 1) && row == RowAt(n, p, 0)
      invariant byteIndex >= 0 && Shows(modules, st, byteIndex, bitIndex) && Reached(n, st, init, data, mask, p, 0)
      decreases col
    {
      if col == 6 {
        col := col - 1;
      }
      row, inc, byteIndex, bitIndex, st := SweepPair(modules, data, mask, col, row, inc, byteIndex, bitIndex, init, p, st);
      p := p + 1;
      col := col - 2;
    }
    assert p == Pairs(n);
  }
}
