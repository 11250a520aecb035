/** The progress figures a session reports, and why they always agree. */
module Progress {
  import opened Wrappers
  import opened Ranges
  import opened Pieces
  import opened Session

  // ------------------------------------------------------- missing pieces

  function MissingUpTo(bm: seq<char>, k: nat): seq<int>
    requires k <= |bm|
  {
    if k == 0 then []
    else MissingUpTo(bm, k - 1) + (if bm[k - 1] != '1' then [k - 1] else [])
  }

  function Missing(m: Meta): seq<int> { MissingUpTo(GetBitmap(m), |GetBitmap(m)|) }

  lemma {:induction false} MissingMeaning(bm: seq<char>, k: nat)
    requires k <= |bm|
    ensures forall j :: j in MissingUpTo(bm, k) <==> 0 <= j < k && bm[j] != '1'
    ensures forall i, j :: 0 <= i < j < |MissingUpTo(bm, k)| ==> MissingUpTo(bm, k)[i] < MissingUpTo(bm, k)[j]
  {
    if k > 0 {
      MissingMeaning(bm, k - 1);
      var head := MissingUpTo(bm, k - 1);
      forall i | 0 <= i < |head| ensures head[i] < k - 1 {
        assert head[i] in head;
      }
    }
  }

  // --------------------------------------------------- contiguous offset

  function OffsetAfter(m: Meta, i: int): int { if i <= 0 then 0 else Hi(m, i - 1) }

  function ContiguousFrom(m: Meta, bm: seq<char>, i: nat): int
    requires i <= |bm|
    decreases |bm| - i
  {
    if i < |bm| && bm[i] == '1' then ContiguousFrom(m, bm, i + 1) else OffsetAfter(m, i)
  }

  function ContiguousOffset(m: Meta): int { ContiguousFrom(m, GetBitmap(m), 0) }

  /** The offset is the end of the leading run of marked pieces. */
  lemma {:induction false} ContiguousMeaning(m: Meta, bm: seq<char>, i: nat)
    requires i <= |bm|
    requires forall j :: 0 <= j < i ==> bm[j] == '1'
    ensures exists k :: i <= k <= |bm| && ContiguousFrom(m, bm, i) == OffsetAfter(m, k)
                     && (forall j :: 0 <= j < k ==> bm[j] == '1')
                     && (k < |bm| ==> bm[k] != '1')
    decreases |bm| - i
  {
    if i < |bm| && bm[i] == '1' {
      ContiguousMeaning(m, bm, i + 1);
    } else {
      assert ContiguousFrom(m, bm, i) == OffsetAfter(m, i);
    }
  }

  // ------------------------------------------------------------- agreement

  ghost predicate AllMarked(m: Meta)
    requires |m.bitmap| == Count(m)
  {
    forall j :: 0 <= j < Count(m) ==> m.bitmap[j] == '1'
  }

  lemma NothingMissingIff(m: Meta)
    requires SessionInv(m)
    ensures Missing(m) == [] <==> AllMarked(m)
  {
    MissingMeaning(m.bitmap, |m.bitmap|);
    if Missing(m) != [] {
      assert Missing(m)[0] in Missing(m);
    }
  }

  lemma AllMarkedIff(m: Meta)
    requires SessionInv(m)
    ensures AllMarked(m) <==> CoversAll(m.ranges, 0, m.size)
  {
    if AllMarked(m) {
      forall x | 0 <= x < m.size ensures Covers(m.ranges, x) {
        PieceOfByte(m.size, m.pieceLen, x);
        assert Full(m, m.ranges, x / m.pieceLen);
      }
    }
    if CoversAll(m.ranges, 0, m.size) {
      forall j | 0 <= j < Count(m) ensures m.bitmap[j] == '1' {
        PiecesTile(m.size, m.pieceLen, j);
        assert Full(m, m.ranges, j);
      }
    }
  }

  lemma ContiguousIff(m: Meta)
    requires SessionInv(m)
    ensures ContiguousOffset(m) <= m.size
    ensures ContiguousOffset(m) == m.size <==> AllMarked(m)
  {
    CountBounds(m.size, m.pieceLen);
    ContiguousMeaning(m, m.bitmap, 0);
    var k :| 0 <= k <= |m.bitmap| && ContiguousOffset(m) == OffsetAfter(m, k)
             && (forall j :: 0 <= j < k ==> m.bitmap[j] == '1') && (k < |m.bitmap| ==> m.bitmap[k] != '1');
    if k > 0 {
      PiecesTile(m.size, m.pieceLen, k - 1);
      if k < Count(m) {
        PiecesTile(m.size, m.pieceLen, k);
      }
    }
  }

  /** The four views of "finished" are the same: no missing piece, every byte
      received, one interval spanning the file, contiguous up to the end. */
  lemma FinishedViewsAgree(m: Meta)
    requires SessionInv(m)
    ensures Missing(m) == [] <==> ReceivedBytes(m.ranges) == m.size
    ensures Missing(m) == [] <==> m.ranges == [Range(0, m.size)]
    ensures Missing(m) == [] <==> ContiguousOffset(m) == m.size
    ensures ReceivedBytes(m.ranges) <= m.size
  {
    NothingMissingIff(m);
    AllMarkedIff(m);
    ContiguousIff(m);
    AllBytesReceivedIff(m.ranges, m.size);
  }

  /** The contiguous prefix is really there, and is never more than what the
      byte counter reports. */
  lemma ContiguousIsReceived(m: Meta)
    requires SessionInv(m)
    ensures CoversAll(m.ranges, 0, ContiguousOffset(m))
    ensures 0 <= ContiguousOffset(m) <= ReceivedBytes(m.ranges)
  {
    ContiguousMeaning(m, m.bitmap, 0);
    var k :| 0 <= k <= |m.bitmap| && ContiguousOffset(m) == OffsetAfter(m, k)
             && (forall j :: 0 <= j < k ==> m.bitmap[j] == '1') && (k < |m.bitmap| ==> m.bitmap[k] != '1');
    var off := ContiguousOffset(m);
    if k > 0 {
      PiecesTile(m.size, m.pieceLen, k - 1);
    }
    forall x | 0 <= x < off ensures Covers(m.ranges, x) {
      PieceOfByte(m.size, m.pieceLen, x);
      var j := x / m.pieceLen;
      if j >= k {
        if j > k - 1 { PiecesOrdered(m.size, m.pieceLen, k - 1, j); }
      }
      assert Full(m, m.ranges, j);
    }
    SpanSize(0, off);
    ReceivedCountsCovered(m.ranges, m.size);
    assert Span(0, off) <= CoveredSet(m.ranges, m.size);
    SubsetSize(Span(0, off), CoveredSet(m.ranges, m.size));
  }

  // -------------------------------------------------- how long ranges get

  /** Whole pieces only: each piece is received entirely or not at all. */
  ghost predicate WholePieces(m: Meta, rs: seq<Range>) {
    forall j, x :: InPiece(m, j, x) && Covers(rs, x) ==> Full(m, rs, j)
  }

  /** The same for all pieces but p, of which some front part is received: what
      an upgraded sequential upload looks like. */
  ghost predicate WholePiecesBut(m: Meta, rs: seq<Range>, p: int) {
    && (forall j, x :: j != p && InPiece(m, j, x) && Covers(rs, x) ==> Full(m, rs, j))
    && (forall x, y :: InPiece(m, p, x) && InPiece(m, p, y) && x < y && Covers(rs, y) ==> Covers(rs, x))
  }

  lemma WholePiecesButNone(m: Meta, rs: seq<Range>)
    ensures WholePieces(m, rs) <==> WholePiecesBut(m, rs, -1)
  {}

  /** Between two intervals lies a whole piece, or the missing end of p. */
  lemma GapSkipsPiece(m: Meta, rs: seq<Range>, p: int, k: int)
    requires m.size > 0 && m.pieceLen > 0
    requires Normal(rs) && Within(rs, m.size) && WholePiecesBut(m, rs, p) && 0 <= k < |rs| - 1
    ensures var i, j := rs[k].lo / m.pieceLen, rs[k + 1].lo / m.pieceLen;
            i + 2 <= j || (i + 1 == j && i <= p < j)
  {
    var a, g, b := rs[k].lo, rs[k].hi, rs[k + 1].lo;
    assert Covers(rs, a) && Covers(rs, b) && Covers(rs, g - 1);
    assert g < b;
    assert !Covers(rs, g) by {
      forall i | 0 <= i < |rs| ensures !(rs[i].lo <= g < rs[i].hi) {
        if i < k { assert rs[i].hi < rs[k].lo; }
        if i > k + 1 { assert rs[k + 1].hi < rs[i].lo; }
      }
    }
    PieceOfByte(m.size, m.pieceLen, a);
    PieceOfByte(m.size, m.pieceLen, g);
    PieceOfByte(m.size, m.pieceLen, b);
    DivMono(a, g, m.pieceLen);
    DivMono(g, b, m.pieceLen);
    GapPiece(m, rs, p, a, g);
    GapPiece(m, rs, p, b, g);
  }

  /** A received byte before, or after, a missing one of the same piece. */
  lemma GapPiece(m: Meta, rs: seq<Range>, p: int, x: int, g: int)
    requires m.pieceLen > 0 && WholePiecesBut(m, rs, p)
    requires 0 <= x < m.size && 0 <= g < m.size && Covers(rs, x) && !Covers(rs, g)
    ensures x / m.pieceLen == g / m.pieceLen ==> x / m.pieceLen == p && x < g
  {
    PieceOfByte(m.size, m.pieceLen, x);
    PieceOfByte(m.size, m.pieceLen, g);
    if x / m.pieceLen == g / m.pieceLen {
      assert InPiece(m, x / m.pieceLen, x) && InPiece(m, x / m.pieceLen, g);
    }
  }

  lemma {:induction false} RangeStartsSpread(m: Meta, rs: seq<Range>, p: int, k: int)
    requires m.size > 0 && m.pieceLen > 0
    requires Normal(rs) && Within(rs, m.size) && WholePiecesBut(m, rs, p) && 0 <= k < |rs|
    ensures 2 * k <= rs[k].lo / m.pieceLen + (if 0 <= p < rs[k].lo / m.pieceLen then 1 else 0)
  {
    if k > 0 {
      RangeStartsSpread(m, rs, p, k - 1);
      GapSkipsPiece(m, rs, p, k - 1);
    }
    PieceOfByte(m.size, m.pieceLen, rs[k].lo);
  }

  /** n pieces never need more than (n+1)/2 intervals, and at most one more
      when one of them is partly there. */
  lemma HalfAsManyRanges(m: Meta, rs: seq<Range>, p: int)
    requires m.size > 0 && m.pieceLen > 0
    requires Normal(rs) && Within(rs, m.size) && WholePiecesBut(m, rs, p)
    ensures 2 * |rs| <= Count(m) + (if 0 <= p < Count(m) then 2 else 1)
  {
    CountBounds(m.size, m.pieceLen);
    if rs != [] {
      RangeStartsSpread(m, rs, p, |rs| - 1);
      PieceOfByte(m.size, m.pieceLen, rs[|rs| - 1].lo);
    }
  }

  lemma AccountKeepsWholePieces(H: Digest, m: Meta, disk: seq<byte>, p: int, i: int)
    requires SessionInv(m) && WholePiecesBut(m, m.ranges, p) && 0 <= i < Count(m)
    ensures var m' := Account(H, m, disk, Lo(m, i), Hi(m, i) - Lo(m, i)).0;
            SessionInv(m') && WholePiecesBut(m', m'.ranges, p)
  {
    PiecesTile(m.size, m.pieceLen, i);
    var length := Hi(m, i) - Lo(m, i);
    AccountKeepsInv(H, m, disk, Lo(m, i), length);
    var a := AddSpan(m, Lo(m, i), length).ranges;
    var m' := Account(H, m, disk, Lo(m, i), length).0;
    forall j, x, y | InPiece(m', j, x) && InPiece(m', j, y) && Covers(m'.ranges, x) && (j != p || y < x)
      ensures Covers(m'.ranges, y)
    {
      assert InPiece(m, j, x) && InPiece(m, j, y);
      OtherPieceUncut(m, i, j, x);
      OtherPieceUncut(m, i, j, y);
      assert j != i && j != p ==> Full(m, m.ranges, j);
    }
    forall j, x | j != p && InPiece(m', j, x) && Covers(m'.ranges, x) ensures Full(m', m'.ranges, j) {
      forall y | Lo(m, j) <= y < Hi(m, j) ensures Covers(m'.ranges, y) {
        assert InPiece(m', j, y);
      }
    }
  }
}
