/** The persisted metadata of one upload session and the bookkeeping done on
    it inside a lock section, as functions on values.  The mutating methods
    of `UploadSession.SessionMeta` are proved equal to these functions, and
    the interleavings of `UploadMachine` are built from them. */
module Session {
  import opened Wrappers
  import opened Ranges
  import opened Pieces

  datatype Meta = Meta(
    v: int,
    name: string,
    size: int,
    pieceLen: int,
    hashes: seq<Option<string>>,
    bitmap: seq<char>,
    ranges: seq<Range>,
    noVerify: bool)

  /** Hex digest of a byte string; left uninterpreted everywhere. */
  type Digest = seq<byte> -> string

  const MAX_PIECES := 200000
  const MAX_RANGES := 10000
  const CHUNK_MAX := 64 * 1024 * 1024
  const MAX_BYTES := 0x4000_0000_0000_0000
  const MAX_SIZE := 16 * 4 * 1024 * 1024 * 1024
  const PIECE_DEFAULT := 4 * 1024 * 1024
  const PIECE_MIN := 256 * 1024
  const PIECE_MAX := 16 * 1024 * 1024

  // ---------------------------------------------------------------- strings

  function LowerChar(c: char): char {
    if 'A' <= c <= 'Z' then (c as int + 32) as char else c
  }

  function Lower(s: string): string {
    seq(|s|, i requires 0 <= i < |s| => LowerChar(s[i]))
  }

  predicate IsHex(s: string) {
    |s| > 0 && forall i :: 0 <= i < |s| ==> '0' <= s[i] <= '9' || 'a' <= s[i] <= 'f' || 'A' <= s[i] <= 'F'
  }

  predicate HexDigest(s: string) { |s| == 64 && IsHex(s) }

  // ------------------------------------------------------------ accessors

  function Count(m: Meta): nat { PieceCount(m.size, m.pieceLen) }

  function Lo(m: Meta, i: int): int { PieceLo(m.pieceLen, i) }

  function Hi(m: Meta, i: int): int { PieceHi(m.size, m.pieceLen, i) }

  function GetBitmap(m: Meta): seq<char> {
    if |m.bitmap| != Count(m) then seq(Count(m), _ => '0') else m.bitmap
  }

  /** The recorded hash of a piece; the list may be shorter than the count. */
  function HashAt(m: Meta, i: int): Option<string> {
    if 0 <= i < |m.hashes| then m.hashes[i] else None
  }

  /** Re-read piece i from disk and compare with its recorded hash. */
  predicate VerifyPiece(H: Digest, m: Meta, disk: seq<byte>, i: int) {
    && 0 <= i < Count(m)
    && HashAt(m, i).Some?
    && |Lower(HashAt(m, i).value)| == 64
    && 0 <= Lo(m, i) <= Hi(m, i) <= |disk|
    && H(disk[Lo(m, i)..Hi(m, i)]) == Lower(HashAt(m, i).value)
  }

  // ------------------------------------------------------------ verifySpan

  datatype Scan = Scan(bitmap: seq<char>, ranges: seq<Range>, bad: seq<int>)

  function ScanPiece(H: Digest, m: Meta, disk: seq<byte>, i: int, sc: Scan): Scan
    requires 0 <= i < |sc.bitmap|
  {
    if sc.bitmap[i] == '1' then sc
    else if !RangeCover(sc.ranges, Lo(m, i), Hi(m, i)) then sc
    else if m.noVerify || VerifyPiece(H, m, disk, i) then sc.(bitmap := sc.bitmap[i := '1'])
    else Scan(sc.bitmap[i := '0'], RemoveRange(sc.ranges, Lo(m, i), Hi(m, i)), sc.bad + [i])
  }

  function ScanSpan(H: Digest, m: Meta, disk: seq<byte>, i: int, last: int, sc: Scan): Scan
    requires 0 <= i && |sc.bitmap| == Count(m)
    ensures |ScanSpan(H, m, disk, i, last, sc).bitmap| == |sc.bitmap|
    decreases Count(m) - i
  {
    if i > last || i >= Count(m) then sc
    else ScanSpan(H, m, disk, i + 1, last, ScanPiece(H, m, disk, i, sc))
  }

  function FirstPiece(m: Meta, offset: int): int
    requires m.pieceLen > 0
    ensures FirstPiece(m, offset) >= 0
  {
    if GoDiv(offset, m.pieceLen) < 0 then 0 else GoDiv(offset, m.pieceLen)
  }

  function LastPiece(m: Meta, offset: int, length: int): int
    requires m.pieceLen > 0
  {
    GoDiv(offset + length - 1, m.pieceLen)
  }

  /** verifySpan: newly covered pieces become marked or are un-accounted. */
  function VerifySpan(H: Digest, m: Meta, disk: seq<byte>, offset: int, length: int): (Meta, seq<int>)
    requires m.pieceLen > 0
  {
    var sc := ScanSpan(H, m, disk, FirstPiece(m, offset), LastPiece(m, offset, length),
                       Scan(GetBitmap(m), m.ranges, []));
    (m.(bitmap := sc.bitmap, ranges := sc.ranges), sc.bad)
  }

  /** The accounting of one delivered span: rangeAdd, then verifySpan. */
  function AddSpan(m: Meta, offset: int, length: int): Meta {
    m.(ranges := AddRange(m.ranges, m.size, offset, offset + length))
  }

  function Account(H: Digest, m: Meta, disk: seq<byte>, offset: int, length: int): (Meta, seq<int>)
    requires m.pieceLen > 0
  {
    VerifySpan(H, AddSpan(m, offset, length), disk, offset, length)
  }

  // -------------------------------------------------------------- invariant

  /** Every byte of piece i is accounted for. */
  ghost predicate Full(m: Meta, rs: seq<Range>, i: int) {
    CoversAll(rs, Lo(m, i), Hi(m, i))
  }

  /** What every reachable V2 session satisfies: the interval list is in
      normal form within the file, and the bitmap marks exactly the pieces
      whose every byte is in the list. */
  ghost predicate SessionInv(m: Meta) {
    && m.v == 2 && m.size > 0 && m.pieceLen > 0
    && |m.bitmap| == Count(m)
    && Normal(m.ranges) && Within(m.ranges, m.size)
    && (forall i :: 0 <= i < Count(m) ==> m.bitmap[i] == '0' || m.bitmap[i] == '1')
    && (forall i :: 0 <= i < Count(m) ==> (m.bitmap[i] == '1' <==> Full(m, m.ranges, i)))
  }

  /** Pieces that an accounting step throws out: complete, not yet marked,
      and failing their hash check. */
  ghost predicate Rejects(H: Digest, m: Meta, disk: seq<byte>, bm: seq<char>, rs: seq<Range>, j: int)
    requires 0 <= j < |bm|
  {
    bm[j] != '1' && Full(m, rs, j) && !m.noVerify && !VerifyPiece(H, m, disk, j)
  }

  ghost predicate MarkedAfter(H: Digest, m: Meta, disk: seq<byte>, bm: seq<char>, rs: seq<Range>, j: int)
    requires 0 <= j < |bm|
  {
    bm[j] == '1' || (Full(m, rs, j) && (m.noVerify || VerifyPiece(H, m, disk, j)))
  }

  ghost predicate InPiece(m: Meta, j: int, x: int) {
    0 <= j < Count(m) && Lo(m, j) <= x < Hi(m, j)
  }

  /** Pointwise meaning of a scan over pieces i..last. */
  ghost predicate ScanMeaning(H: Digest, m: Meta, disk: seq<byte>, i: int, last: int, sc: Scan, out: Scan)
    requires |sc.bitmap| == |out.bitmap| == Count(m)
  {
    && (forall j :: 0 <= j < Count(m) ==>
          if i <= j <= last then
            (out.bitmap[j] == '1' <==> MarkedAfter(H, m, disk, sc.bitmap, sc.ranges, j))
            && (out.bitmap[j] == '1' || out.bitmap[j] == '0' || out.bitmap[j] == sc.bitmap[j])
          else out.bitmap[j] == sc.bitmap[j])
    && (forall j, x :: InPiece(m, j, x) ==>
          (Covers(out.ranges, x) <==>
             Covers(sc.ranges, x) && !(i <= j <= last && Rejects(H, m, disk, sc.bitmap, sc.ranges, j))))
    && (forall j :: j in out.bad <==>
          j in sc.bad || (0 <= j < Count(m) && i <= j <= last && Rejects(H, m, disk, sc.bitmap, sc.ranges, j)))
  }

  /** Cutting one piece out of the list leaves every other piece alone. */
  lemma OtherPieceUncut(m: Meta, i: int, j: int, x: int)
    requires m.size > 0 && m.pieceLen > 0
    requires 0 <= i < Count(m) && InPiece(m, j, x)
    ensures Lo(m, i) <= x < Hi(m, i) <==> i == j
  {
    PieceOfByteUnique(m.size, m.pieceLen, x, j);
    if Lo(m, i) <= x < Hi(m, i) {
      PieceOfByteUnique(m.size, m.pieceLen, x, i);
    }
  }

  lemma ScanPieceMeaning(H: Digest, m: Meta, disk: seq<byte>, i: int, sc: Scan)
    requires m.size > 0 && m.pieceLen > 0 && |sc.bitmap| == Count(m)
    requires 0 <= i < Count(m) && Normal(sc.ranges)
    ensures Normal(ScanPiece(H, m, disk, i, sc).ranges)
    ensures ScanMeaning(H, m, disk, i, i, sc, ScanPiece(H, m, disk, i, sc))
  {
    var out := ScanPiece(H, m, disk, i, sc);
    ScanPieceRanges(H, m, disk, i, sc);
    forall j, x | InPiece(m, j, x)
      ensures Covers(out.ranges, x) <==>
              Covers(sc.ranges, x) && !(i <= j <= i && Rejects(H, m, disk, sc.bitmap, sc.ranges, j))
    {
      OtherPieceUncut(m, i, j, x);
    }
  }

  lemma ScanPieceRanges(H: Digest, m: Meta, disk: seq<byte>, i: int, sc: Scan)
    requires m.size > 0 && m.pieceLen > 0 && |sc.bitmap| == Count(m)
    requires 0 <= i < Count(m) && Normal(sc.ranges)
    ensures Normal(ScanPiece(H, m, disk, i, sc).ranges)
    ensures RangeCover(sc.ranges, Lo(m, i), Hi(m, i)) <==> Full(m, sc.ranges, i)
    ensures forall x :: Covers(ScanPiece(H, m, disk, i, sc).ranges, x) <==>
              Covers(sc.ranges, x) && !(Rejects(H, m, disk, sc.bitmap, sc.ranges, i) && Lo(m, i) <= x < Hi(m, i))
  {
    PiecesTile(m.size, m.pieceLen, i);
    RangeCoverIff(sc.ranges, Lo(m, i), Hi(m, i));
    RemoveRangeIsDifference(sc.ranges, Lo(m, i), Hi(m, i));
  }

  /** Pieces other than i look the same to a scan after piece i is scanned. */
  lemma ScanPieceFrame(H: Digest, m: Meta, disk: seq<byte>, i: int, sc: Scan, j: int)
    requires m.size > 0 && m.pieceLen > 0 && |sc.bitmap| == Count(m)
    requires 0 <= i < Count(m) && 0 <= j < Count(m) && j != i && Normal(sc.ranges)
    ensures var out := ScanPiece(H, m, disk, i, sc);
            && out.bitmap[j] == sc.bitmap[j]
            && (Full(m, out.ranges, j) <==> Full(m, sc.ranges, j))
  {
    ScanPieceMeaning(H, m, disk, i, sc);
    var out := ScanPiece(H, m, disk, i, sc);
    forall x | Lo(m, j) <= x < Hi(m, j) ensures Covers(out.ranges, x) <==> Covers(sc.ranges, x) {
      assert InPiece(m, j, x);
    }
  }

  lemma {:induction false} ScanSpanMeaning(H: Digest, m: Meta, disk: seq<byte>, i: int, last: int, sc: Scan)
    requires m.size > 0 && m.pieceLen > 0 && |sc.bitmap| == Count(m)
    requires 0 <= i && Normal(sc.ranges)
    ensures Normal(ScanSpan(H, m, disk, i, last, sc).ranges)
    ensures ScanMeaning(H, m, disk, i, last, sc, ScanSpan(H, m, disk, i, last, sc))
    decreases Count(m) - i
  {
    if i <= last && i < Count(m) {
      var mid := ScanPiece(H, m, disk, i, sc);
      ScanPieceMeaning(H, m, disk, i, sc);
      ScanSpanMeaning(H, m, disk, i + 1, last, mid);
      ScanCompose(H, m, disk, i, last, sc, mid, ScanSpan(H, m, disk, i + 1, last, mid));
    }
  }

  lemma ScanCompose(H: Digest, m: Meta, disk: seq<byte>, i: int, last: int, sc: Scan, mid: Scan, out: Scan)
    requires m.size > 0 && m.pieceLen > 0 && 0 <= i <= last && i < Count(m)
    requires |sc.bitmap| == |mid.bitmap| == |out.bitmap| == Count(m) && Normal(sc.ranges)
    requires mid == ScanPiece(H, m, disk, i, sc)
    requires ScanMeaning(H, m, disk, i, i, sc, mid)
    requires ScanMeaning(H, m, disk, i + 1, last, mid, out)
    ensures ScanMeaning(H, m, disk, i, last, sc, out)
  {
    forall j | 0 <= j < Count(m) && j != i
      ensures mid.bitmap[j] == sc.bitmap[j]
      ensures Full(m, mid.ranges, j) <==> Full(m, sc.ranges, j)
      ensures Rejects(H, m, disk, mid.bitmap, mid.ranges, j) <==> Rejects(H, m, disk, sc.bitmap, sc.ranges, j)
      ensures MarkedAfter(H, m, disk, mid.bitmap, mid.ranges, j) <==> MarkedAfter(H, m, disk, sc.bitmap, sc.ranges, j)
    {
      ScanPieceFrame(H, m, disk, i, sc, j);
    }
    forall j, x | InPiece(m, j, x)
      ensures Covers(out.ranges, x) <==>
             Covers(sc.ranges, x) && !(i <= j <= last && Rejects(H, m, disk, sc.bitmap, sc.ranges, j))
    {
      assert 0 <= j < Count(m);
    }
  }

  // ------------------------------------------------ one accounting section

  ghost predicate ValidSpan(m: Meta, offset: int, length: int) {
    0 <= offset && 0 < length && offset + length <= m.size
  }

  lemma DivMono(a: int, b: int, d: int)
    requires 0 <= a <= b && d > 0
    ensures a / d <= b / d
  {
    if a / d > b / d {
      MulLeq(b / d + 1, a / d, d);
    }
  }

  /** A span touches no piece outside the ones that verifySpan looks at. */
  lemma SpanTouchesOnly(m: Meta, offset: int, length: int, j: int, x: int)
    requires m.size > 0 && m.pieceLen > 0 && ValidSpan(m, offset, length)
    requires InPiece(m, j, x) && offset <= x < offset + length
    ensures FirstPiece(m, offset) <= j <= LastPiece(m, offset, length)
  {
    PieceOfByteUnique(m.size, m.pieceLen, x, j);
    DivMono(offset, x, m.pieceLen);
    DivMono(x, offset + length - 1, m.pieceLen);
  }

  /** Everything a lock section does to a session, piece by piece and byte
      by byte: a piece is marked afterwards when it was marked before or is
      now complete and passes its check; a complete piece that fails is
      listed as bad and loses all its bytes; all other bytes are those
      received before plus the span. */
  ghost predicate Accounted(H: Digest, m: Meta, disk: seq<byte>, offset: int, length: int, m': Meta, bad: seq<int>)
    requires |m.bitmap| == Count(m)
  {
    var a := AddSpan(m, offset, length).ranges;
    && m' == m.(bitmap := m'.bitmap, ranges := m'.ranges)
    && |m'.bitmap| == |m.bitmap|
    && (forall x :: Covers(a, x) <==> Covers(m.ranges, x) || offset <= x < offset + length)
    && (forall j :: 0 <= j < Count(m) ==>
          (m'.bitmap[j] == '1' <==> MarkedAfter(H, m, disk, m.bitmap, a, j)))
    && (forall j, x :: InPiece(m, j, x) ==>
          (Covers(m'.ranges, x) <==> Covers(a, x) && !Rejects(H, m, disk, m.bitmap, a, j)))
    && (forall j :: j in bad <==> 0 <= j < Count(m) && Rejects(H, m, disk, m.bitmap, a, j))
  }

  lemma UntouchedPiece(m: Meta, offset: int, length: int, j: int)
    requires SessionInv(m) && ValidSpan(m, offset, length)
    requires 0 <= j < Count(m) && !(FirstPiece(m, offset) <= j <= LastPiece(m, offset, length))
    ensures Full(m, AddSpan(m, offset, length).ranges, j) <==> m.bitmap[j] == '1'
  {
    AddRangeIsUnion(m.ranges, m.size, offset, offset + length);
    var a := AddSpan(m, offset, length).ranges;
    forall x | Lo(m, j) <= x < Hi(m, j) ensures Covers(a, x) <==> Covers(m.ranges, x) {
      assert InPiece(m, j, x);
      if offset <= x < offset + length {
        SpanTouchesOnly(m, offset, length, j, x);
      }
    }
  }

  lemma AccountMeaning(H: Digest, m: Meta, disk: seq<byte>, offset: int, length: int)
    requires SessionInv(m) && ValidSpan(m, offset, length)
    ensures var r := Account(H, m, disk, offset, length);
            Accounted(H, m, disk, offset, length, r.0, r.1) && Normal(r.0.ranges)
    ensures forall i :: 0 <= i < Count(m) ==>
              Account(H, m, disk, offset, length).0.bitmap[i] == '0' || Account(H, m, disk, offset, length).0.bitmap[i] == '1'
  {
    AddRangeIsUnion(m.ranges, m.size, offset, offset + length);
    var a := AddSpan(m, offset, length);
    var first, last := FirstPiece(m, offset), LastPiece(m, offset, length);
    var sc := Scan(m.bitmap, a.ranges, []);
    ScanSpanMeaning(H, a, disk, first, last, sc);
    forall j | 0 <= j < Count(m) && !(first <= j <= last)
      ensures Full(a, a.ranges, j) <==> m.bitmap[j] == '1'
    {
      UntouchedPiece(m, offset, length, j);
      assert Full(m, a.ranges, j) <==> Full(a, a.ranges, j);
    }
    ScanGivesAccounted(H, a, disk, first, last, sc, ScanSpan(H, a, disk, first, last, sc));
    SameJudgement(H, m, a, disk);
  }

  /** Pieces outside the scanned window need no mention. */
  lemma ScanGivesAccounted(H: Digest, a: Meta, disk: seq<byte>, first: int, last: int, sc: Scan, out: Scan)
    requires |sc.bitmap| == |out.bitmap| == Count(a)
    requires ScanMeaning(H, a, disk, first, last, sc, out)
    requires forall j :: 0 <= j < Count(a) ==> sc.bitmap[j] == '0' || sc.bitmap[j] == '1'
    requires forall j :: 0 <= j < Count(a) && !(first <= j <= last) ==> (Full(a, sc.ranges, j) <==> sc.bitmap[j] == '1')
    ensures forall j :: 0 <= j < Count(a) ==>
              (out.bitmap[j] == '1' <==> MarkedAfter(H, a, disk, sc.bitmap, sc.ranges, j))
    ensures forall j :: 0 <= j < Count(a) ==> out.bitmap[j] == '0' || out.bitmap[j] == '1'
    ensures forall j, x :: InPiece(a, j, x) ==>
              (Covers(out.ranges, x) <==> Covers(sc.ranges, x) && !Rejects(H, a, disk, sc.bitmap, sc.ranges, j))
    ensures forall j :: j in out.bad <==>
              j in sc.bad || (0 <= j < Count(a) && Rejects(H, a, disk, sc.bitmap, sc.ranges, j))
  {}

  /** The checks made on a piece do not depend on the stored interval list. */
  lemma SameJudgement(H: Digest, m: Meta, a: Meta, disk: seq<byte>)
    requires a == m.(ranges := a.ranges)
    ensures forall j, bm: seq<char>, rs :: 0 <= j < |bm| ==>
              && MarkedAfter(H, m, disk, bm, rs, j) == MarkedAfter(H, a, disk, bm, rs, j)
              && Rejects(H, m, disk, bm, rs, j) == Rejects(H, a, disk, bm, rs, j)
    ensures forall j, x :: InPiece(m, j, x) == InPiece(a, j, x)
  {}

  lemma CoverGivesWithin(rs: seq<Range>, size: int)
    requires NonEmpty(rs) && forall x :: Covers(rs, x) ==> 0 <= x < size
    ensures Within(rs, size)
  {
    forall k | 0 <= k < |rs| ensures 0 <= rs[k].lo && rs[k].hi <= size {
      assert Covers(rs, rs[k].lo);
      assert Covers(rs, rs[k].hi - 1);
    }
  }

  /** In every state reached by accounting, whatever is on disk, the bitmap
      marks exactly the fully received pieces. */
  lemma AccountKeepsInv(H: Digest, m: Meta, disk: seq<byte>, offset: int, length: int)
    requires SessionInv(m) && ValidSpan(m, offset, length)
    ensures SessionInv(Account(H, m, disk, offset, length).0)
    ensures Accounted(H, m, disk, offset, length, Account(H, m, disk, offset, length).0, Account(H, m, disk, offset, length).1)
  {
    AccountMeaning(H, m, disk, offset, length);
    var m' := Account(H, m, disk, offset, length).0;
    var a := AddSpan(m, offset, length).ranges;
    AccountWithin(H, m, disk, offset, length);
    forall j | 0 <= j < Count(m) ensures m'.bitmap[j] == '1' <==> Full(m', m'.ranges, j) {
      PiecesTile(m.size, m.pieceLen, j);
      assert InPiece(m, j, Lo(m, j));
      forall x | Lo(m, j) <= x < Hi(m, j)
        ensures Covers(m'.ranges, x) <==> Covers(a, x) && !Rejects(H, m, disk, m.bitmap, a, j)
      {
        assert InPiece(m, j, x);
      }
      if m.bitmap[j] == '1' {
        assert Full(m, m.ranges, j);
      }
    }
  }

  lemma AccountWithin(H: Digest, m: Meta, disk: seq<byte>, offset: int, length: int)
    requires SessionInv(m) && ValidSpan(m, offset, length)
    ensures Within(Account(H, m, disk, offset, length).0.ranges, m.size)
  {
    AddRangeIsUnion(m.ranges, m.size, offset, offset + length);
    var a := AddSpan(m, offset, length);
    var first, last := FirstPiece(m, offset), LastPiece(m, offset, length);
    forall x | Covers(a.ranges, x) ensures 0 <= x < m.size {
      if Covers(m.ranges, x) {
        var k :| 0 <= k < |m.ranges| && m.ranges[k].lo <= x < m.ranges[k].hi;
      }
    }
    ScanOnlyShrinks(H, a, disk, first, last, Scan(m.bitmap, a.ranges, []));
    AccountMeaning(H, m, disk, offset, length);
    CoverGivesWithin(Account(H, m, disk, offset, length).0.ranges, m.size);
  }

  lemma {:induction false} ScanOnlyShrinks(H: Digest, m: Meta, disk: seq<byte>, i: int, last: int, sc: Scan)
    requires m.size > 0 && m.pieceLen > 0 && |sc.bitmap| == Count(m)
    requires 0 <= i && Normal(sc.ranges)
    ensures forall x :: Covers(ScanSpan(H, m, disk, i, last, sc).ranges, x) ==> Covers(sc.ranges, x)
    decreases Count(m) - i
  {
    if i <= last && i < Count(m) {
      PiecesTile(m.size, m.pieceLen, i);
      RemoveRangeIsDifference(sc.ranges, Lo(m, i), Hi(m, i));
      ScanOnlyShrinks(H, m, disk, i + 1, last, ScanPiece(H, m, disk, i, sc));
    }
  }

  // ------------------------------------------------- spans of one whole piece

  /** Adding one piece leaves every other piece as it was. */
  lemma OtherPieceAfterAdd(m: Meta, i: int, j: int)
    requires SessionInv(m) && 0 <= i < Count(m) && 0 <= j < Count(m) && i != j
    ensures var a := AddSpan(m, Lo(m, i), Hi(m, i) - Lo(m, i)).ranges;
            && (forall x :: Lo(m, j) <= x < Hi(m, j) ==> (Covers(a, x) <==> Covers(m.ranges, x)))
            && (Full(m, a, j) <==> m.bitmap[j] == '1')
  {
    var a := AddSpan(m, Lo(m, i), Hi(m, i) - Lo(m, i)).ranges;
    PiecesTile(m.size, m.pieceLen, i);
    AddRangeIsUnion(m.ranges, m.size, Lo(m, i), Hi(m, i));
    forall x | Lo(m, j) <= x < Hi(m, j) ensures Covers(a, x) <==> Covers(m.ranges, x) {
      assert InPiece(m, j, x);
      OtherPieceUncut(m, i, j, x);
    }
  }

  lemma ThisPieceAfterAdd(m: Meta, i: int)
    requires SessionInv(m) && 0 <= i < Count(m)
    ensures Full(m, AddSpan(m, Lo(m, i), Hi(m, i) - Lo(m, i)).ranges, i)
  {
    PiecesTile(m.size, m.pieceLen, i);
    AddRangeIsUnion(m.ranges, m.size, Lo(m, i), Hi(m, i));
  }
}
