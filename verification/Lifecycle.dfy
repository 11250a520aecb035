/** How sessions come into being (fresh, resumed, upgraded from the old
    sequential protocol) and which saved metadata is accepted on reload. */
module Lifecycle {
  import opened Wrappers
  import opened Ranges
  import opened Pieces
  import opened Session
  import opened Progress

  // ------------------------------------------------------------- validMeta

  predicate ValidMeta(m: Meta) {
    && 0 <= m.size <= MAX_SIZE
    && (m.v == 2 ==> 0 < m.pieceLen <= CHUNK_MAX)
    && |m.ranges| <= MAX_RANGES
    && (forall k :: 0 <= k < |m.ranges| ==> 0 <= m.ranges[k].lo <= m.ranges[k].hi <= m.size + 1)
    && (m.v == 2 ==>
          && Count(m) <= MAX_PIECES
          && (|m.bitmap| == 0 || |m.bitmap| == Count(m))
          && |m.hashes| <= Count(m) + 1)
  }

  /** loadMeta, which every request goes through: saved metadata that fails
      the check counts as no session at all. */
  function Load(saved: Option<Meta>): Option<Meta> {
    if saved.Some? && !ValidMeta(saved.value) then None else saved
  }

  /** Limits a session had to meet when it was created. */
  ghost predicate WithinLimits(m: Meta) {
    m.pieceLen <= CHUNK_MAX && Count(m) <= MAX_PIECES && |m.hashes| <= Count(m)
  }

  /** What loadMeta lets through: a size up to 64 GiB, at most 10000 intervals
      inside the file, and for a session in pieces a piece length up to 64 MiB,
      at most 200000 pieces, a bitmap that is missing or has a mark for each,
      and no more hashes than one past the pieces. */
  lemma LoadIff(m: Meta)
    ensures Load(Some(m)) == Some(m) <==>
              && 0 <= m.size <= 0x10_0000_0000 && |m.ranges| <= 10000
              && (forall k :: 0 <= k < |m.ranges| ==> 0 <= m.ranges[k].lo <= m.ranges[k].hi <= m.size + 1)
              && (m.v == 2 ==> (
                    && 0 < m.pieceLen <= 0x400_0000
                    && var n := if m.size == 0 then 0 else (m.size + m.pieceLen - 1) / m.pieceLen;
                       n <= 200000 && (m.bitmap == [] || |m.bitmap| == n) && |m.hashes| <= n + 1))
    ensures Load(Some(m)) == Some(m) || Load(Some(m)) == None
  {}

  /** A saved session is readable again exactly when its interval list is
      short enough and its file is not larger than reload allows. */
  lemma ReloadIff(m: Meta)
    requires SessionInv(m) && WithinLimits(m)
    ensures ValidMeta(m) <==> |m.ranges| <= MAX_RANGES && m.size <= MAX_SIZE
  {}

  /** Sessions that cannot come to hold too many intervals: at most 20000
      whole pieces, or two fewer with one of them partly there. */
  ghost predicate FewIntervals(m: Meta) {
    exists p :: WholePiecesBut(m, m.ranges, p) && Count(m) + (if 0 <= p < Count(m) then 2 else 0) <= 2 * MAX_RANGES
  }

  lemma WholePiecesAreFew(m: Meta)
    requires WholePieces(m, m.ranges) && Count(m) <= 2 * MAX_RANGES
    ensures FewIntervals(m)
  {
    WholePiecesButNone(m, m.ranges);
  }

  /** Uploading whole pieces, up to 20000 pieces can never outgrow reload. */
  lemma SmallSessionsReload(m: Meta)
    requires SessionInv(m) && WithinLimits(m) && FewIntervals(m)
    ensures ValidMeta(m) <==> m.size <= MAX_SIZE
  {
    var p :| WholePiecesBut(m, m.ranges, p) && Count(m) + (if 0 <= p < Count(m) then 2 else 0) <= 2 * MAX_RANGES;
    HalfAsManyRanges(m, m.ranges, p);
  }

  // ------------------------------------------------------------ fresh start

  /** The validated body of an init request.  Without `wantV2` it starts a
      sequential upload, and the piece length is the default. */
  datatype InitParams = InitParams(
    name: string, size: int, wantV2: bool, pieceLen: int, hashes: Option<seq<string>>, noVerify: bool)

  function NeedN(p: InitParams): nat { PieceCount(p.size, p.pieceLen) }

  /** Under the default limits; a lower limit on the size accepts fewer. */
  predicate AcceptedParams(p: InitParams) {
    && 0 < p.size <= MAX_BYTES
    && (p.hashes.Some? || p.noVerify ==> p.wantV2)
    && (!p.wantV2 ==> p.pieceLen == PIECE_DEFAULT)
    && (p.wantV2 ==> PIECE_MIN <= p.pieceLen <= PIECE_MAX && NeedN(p) <= MAX_PIECES)
    && (p.hashes.Some? ==>
          && |p.hashes.value| == NeedN(p)
          && forall i :: 0 <= i < NeedN(p) ==> |p.hashes.value[i]| == 64 && Lower(p.hashes.value[i]) == p.hashes.value[i])
  }

  function Offered(p: InitParams): seq<Option<string>> {
    match p.hashes
    case None => []
    case Some(hs) => seq(|hs|, i requires 0 <= i < |hs| => Some(hs[i]))
  }

  function NewSession(p: InitParams): Meta {
    Meta(2, p.name, p.size, p.pieceLen, Offered(p), seq(NeedN(p), _ => '0'), [], p.noVerify)
  }

  /** A sequential session; its progress is the length of its file. */
  function Sequential(p: InitParams): Meta {
    Meta(1, p.name, p.size, 0, [], [], [], false)
  }

  function FirstSaved(p: InitParams): Meta { if p.wantV2 then NewSession(p) else Sequential(p) }

  /** A new session keeps the session invariant; it can be read again exactly
      when its file is not larger than reload allows. */
  lemma NewSessionInv(p: InitParams)
    requires AcceptedParams(p) && p.wantV2
    ensures SessionInv(NewSession(p)) && WithinLimits(NewSession(p))
    ensures ValidMeta(NewSession(p)) <==> p.size <= MAX_SIZE
    ensures WholePieces(NewSession(p), [])
  {
    var m := NewSession(p);
    forall i | 0 <= i < Count(m) ensures !Full(m, m.ranges, i) {
      PiecesTile(m.size, m.pieceLen, i);
      assert !Covers(m.ranges, Lo(m, i));
    }
  }

  const GIB := 1024 * 1024 * 1024

  function HugeInit(): InitParams {
    InitParams("f", 68 * GIB, true, PIECE_MAX, None, false)
  }

  /** A concrete init that is accepted and lost at once: 68 GiB in 4352 pieces. */
  lemma HugeInitIsLost()
    ensures AcceptedParams(HugeInit()) && NeedN(HugeInit()) == 4352
    ensures Load(Some(NewSession(HugeInit()))) == None
  {
    NewSessionInv(HugeInit());
  }

  // ----------------------------------------- a session that outgrows reload

  /** One whole piece delivered and accounted. */
  function Deliver(H: Digest, m: Meta, disk: seq<byte>, i: int): (r: Meta)
    requires m.pieceLen > 0
    ensures r == m.(bitmap := r.bitmap, ranges := r.ranges)
  {
    Account(H, m, disk, Lo(m, i), Hi(m, i) - Lo(m, i)).0
  }

  /** Deliver pieces 0, 2, 4, ... (k of them) to a session. */
  function EvenRun(H: Digest, m: Meta, disk: seq<byte>, k: nat): (r: Meta)
    requires m.pieceLen > 0
    ensures r == m.(bitmap := r.bitmap, ranges := r.ranges)
  {
    if k == 0 then m else Deliver(H, EvenRun(H, m, disk, k - 1), disk, 2 * (k - 1))
  }

  /** Nothing is checked, or every even piece on disk has its hash. */
  ghost predicate EvensPass(H: Digest, m: Meta, disk: seq<byte>) {
    m.noVerify || forall i :: 0 <= i < Count(m) && i % 2 == 0 ==> VerifyPiece(H, m, disk, i)
  }

  function EvenRanges(m: Meta, k: nat): seq<Range> {
    seq(k, i requires 0 <= i < k => Range(Lo(m, 2 * i), Hi(m, 2 * i)))
  }

  lemma EvenRangesNormal(m: Meta, k: nat)
    requires m.size > 0 && m.pieceLen > 0 && 2 * k <= Count(m) + 1
    ensures Normal(EvenRanges(m, k))
    ensures forall x :: Covers(EvenRanges(m, k + 1), x) <==>
              Covers(EvenRanges(m, k), x) || Lo(m, 2 * k) <= x < Hi(m, 2 * k)
  {
    forall i | 0 <= i < k ensures Lo(m, 2 * i) < Hi(m, 2 * i) {
      PiecesTile(m.size, m.pieceLen, 2 * i);
    }
    forall i, j | 0 <= i < j < k ensures Hi(m, 2 * i) < Lo(m, 2 * j) {
      PiecesTile(m.size, m.pieceLen, 2 * i);
      PiecesTile(m.size, m.pieceLen, 2 * i + 1);
      PiecesOrdered(m.size, m.pieceLen, 2 * i + 1, 2 * j);
    }
    var last := [Range(Lo(m, 2 * k), Hi(m, 2 * k))];
    assert EvenRanges(m, k + 1) == EvenRanges(m, k) + last;
    AppendCover(EvenRanges(m, k), last);
    forall x ensures Covers(last, x) <==> Lo(m, 2 * k) <= x < Hi(m, 2 * k) {
      if Lo(m, 2 * k) <= x < Hi(m, 2 * k) { assert last[0].lo <= x < last[0].hi; }
    }
  }

  /** What k even pieces leave behind. */
  ghost predicate EvenState(m: Meta, now: Meta, k: nat) {
    && SessionInv(now) && now == m.(bitmap := now.bitmap, ranges := now.ranges)
    && now.ranges == EvenRanges(m, k)
  }

  lemma {:induction false} EvenRunRanges(H: Digest, m: Meta, disk: seq<byte>, k: nat)
    requires SessionInv(m) && EvensPass(H, m, disk) && m.ranges == [] && 2 * k <= Count(m) + 1
    ensures EvenState(m, EvenRun(H, m, disk, k), k)
  {
    if k > 0 {
      EvenRunRanges(H, m, disk, k - 1);
      EvenStep(H, m, EvenRun(H, m, disk, k - 1), disk, k - 1, EvenRun(H, m, disk, k));
    }
  }

  lemma EvenStep(H: Digest, m: Meta, prev: Meta, disk: seq<byte>, k: nat, next: Meta)
    requires m.size > 0 && m.pieceLen > 0 && EvensPass(H, m, disk) && 2 * k < Count(m) && EvenState(m, prev, k)
    requires next == Deliver(H, prev, disk, 2 * k)
    ensures EvenState(m, next, k + 1)
  {
    var i := 2 * k;
    assert i % 2 == 0;
    assert m.noVerify || VerifyPiece(H, m, disk, i);
    DeliverAddsPiece(H, prev, disk, i, next);
    EvenNext(m, prev, k, next);
  }

  lemma EvenNext(m: Meta, prev: Meta, k: nat, next: Meta)
    requires m.size > 0 && m.pieceLen > 0 && 2 * k < Count(m) && EvenState(m, prev, k)
    requires SessionInv(next) && next == prev.(bitmap := next.bitmap, ranges := next.ranges)
    requires forall x :: Covers(next.ranges, x) <==> Covers(prev.ranges, x) || Lo(m, 2 * k) <= x < Hi(m, 2 * k)
    ensures EvenState(m, next, k + 1)
  {
    EvenRangesNormal(m, k);
    EvenRangesNormal(m, k + 1);
    NormalFormUnique(next.ranges, EvenRanges(m, k + 1));
  }

  /** Accounting a piece that passes its check only ever adds the piece. */
  lemma DeliverAddsPiece(H: Digest, m: Meta, disk: seq<byte>, i: int, m': Meta)
    requires SessionInv(m) && 0 <= i < Count(m) && (m.noVerify || VerifyPiece(H, m, disk, i))
    requires m' == Deliver(H, m, disk, i)
    ensures SessionInv(m')
    ensures forall x :: Covers(m'.ranges, x) <==> Covers(m.ranges, x) || Lo(m, i) <= x < Hi(m, i)
  {
    PiecesTile(m.size, m.pieceLen, i);
    AccountKeepsInv(H, m, disk, Lo(m, i), Hi(m, i) - Lo(m, i));
    forall x ensures Covers(m'.ranges, x) <==> Covers(m.ranges, x) || Lo(m, i) <= x < Hi(m, i) {
      if 0 <= x < m.size {
        PieceOfByte(m.size, m.pieceLen, x);
        assert InPiece(m, x / m.pieceLen, x);
        if x / m.pieceLen != i { OtherPieceAfterAdd(m, i, x / m.pieceLen); }
      } else {
        InsideOnly(m.ranges, m.size, x);
        InsideOnly(m'.ranges, m.size, x);
      }
    }
  }

  lemma InsideOnly(rs: seq<Range>, size: int, x: int)
    requires Within(rs, size) && !(0 <= x < size)
    ensures !Covers(rs, x)
  {}

  /** Past 20000 pieces the reload check is reachable: delivering every second
      piece, unverified or with its right content, saves metadata that is
      accepted up to the 10000th delivery and rejected, losing the session, at
      the 10001st. */
  lemma LargeSessionsOutgrowReload(H: Digest, m: Meta, disk: seq<byte>, k: nat)
    requires SessionInv(m) && WithinLimits(m) && m.ranges == [] && EvensPass(H, m, disk)
    requires 2 * k <= Count(m) + 1
    ensures ValidMeta(EvenRun(H, m, disk, k)) <==> k <= MAX_RANGES && m.size <= MAX_SIZE
  {
    EvenRunRanges(H, m, disk, k);
    ReloadIff(EvenRun(H, m, disk, k));
  }

  // --------------------------------------------------------------- resuming

  function Stored(m: Meta, n: nat): seq<Option<string>> {
    if |m.hashes| != n then seq(n, _ => None) else m.hashes
  }

  predicate HashClash(stored: seq<Option<string>>, offered: seq<Option<string>>)
    requires |stored| == |offered|
  {
    exists i | 0 <= i < |stored| :: stored[i].Some? && offered[i].Some? && stored[i] != offered[i]
  }

  function MergeHashes(stored: seq<Option<string>>, offered: seq<Option<string>>): seq<Option<string>>
    requires |stored| == |offered|
  {
    seq(|stored|, i requires 0 <= i < |stored| => if stored[i].None? then offered[i] else stored[i])
  }

  predicate GainsHash(stored: seq<Option<string>>, offered: seq<Option<string>>)
    requires |stored| == |offered|
  {
    exists i | 0 <= i < |stored| :: stored[i].None? && offered[i].Some?
  }

  /** resumeV2: None asks for a rebuild from scratch. */
  function Resume(m: Meta, p: InitParams): Option<Meta>
    requires p.hashes.Some? && |p.hashes.value| == NeedN(p)
  {
    var stored, offered := Stored(m, NeedN(p)), Offered(p);
    if m.pieceLen != 0 && m.pieceLen != p.pieceLen then None
    else if HashClash(stored, offered) then None
    else if GainsHash(stored, offered) then Some(m.(hashes := MergeHashes(stored, offered)))
    else Some(m)
  }

  /** What upload_init leaves behind for a client that offers hashes to an
      existing V2 session of the same name, size and mode. */
  function Reinit(m: Meta, p: InitParams): Meta
    requires p.hashes.Some? && |p.hashes.value| == NeedN(p)
  {
    match Resume(m, p)
    case Some(r) => r
    case None => NewSession(p)
  }

  /** The stored session an init goes on with; an init that names no pieces
      takes it as it is. */
  predicate SameUpload(m: Meta, p: InitParams) {
    && m.name == p.name && m.size == p.size && m.noVerify == p.noVerify
    && (m.v != 2 || !p.wantV2 || m.pieceLen == p.pieceLen)
  }

  /** A resume asks for a rebuild exactly when the pieces have another length,
      or a full list of recorded hashes differs from the offer somewhere. */
  lemma RebuildsIff(m: Meta, p: InitParams)
    requires AcceptedParams(p) && p.hashes.Some?
    ensures Resume(m, p).None? <==>
              || (m.pieceLen != 0 && m.pieceLen != p.pieceLen)
              || (|m.hashes| == NeedN(p) &&
                    exists i :: 0 <= i < NeedN(p) && m.hashes[i].Some? && m.hashes[i].value != p.hashes.value[i])
  {
    var stored, offered := Stored(m, NeedN(p)), Offered(p);
    assert forall i :: 0 <= i < NeedN(p) ==> offered[i] == Some(p.hashes.value[i]);
    if |m.hashes| == NeedN(p) {
      if i :| 0 <= i < NeedN(p) && m.hashes[i].Some? && m.hashes[i].value != p.hashes.value[i] {
        assert stored[i].Some? && offered[i].Some? && stored[i] != offered[i];
      }
    }
  }

  lemma ReinitKeepsInv(m: Meta, p: InitParams)
    requires SessionInv(m) && AcceptedParams(p) && p.hashes.Some? && SameUpload(m, p)
    ensures SessionInv(Reinit(m, p))
    ensures Resume(m, p).Some? ==> Reinit(m, p).ranges == m.ranges && Reinit(m, p).bitmap == m.bitmap
  {
    NewSessionInv(p);
    var r := Reinit(m, p);
    if Resume(m, p).Some? {
      assert forall i :: 0 <= i < Count(m) ==> (Full(r, r.ranges, i) <==> Full(m, m.ranges, i));
    }
  }

  /** A resumed session knows a hash for every piece. */
  lemma ResumeRecordsAll(m: Meta, p: InitParams)
    requires SessionInv(m) && AcceptedParams(p) && p.hashes.Some? && SameUpload(m, p)
    requires Resume(m, p).Some?
    ensures |Resume(m, p).value.hashes| == Count(m)
    ensures forall i :: 0 <= i < Count(m) ==> HashAt(Resume(m, p).value, i).Some?
  {
    CountBounds(m.size, m.pieceLen);
    var stored, offered := Stored(m, NeedN(p)), Offered(p);
    assert forall i :: 0 <= i < Count(m) ==> offered[i] == Some(p.hashes.value[i]);
    if !GainsHash(stored, offered) {
      assert stored[0].Some?;
    }
  }

  lemma ReinitKeepsFewIntervals(m: Meta, p: InitParams)
    requires SessionInv(m) && AcceptedParams(p) && p.hashes.Some? && SameUpload(m, p)
    requires FewIntervals(m)
    ensures FewIntervals(Reinit(m, p))
  {
    NewSessionInv(p);
    if Resume(m, p).Some? {
      HashesDoNotMatter(m, Reinit(m, p));
    } else {
      WholePiecesAreFew(Reinit(m, p));
    }
  }

  lemma HashesDoNotMatter(m: Meta, m1: Meta)
    requires m1 == m.(hashes := m1.hashes)
    ensures forall p :: WholePiecesBut(m, m.ranges, p) ==> WholePiecesBut(m1, m1.ranges, p)
    ensures FewIntervals(m) ==> FewIntervals(m1)
  {
    forall p | WholePiecesBut(m, m.ranges, p) ensures WholePiecesBut(m1, m1.ranges, p) {
      forall j, x | j != p && InPiece(m1, j, x) && Covers(m1.ranges, x) ensures Full(m1, m1.ranges, j) {
        assert InPiece(m, j, x);
        assert Full(m, m.ranges, j);
      }
      forall x, y | InPiece(m1, p, x) && InPiece(m1, p, y) && x < y && Covers(m1.ranges, y) ensures Covers(m1.ranges, x) {
        assert InPiece(m, p, x) && InPiece(m, p, y);
      }
    }
  }

  // ------------------------------------------- marked pieces match the disk

  /** Every marked piece hashes, on disk, to its recorded hash. */
  ghost predicate MarkedMatch(H: Digest, m: Meta, disk: seq<byte>)
    requires |m.bitmap| == Count(m)
  {
    forall j :: 0 <= j < Count(m) && m.bitmap[j] == '1' ==> VerifyPiece(H, m, disk, j)
  }

  /** Resuming keeps every marked piece matched exactly when the stored list
      was full length, or the offered hashes repeat what was recorded: a
      shorter stored list is dropped unread, so its conflicts go unnoticed. */
  lemma ResumeMatchIff(H: Digest, m: Meta, p: InitParams, disk: seq<byte>)
    requires SessionInv(m) && AcceptedParams(p) && p.hashes.Some? && SameUpload(m, p)
    requires forall i :: 0 <= i < Count(m) && HashAt(m, i).Some? ==> Lower(HashAt(m, i).value) == HashAt(m, i).value
    requires MarkedMatch(H, m, disk) && Resume(m, p).Some?
    ensures MarkedMatch(H, Resume(m, p).value, disk) <==>
            (|m.hashes| == Count(m)
             || forall j :: 0 <= j < Count(m) && m.bitmap[j] == '1' ==> HashAt(m, j) == Some(p.hashes.value[j]))
  {
    ReinitKeepsInv(m, p);
    var r := Resume(m, p).value;
    CountBounds(m.size, m.pieceLen);
    forall j | 0 <= j < Count(m) && m.bitmap[j] == '1'
      ensures VerifyPiece(H, r, disk, j) <==>
              (|m.hashes| == Count(m) || HashAt(m, j) == Some(p.hashes.value[j]))
    {
      assert VerifyPiece(H, m, disk, j);
      assert Lo(r, j) == Lo(m, j) && Hi(r, j) == Hi(m, j);
      if |m.hashes| == Count(m) {
        assert HashAt(r, j) == HashAt(m, j);
      } else {
        assert Stored(m, NeedN(p))[j] == None && Offered(p)[j] == Some(p.hashes.value[j]);
        assert GainsHash(Stored(m, NeedN(p)), Offered(p));
        assert HashAt(r, j) == Some(p.hashes.value[j]);
      }
    }
  }

  function Letters(c: char): string { seq(64, _ => c) }

  const HALF := 262144

  function StaleMeta(): Meta {
    Meta(2, "f", 2 * HALF, HALF, [Some(Letters('a'))], ['1', '0'], [Range(0, HALF)], false)
  }

  function StaleOffer(): InitParams {
    InitParams("f", 2 * HALF, true, HALF, Some([Letters('b'), Letters('b')]), false)
  }

  /** A concrete re-init that goes wrong: piece 0 of 2 is stored and checked
      under one hash, and the client then offers a different one. */
  lemma ResumeForgetsRecordedHash(H: Digest, disk: seq<byte>)
    requires |disk| == 2 * HALF && H(disk[0..HALF]) == Letters('a')
    ensures SessionInv(StaleMeta()) && AcceptedParams(StaleOffer()) && SameUpload(StaleMeta(), StaleOffer())
    ensures MarkedMatch(H, StaleMeta(), disk)
    ensures var r := Resume(StaleMeta(), StaleOffer());
            r.Some? && |r.value.bitmap| == Count(r.value) && !MarkedMatch(H, r.value, disk)
  {
    var m, p := StaleMeta(), StaleOffer();
    StaleMetaInv();
    assert Lower(Letters('a')) == Letters('a') && Lower(Letters('b')) == Letters('b');
    assert VerifyPiece(H, m, disk, 0);
    var r := Resume(m, p).value;
    assert Stored(m, 2)[0] == None && Offered(p)[0] == Some(Letters('b'));
    assert GainsHash(Stored(m, 2), Offered(p));
    assert HashAt(r, 0) == Some(Letters('b'));
    assert Letters('a')[0] != Letters('b')[0];
    assert !VerifyPiece(H, r, disk, 0);
  }

  lemma StaleMetaInv()
    ensures SessionInv(StaleMeta())
  {
    var m := StaleMeta();
    forall x | 0 <= x < HALF ensures Covers(m.ranges, x) {
      assert m.ranges[0].lo <= x < m.ranges[0].hi;
    }
    assert Full(m, m.ranges, 0);
    assert !Covers(m.ranges, HALF);
    assert !Full(m, m.ranges, 1);
  }

  // -------------------------------------------------------------- upgrading

  function UpgradeBits(size: int, n: nat, received: int): seq<char> {
    seq(n, i requires 0 <= i < n => if PieceHi(size, PIECE_DEFAULT, i) <= received then '1' else '0')
  }

  function Clamped(received: int, size: int): int {
    if received < 0 then 0 else if received > size then size else received
  }

  /** upgradeGuestV1ToV2: `received` is the length of the sequential file. */
  function Upgrade(m: Meta, received: int): Option<Meta> {
    var n := PieceCount(m.size, PIECE_DEFAULT);
    if m.v == 2 then Some(m)
    else if m.size <= 0 || n <= 0 || n > MAX_PIECES then None
    else
      var got := Clamped(received, m.size);
      Some(Meta(2, m.name, m.size, PIECE_DEFAULT, seq(n, _ => None), UpgradeBits(m.size, n, got),
                if got > 0 then [Range(0, got)] else [], false))
  }

  /** When a sequential session can be upgraded, and to what. */
  lemma UpgradeIff(m: Meta, received: int)
    requires m.v != 2
    ensures Upgrade(m, received).Some? <==> 0 < m.size <= 200000 * 0x40_0000
    ensures Upgrade(m, received).Some? ==>
              var u := Upgrade(m, received).value;
              && u.v == 2 && u.name == m.name && u.size == m.size && u.pieceLen == 0x40_0000 && !u.noVerify
              && |u.hashes| == Count(u) && forall i :: 0 <= i < |u.hashes| ==> u.hashes[i] == None
  {
    if m.size > 0 { CountBounds(m.size, PIECE_DEFAULT); }
  }

  /** The upgraded session satisfies the invariant and the limits, keeps the
      byte count, and loses less than one piece of contiguous progress. */
  lemma UpgradeKeepsProgress(m: Meta, received: int)
    requires m.v != 2 && Upgrade(m, received).Some?
    ensures var u := Upgrade(m, received).value;
            && SessionInv(u) && WithinLimits(u)
            && ReceivedBytes(u.ranges) == Clamped(received, m.size)
            && ContiguousOffset(u) <= Clamped(received, m.size) < ContiguousOffset(u) + PIECE_DEFAULT
  {
    var u := Upgrade(m, received).value;
    var got := Clamped(received, m.size);
    UpgradeCover(m, received);
    forall i | 0 <= i < Count(u) ensures u.bitmap[i] == '1' <==> Full(u, u.ranges, i) {
      PiecesTile(u.size, u.pieceLen, i);
      if Full(u, u.ranges, i) {
        assert Covers(u.ranges, Hi(u, i) - 1);
      }
    }
    assert got > 0 ==> u.ranges[..0] == [];
    UpgradeOffset(u, got);
  }

  lemma UpgradeCover(m: Meta, received: int)
    requires m.v != 2 && Upgrade(m, received).Some?
    ensures forall x :: Covers(Upgrade(m, received).value.ranges, x) <==> 0 <= x < Clamped(received, m.size)
  {
    var u := Upgrade(m, received).value;
    forall x ensures Covers(u.ranges, x) <==> 0 <= x < Clamped(received, m.size) {
      if 0 <= x < Clamped(received, m.size) { assert u.ranges[0].lo <= x < u.ranges[0].hi; }
    }
  }

  /** An upgraded session holds whole pieces and the front of one more, and is
      small enough never to outgrow reload, if it was readable before. */
  lemma UpgradeHasFewIntervals(m: Meta, received: int)
    requires m.v != 2 && Upgrade(m, received).Some? && m.size <= MAX_SIZE
    ensures FewIntervals(Upgrade(m, received).value)
  {
    var u := Upgrade(m, received).value;
    var got := Clamped(received, m.size);
    UpgradeCover(m, received);
    CountBounds(u.size, u.pieceLen);
    var p := got / u.pieceLen;
    forall j, x | j != p && InPiece(u, j, x) && Covers(u.ranges, x) ensures Full(u, u.ranges, j) {
      PieceOfByteUnique(u.size, u.pieceLen, x, j);
      DivMono(x, got, u.pieceLen);
      if got < Hi(u, j) {
        PiecesTile(u.size, u.pieceLen, j);
        PieceOfByteUnique(u.size, u.pieceLen, got, j);
      }
    }
    assert WholePiecesBut(u, u.ranges, p);
  }

  lemma UpgradeOffset(u: Meta, got: int)
    requires SessionInv(u) && 0 <= got <= u.size && u.pieceLen == PIECE_DEFAULT
    requires forall i :: 0 <= i < Count(u) ==> (u.bitmap[i] == '1' <==> Hi(u, i) <= got)
    ensures ContiguousOffset(u) <= got < ContiguousOffset(u) + PIECE_DEFAULT
  {
    CountBounds(u.size, u.pieceLen);
    ContiguousMeaning(u, u.bitmap, 0);
    var k :| 0 <= k <= |u.bitmap| && ContiguousOffset(u) == OffsetAfter(u, k)
             && (forall j :: 0 <= j < k ==> u.bitmap[j] == '1') && (k < |u.bitmap| ==> u.bitmap[k] != '1');
    if k > 0 {
      PiecesTile(u.size, u.pieceLen, k - 1);
    }
    if k < Count(u) {
      PiecesTile(u.size, u.pieceLen, k);
    }
  }

  /** An upgraded session has recorded no hash at all, so its marked pieces
      are backed by one exactly when none is marked yet. */
  lemma UpgradeMatchIff(H: Digest, m: Meta, received: int, disk: seq<byte>)
    requires m.v != 2 && Upgrade(m, received).Some?
    ensures var u := Upgrade(m, received).value;
            |u.bitmap| == Count(u) &&
            (MarkedMatch(H, u, disk) <==> Clamped(received, m.size) < PieceHi(m.size, PIECE_DEFAULT, 0))
  {
    var u := Upgrade(m, received).value;
    var got := Clamped(received, m.size);
    if got < Hi(u, 0) {
      forall j | 0 <= j < Count(u) ensures u.bitmap[j] != '1' {
        PiecesTile(u.size, u.pieceLen, j);
        if j > 0 { PiecesOrdered(u.size, u.pieceLen, 0, j); }
      }
    } else {
      assert u.bitmap[0] == '1' && !VerifyPiece(H, u, disk, 0);
    }
  }
}
