/** Which requests a session takes, told by the request and the metadata alone,
    and that a client which sends the right pieces always gets through. */
module UploadAccept {
  import opened Wrappers
  import opened Ranges
  import opened Pieces
  import opened Session
  import opened Progress
  import opened Lifecycle
  import opened Requests
  import opened UploadMachine
  import opened UploadOrder
  import opened UploadRoom
  import opened UploadSafety
  import opened UploadContent

  // ------------------------------------------------------------------- strings

  /** A digest in hex, of either case. */
  predicate Hex64(s: string) {
    |s| == 64 && forall i | 0 <= i < 64 :: s[i] in "0123456789abcdefABCDEF"
  }

  /** b is a with its capital letters made small. */
  predicate SmallLetters(a: string, b: string) {
    |a| == |b| &&
    forall i | 0 <= i < |a| :: b[i] as int == if 'A' <= a[i] <= 'Z' then a[i] as int + 32 else a[i] as int
  }

  lemma LowerIsSmall(a: string, b: string)
    ensures Lower(a) == b <==> SmallLetters(a, b)
  {}

  lemma HexIsHex(s: string)
    ensures HexDigest(s) <==> Hex64(s)
  {
    forall i | 0 <= i < |s| ensures
      ('0' <= s[i] <= '9' || 'a' <= s[i] <= 'f' || 'A' <= s[i] <= 'F') <==> s[i] in "0123456789abcdefABCDEF"
    {
      OneHex(s[i]);
    }
  }

  lemma OneHex(c: char)
    ensures ('0' <= c <= '9' || 'a' <= c <= 'f' || 'A' <= c <= 'F') <==> c in "0123456789abcdefABCDEF"
  {
    var all := "0123456789abcdefABCDEF";
    if '0' <= c <= '9' { assert all[c as int - 48] == c; }
    if 'a' <= c <= 'f' { assert all[c as int - 87] == c; }
    if 'A' <= c <= 'F' { assert all[c as int - 49] == c; }
  }

  // ---------------------------------------------------------------- acceptance

  /** The request names a piece of the file and announces its length. */
  predicate WellSized(m: Meta, a: Actor)
    requires a.Upload?
  {
    && 0 <= a.index && a.index * m.pieceLen < m.size
    && a.length == if (a.index + 1) * m.pieceLen <= m.size then m.pieceLen else m.size - a.index * m.pieceLen
  }

  predicate Recorded(m: Meta, i: int) { 0 <= i < |m.hashes| && m.hashes[i].Some? }

  /** A request needs no hash when none is checked or one is recorded; one that
      it claims must be a digest and agree with what is recorded. */
  predicate WellClaimed(m: Meta, a: Actor)
    requires a.Upload?
  {
    if a.claim == "" then m.noVerify || Recorded(m, a.index)
    else Hex64(a.claim) && (Recorded(m, a.index) ==> SmallLetters(a.claim, m.hashes[a.index].value))
  }

  lemma WellSizedIff(m: Meta, a: Actor)
    requires m.size > 0 && m.pieceLen > 0 && a.Upload?
    ensures WellSized(m, a) <==> 0 <= a.index < Count(m) && a.length == Hi(m, a.index) - Lo(m, a.index)
  {
    CountBounds(m.size, m.pieceLen);
    assert (a.index + 1) * m.pieceLen == a.index * m.pieceLen + m.pieceLen;
    if 0 <= a.index < Count(m) {
      PiecesTile(m.size, m.pieceLen, a.index);
    } else if a.index >= Count(m) {
      MulLeq(Count(m), a.index, m.pieceLen);
    }
  }

  /** A request is heard, up to the copying of its body, exactly when it is
      well sized, at most 64 MiB long and well claimed; what it claims, in
      small letters, is then recorded. */
  lemma HeardIff(m: Meta, a: Actor)
    requires SessionInv(m) && a.Upload?
    ensures Plan(m, a).Some? <==> WellSized(m, a) && a.length <= 0x400_0000 && WellClaimed(m, a)
    ensures Plan(m, a).Some? ==>
              if a.claim == "" then FinalHash(m, a) == HashAt(m, a.index)
              else FinalHash(m, a).Some? && SmallLetters(a.claim, FinalHash(m, a).value)
  {
    WellSizedIff(m, a);
    HexIsHex(a.claim);
    LowerOfHex(a.claim);
    LowerIsSmall(a.claim, Lower(a.claim));
    if Recorded(m, a.index) { LowerIsSmall(a.claim, m.hashes[a.index].value); }
    if 0 <= a.index < Count(m) { PiecesTile(m.size, m.pieceLen, a.index); }
  }

  /** Making letters small keeps hex digests. */
  lemma LowerOfHex(s: string)
    ensures HexDigest(Lower(s)) <==> HexDigest(s)
  {
    forall i | 0 <= i < |s| ensures Lower(s)[i] == LowerChar(s[i]) {}
  }

  /** Acceptance without looking into the server. */
  lemma AcceptedIff(m: Meta, a: Actor)
    requires SessionInv(m) && a.Upload?
    ensures Accepted(m, a) <==> WellSized(m, a) && a.length <= 0x400_0000 && WellClaimed(m, a) && |a.body| >= a.length
  {
    HeardIff(m, a);
    WellSizedIff(m, a);
    if 0 <= a.index < Count(m) { PiecesTile(m.size, m.pieceLen, a.index); }
  }

  /** Why a request is turned away before its body is copied. */
  function Refusing(m: Meta, a: Actor): Option<Refusal>
    requires m.v == 2 && a.Upload?
  {
    match ResolvePhase(Some(m), a)
    case Finished(Refused(why)) => Some(why)
    case Resolving(t) => PreCheck(Some(m), t)
    case _ => None
  }

  predicate InFile(m: Meta, i: int) { 0 <= i && i * m.pieceLen < m.size }

  /** The reason given is the first that applies. */
  lemma RefusingIff(m: Meta, a: Actor)
    requires SessionInv(m) && a.Upload?
    ensures var why, sized, known := Refusing(m, a), WellSized(m, a), Recorded(m, a.index);
            var unchecked := m.noVerify && a.claim == "";
            && (why == Some(BadIndex) <==> !InFile(m, a.index))
            && (why == Some(BadPieceLen) <==> InFile(m, a.index) && !sized)
            && (why == Some(HashRequired) <==> sized && !known && !unchecked && |a.claim| != 64)
            && (why == Some(TooBig) <==> sized && a.length > 0x400_0000 && (known || unchecked || Hex64(a.claim)))
            && (why == Some(BadHash) <==>
                  && sized && a.claim != "" && !Hex64(a.claim)
                  && if known then a.length <= 0x400_0000 else |a.claim| == 64)
            && (why == Some(Conflict) <==>
                  && sized && a.length <= 0x400_0000 && Hex64(a.claim) && known
                  && !SmallLetters(a.claim, m.hashes[a.index].value))
            && (why == None <==> sized && a.length <= 0x400_0000 && WellClaimed(m, a))
            && why in {None, Some(BadIndex), Some(BadPieceLen), Some(HashRequired), Some(TooBig), Some(BadHash), Some(Conflict)}
  {
    WellSizedIff(m, a);
    HexIsHex(a.claim);
    HexIsHex(Lower(a.claim));
    LowerOfHex(a.claim);
    if Recorded(m, a.index) { LowerIsSmall(a.claim, m.hashes[a.index].value); }
    CountBounds(m.size, m.pieceLen);
    if 0 <= a.index < Count(m) {
      PiecesTile(m.size, m.pieceLen, a.index);
    } else if a.index >= Count(m) {
      MulLeq(Count(m), a.index, m.pieceLen);
    }
  }

  /** A plain span, without a piece and without a hash, is accepted exactly when
      it is not empty, at most 64 MiB long and inside the file. */
  lemma SpanAcceptedIff(m: Meta, offset: int, length: int)
    requires m.v == 2
    ensures var t := Target(None, offset, length, "", false);
            Malformed(t).None? && PreCheck(Some(m), t).None? <==>
              0 <= offset && 0 < length <= 0x400_0000 && offset + length <= m.size
  {}

  // ------------------------------------------------------------------ progress

  /** Digests come out as 64 hex digits in small letters. */
  ghost predicate Digests(H: Digest) {
    forall s: seq<byte> :: |H(s)| == 64 && forall i :: 0 <= i < 64 ==> H(s)[i] in "0123456789abcdef"
  }

  /** The whole piece is sent; its digest is what is claimed, if anything has
      to be, and what is recorded, if anything is. */
  predicate Honest(H: Digest, m: Meta, a: Actor)
    requires a.Upload?
  {
    && WellSized(m, a) && |a.body| >= a.length >= 0
    && (if a.claim == "" then m.noVerify || Recorded(m, a.index) else SmallLetters(a.claim, H(a.body[..a.length])))
    && (Recorded(m, a.index) ==> m.hashes[a.index].value == H(a.body[..a.length]))
  }

  lemma DigestIsSmall(H: Digest, s: seq<byte>)
    requires Digests(H)
    ensures Lower(H(s)) == H(s) && HexDigest(H(s))
  {
    var d := H(s);
    forall i | 0 <= i < 64 ensures LowerChar(d[i]) == d[i] && ('0' <= d[i] <= '9' || 'a' <= d[i] <= 'f') {
      assert d[i] in "0123456789abcdef";
    }
  }

  lemma HonestIsGood(H: Digest, m: Meta, a: Actor)
    requires Digests(H) && SessionInv(m) && m.pieceLen <= PIECE_MAX && a.Upload? && Honest(H, m, a)
    ensures Accepted(m, a) && 0 <= a.index < Count(m) && Good(H, m, a)
  {
    var d := H(a.body[..a.length]);
    DigestIsSmall(H, a.body[..a.length]);
    WellSizedIff(m, a);
    PiecesTile(m.size, m.pieceLen, a.index);
    if a.claim != "" {
      LowerIsSmall(a.claim, d);
      LowerOfHex(a.claim);
      HexIsHex(a.claim);
    }
    AcceptedIff(m, a);
    HeardIff(m, a);
    if a.claim != "" {
      LowerIsSmall(a.claim, FinalHash(m, a).value);
    }
  }

  /** Requests for every piece of a session. */
  ghost predicate AllPieces(m: Meta, actors: seq<Actor>) {
    && DistinctPieces(actors)
    && forall i :: 0 <= i < Count(m) ==> Targeted(actors, i)
  }

  lemma FreshHasRoom(p: InitParams, n: nat)
    requires AcceptedParams(p) && p.wantV2 && p.size <= MAX_SIZE && NeedN(p) <= 2 * MAX_RANGES
    ensures SessionInv(NewSession(p)) && ValidMeta(NewSession(p)) && HasRoom(NewSession(p), n)
  {
    NewSessionInv(p);
    WholePiecesAreFew(NewSession(p));
  }

  /** A client that opens a session of at most 64 GiB and 20000 pieces, and
      sends each piece once with the digest of its own bytes, is through when
      all requests have finished, in whatever order and however interleaved:
      all of them are settled and no piece is missing. */
  lemma HonestUploadFinishes(H: Digest, p: InitParams, disk: seq<byte>, actors: seq<Actor>, sched: Schedule)
    requires Digests(H) && AcceptedParams(p) && p.wantV2 && p.size <= MAX_SIZE && NeedN(p) <= 2 * MAX_RANGES
    requires |disk| == p.size && AllPieces(NewSession(p), actors)
    requires forall k :: 0 <= k < |actors| ==> Honest(H, NewSession(p), actors[k])
    requires AllFinished(Run(H, actors, Start(NewSession(p), disk, |actors|), sched))
    ensures var s := Run(H, actors, Start(NewSession(p), disk, |actors|), sched);
            && s.saved.Some? && SessionInv(s.saved.value) && Load(s.saved) == s.saved && Missing(s.saved.value) == []
            && forall k :: 0 <= k < |actors| ==> s.phases[k].out.Settled?
  {
    var m := NewSession(p);
    FreshHasRoom(p, |actors|);
    RoomStaysReadable(H, m, disk, actors, sched);
    StartInv(H, m, actors, disk);
    RunKeepsInv(H, m, actors, Start(m, disk, |actors|), sched);
    EveryPieceMarked(H, m, actors, Run(H, actors, Start(m, disk, |actors|), sched));
  }

  lemma EveryPieceMarked(H: Digest, m: Meta, actors: seq<Actor>, s: State)
    requires Digests(H) && SessionInv(m) && m.pieceLen <= PIECE_MAX && AllPieces(m, actors)
    requires forall k :: 0 <= k < |actors| ==> Honest(H, m, actors[k])
    requires RunInv(H, m, actors, s) && AllFinished(s)
    ensures Missing(s.saved.value) == [] && forall k :: 0 <= k < |actors| ==> s.phases[k].out.Settled?
  {
    forall k | 0 <= k < |actors| ensures s.phases[k].out.Settled? && Marked(s.saved.value, actors[k].index) {
      HonestIsGood(H, m, actors[k]);
      assert ReqInv(H, m, actors[k], s.phases[k], s.saved.value, s.disk);
    }
    forall i | 0 <= i < Count(m) ensures s.saved.value.bitmap[i] == '1' {
      assert Targeted(actors, i);
      var k :| 0 <= k < |actors| && actors[k].Upload? && actors[k].index == i;
      assert Marked(s.saved.value, actors[k].index);
    }
    NothingMissingIff(s.saved.value);
  }

  /** And if the pieces are those of one file, the file is on disk. */
  lemma HonestUploadIsFile(H: Digest, p: InitParams, f: seq<byte>, disk: seq<byte>, actors: seq<Actor>, sched: Schedule)
    requires Digests(H) && AcceptedParams(p) && p.wantV2 && p.size <= MAX_SIZE && NeedN(p) <= 2 * MAX_RANGES
    requires |f| == |disk| == p.size && AllPieces(NewSession(p), actors)
    requires forall k :: 0 <= k < |actors| ==> Honest(H, NewSession(p), actors[k]) && SendsFrom(f, NewSession(p), actors[k])
    requires AllFinished(Run(H, actors, Start(NewSession(p), disk, |actors|), sched))
    ensures Run(H, actors, Start(NewSession(p), disk, |actors|), sched).disk == f
  {
    var m := NewSession(p);
    NewSessionInv(p);
    HonestUploadFinishes(H, p, disk, actors, sched);
    assert OneFile(f, m, disk, actors);
    RunCopies(H, f, m, disk, actors, sched);
    var s := Run(H, actors, Start(m, disk, |actors|), sched);
    AllMarkedAgrees(f, s.saved.value, s.disk);
  }
}
