/** Arrival order is invisible: requests for distinct pieces of one session
    end with the same metadata under every interleaving, exactly when no part
    of them leaves more intervals behind than reload accepts. */
module UploadOrder {
  import opened Wrappers
  import opened Ranges
  import opened Pieces
  import opened Session
  import opened Progress
  import opened Lifecycle
  import opened Requests
  import opened UploadMachine

  // ------------------------------------------------- one settlement, locally

  ghost predicate SameConstants(m: Meta, m': Meta) {
    m' == m.(hashes := m'.hashes, bitmap := m'.bitmap, ranges := m'.ranges)
  }

  /** Piece j looks exactly the same in both. */
  ghost predicate SamePiece(m: Meta, m': Meta, j: int)
    requires |m.bitmap| == |m'.bitmap|
  {
    HashAt(m, j) == HashAt(m', j) &&
    (0 <= j < |m.bitmap| ==>
      && m.bitmap[j] == m'.bitmap[j]
      && forall x :: Lo(m, j) <= x < Hi(m, j) ==> (Covers(m.ranges, x) <==> Covers(m'.ranges, x)))
  }

  ghost predicate NonePresent(m: Meta, j: int) {
    forall x :: Lo(m, j) <= x < Hi(m, j) ==> !Covers(m.ranges, x)
  }

  function PieceTarget(m: Meta, i: int, claim: string, hasClaim: bool): Target {
    Target(Some(i), Lo(m, i), Hi(m, i) - Lo(m, i), claim, hasClaim)
  }

  lemma MergeClaimShape(m: Meta, i: int, claim: string)
    requires 0 <= i < Count(m) && MergeClaim(m, i, claim).Ok?
    ensures var m1 := MergeClaim(m, i, claim).value;
            && m1 == m.(hashes := m1.hashes)
            && (forall j :: HashAt(m1, j) == if j == i then Some(claim) else HashAt(m, j))
            && |m1.hashes| == if |m.hashes| <= i then i + 1 else |m.hashes|
  {}

  ghost predicate Passes(H: Digest, m: Meta, m1: Meta, disk: seq<byte>, i: int)
    requires 0 <= i < |m.bitmap|
  {
    m.bitmap[i] == '1' || m.noVerify || VerifyPiece(H, m1, disk, i)
  }

  /** What settling one whole piece changes, and that it changes nothing
      about any other piece. */
  ghost predicate PieceSettled(H: Digest, m: Meta, m1: Meta, disk: seq<byte>, i: int, m': Meta, bad: seq<int>)
    requires |m.bitmap| == |m'.bitmap| && 0 <= i < |m.bitmap|
  {
    && SameConstants(m, m') && m'.hashes == m1.hashes
    && (forall j :: j != i ==> SamePiece(m, m', j))
    && (m'.bitmap[i] == '1' <==> Passes(H, m, m1, disk, i))
    && (!Passes(H, m, m1, disk, i) ==> NonePresent(m', i))
    && (forall j :: j in bad <==> j == i && !Passes(H, m, m1, disk, i))
  }

  lemma InvIgnoresHashes(m: Meta, hashes: seq<Option<string>>)
    requires SessionInv(m)
    ensures SessionInv(m.(hashes := hashes))
  {
    var m1 := m.(hashes := hashes);
    forall i | 0 <= i < Count(m) ensures Full(m1, m1.ranges, i) <==> Full(m, m.ranges, i) {}
  }

  lemma SettleOnePiece(H: Digest, m: Meta, disk: seq<byte>, i: int, claim: string, hasClaim: bool)
    requires SessionInv(m) && 0 <= i < Count(m)
    requires WithClaim(m, PieceTarget(m, i, claim, hasClaim)).Ok?
    ensures var t := PieceTarget(m, i, claim, hasClaim);
            var m1 := WithClaim(m, t).value;
            var r := Settle(H, Some(m), disk, t);
            && r.0.Some? && r.1.Settled? && SessionInv(r.0.value)
            && PieceSettled(H, m, m1, disk, i, r.0.value, r.1.bad)
  {
    var t := PieceTarget(m, i, claim, hasClaim);
    var m1 := WithClaim(m, t).value;
    if hasClaim { MergeClaimShape(m, i, claim); }
    InvIgnoresHashes(m, m1.hashes);
    PiecesTile(m.size, m.pieceLen, i);
    AccountKeepsInv(H, m1, disk, t.offset, t.length);
    var r := Account(H, m1, disk, t.offset, t.length);
    AccountedIsSettled(H, m, m1, disk, i, r.0, r.1);
  }

  lemma AccountedIsSettled(H: Digest, m: Meta, m1: Meta, disk: seq<byte>, i: int, m': Meta, bad: seq<int>)
    requires SessionInv(m) && SessionInv(m1) && SessionInv(m') && 0 <= i < Count(m)
    requires m1 == m.(hashes := m1.hashes) && m' == m1.(bitmap := m'.bitmap, ranges := m'.ranges)
    requires forall j :: j != i ==> HashAt(m1, j) == HashAt(m, j)
    requires Accounted(H, m1, disk, Lo(m, i), Hi(m, i) - Lo(m, i), m', bad)
    ensures PieceSettled(H, m, m1, disk, i, m', bad)
  {
    forall j | j != i ensures SamePiece(m, m', j) {
      if 0 <= j < Count(m) { OtherPieceSame(H, m1, disk, i, j, m', bad); }
    }
    ThisPieceSettled(H, m1, disk, i, m', bad);
    forall j | j in bad ensures j == i {
      if j != i { OtherPieceAfterAdd(m1, i, j); }
    }
  }

  lemma OtherPieceSame(H: Digest, m: Meta, disk: seq<byte>, i: int, j: int, m': Meta, bad: seq<int>)
    requires SessionInv(m) && 0 <= i < Count(m) && 0 <= j < Count(m) && i != j
    requires SessionInv(m') && Accounted(H, m, disk, Lo(m, i), Hi(m, i) - Lo(m, i), m', bad)
    ensures m.bitmap[j] == m'.bitmap[j]
    ensures forall x :: Lo(m, j) <= x < Hi(m, j) ==> (Covers(m.ranges, x) <==> Covers(m'.ranges, x))
  {
    OtherPieceAfterAdd(m, i, j);
    forall x | Lo(m, j) <= x < Hi(m, j) ensures Covers(m.ranges, x) <==> Covers(m'.ranges, x) {
      assert InPiece(m, j, x);
    }
  }

  lemma ThisPieceSettled(H: Digest, m: Meta, disk: seq<byte>, i: int, m': Meta, bad: seq<int>)
    requires SessionInv(m) && 0 <= i < Count(m)
    requires SessionInv(m') && Accounted(H, m, disk, Lo(m, i), Hi(m, i) - Lo(m, i), m', bad)
    ensures m'.bitmap[i] == '1' <==> Passes(H, m, m, disk, i)
    ensures !Passes(H, m, m, disk, i) ==> NonePresent(m', i)
    ensures i in bad <==> !Passes(H, m, m, disk, i)
  {
    ThisPieceAfterAdd(m, i);
    var a := AddSpan(m, Lo(m, i), Hi(m, i) - Lo(m, i)).ranges;
    if !Passes(H, m, m, disk, i) {
      forall x | Lo(m', i) <= x < Hi(m', i) ensures !Covers(m'.ranges, x) {
        assert InPiece(m, i, x);
      }
    }
  }

  // ------------------------------------------------- what a request will do

  /** The target a request settles on, judged from the metadata the run
      started with; None when it is refused before its body is read. */
  function Plan(m: Meta, a: Actor): Option<Target>
    requires a.Upload?
  {
    match ResolvePhase(Some(m), a)
    case Resolving(t) => if PreCheck(Some(m), t).None? then Some(t) else None
    case _ => None
  }

  predicate Accepted(m: Meta, a: Actor)
    requires a.Upload?
  {
    Plan(m, a).Some? && Deliverable(a) >= a.length
  }

  function FinalHash(m: Meta, a: Actor): Option<string>
    requires a.Upload? && Plan(m, a).Some?
  {
    var t := Plan(m, a).value;
    if t.hasClaim then Some(t.claim) else HashAt(m, a.index)
  }

  /** Whether an accepted request leaves its piece marked. */
  predicate Good(H: Digest, m: Meta, a: Actor)
    requires a.Upload? && Accepted(m, a) && 0 <= a.index < |m.bitmap| && 0 <= a.length
  {
    || m.bitmap[a.index] == '1'
    || m.noVerify
    || (&& FinalHash(m, a).Some?
        && |Lower(FinalHash(m, a).value)| == 64
        && H(a.body[..a.length]) == Lower(FinalHash(m, a).value))
  }

  lemma PlanShape(m: Meta, a: Actor)
    requires a.Upload? && SessionInv(m) && Plan(m, a).Some?
    ensures 0 <= a.index < Count(m) && a.length == Hi(m, a.index) - Lo(m, a.index) > 0
    ensures var t := Plan(m, a).value;
            && t == PieceTarget(m, a.index, t.claim, t.hasClaim) && t.offset >= 0
            && t.offset + t.length <= m.size
            && WithClaim(m, t).Ok?
            && ResolvePhase(Some(m), a) == Resolving(t)
  {
    PiecesTile(m.size, m.pieceLen, a.index);
  }

  /** A request sees the same session as long as its own piece is untouched. */
  lemma SameView(m: Meta, m': Meta, a: Actor)
    requires a.Upload? && SessionInv(m) && SessionInv(m') && SameConstants(m, m') && SamePiece(m, m', a.index)
    ensures ResolvePhase(Some(m), a) == ResolvePhase(Some(m'), a)
    ensures forall t: Target :: t.index == Some(a.index) ==> PreCheck(Some(m), t) == PreCheck(Some(m'), t)
    ensures Plan(m, a) == Plan(m', a)
    ensures Plan(m, a).Some? ==> FinalHash(m, a) == FinalHash(m', a)
  {}

  // ------------------------------------------------------- state invariant

  ghost predicate OnDisk(disk: seq<byte>, at: int, body: seq<byte>, n: nat)
    requires n <= |body|
  {
    0 <= at && at + n <= |disk| && forall x :: 0 <= x < n ==> disk[at + x] == body[x]
  }

  ghost predicate Effect(H: Digest, m0: Meta, a: Actor, m: Meta)
    requires a.Upload? && SessionInv(m0) && Accepted(m0, a) && |m.bitmap| == |m0.bitmap|
  {
    PlanShape(m0, a);
    && HashAt(m, a.index) == FinalHash(m0, a)
    && (m.bitmap[a.index] == '1' <==> Good(H, m0, a))
    && (!Good(H, m0, a) ==> NonePresent(m, a.index))
  }

  ghost predicate ReqInv(H: Digest, m0: Meta, a: Actor, ph: Phase, m: Meta, disk: seq<byte>)
    requires SessionInv(m0) && |m.bitmap| == |m0.bitmap|
  {
    a.Upload? &&
    match ph
    case Arrived => SamePiece(m0, m, a.index)
    case Resolving(t) => SamePiece(m0, m, a.index) && ResolvePhase(Some(m0), a) == ph
    case Checked(t) => SamePiece(m0, m, a.index) && Plan(m0, a) == Some(t)
    case Streaming(t, sent) =>
      && SamePiece(m0, m, a.index) && Plan(m0, a) == Some(t)
      && sent <= Deliverable(a) && OnDisk(disk, t.offset, a.body, sent)
    case Streamed(t) =>
      && SamePiece(m0, m, a.index) && Plan(m0, a) == Some(t)
      && Deliverable(a) == a.length && OnDisk(disk, t.offset, a.body, a.length)
    case Finished(Refused(_)) => SamePiece(m0, m, a.index) && !Accepted(m0, a)
    case Finished(Settled(_)) => Accepted(m0, a) && Effect(H, m0, a, m)
    case _ => false
  }

  ghost predicate Claims(m0: Meta, a: Actor, ph: Phase) {
    a.Upload? && IsSettled(ph) && Plan(m0, a).Some? && Plan(m0, a).value.hasClaim
  }

  /** The hash list is as long as the last settled claim needs. */
  ghost predicate HashesLength(m0: Meta, actors: seq<Actor>, phases: seq<Phase>, m: Meta)
    requires |actors| == |phases|
  {
    && |m.hashes| >= |m0.hashes|
    && (forall k :: 0 <= k < |actors| && Claims(m0, actors[k], phases[k]) ==> actors[k].index < |m.hashes|)
    && (|m.hashes| == |m0.hashes|
        || exists k :: 0 <= k < |actors| && Claims(m0, actors[k], phases[k]) && actors[k].index + 1 == |m.hashes|)
  }

  ghost predicate Targeted(actors: seq<Actor>, j: int) {
    exists k :: 0 <= k < |actors| && actors[k].Upload? && actors[k].index == j
  }

  ghost predicate AllUploads(actors: seq<Actor>) {
    forall k :: 0 <= k < |actors| ==> actors[k].Upload?
  }

  ghost predicate DistinctPieces(actors: seq<Actor>) {
    && AllUploads(actors)
    && (forall k, l :: 0 <= k < l < |actors| ==> actors[k].index != actors[l].index)
  }

  ghost predicate RunInv(H: Digest, m0: Meta, actors: seq<Actor>, s: State)
    requires SessionInv(m0)
  {
    && s.saved.Some? && SessionInv(s.saved.value) && SameConstants(m0, s.saved.value)
    && |s.disk| == m0.size && |s.phases| == |actors|
    && (forall k :: 0 <= k < |actors| ==> ReqInv(H, m0, actors[k], s.phases[k], s.saved.value, s.disk))
    && (forall j :: !Targeted(actors, j) ==> SamePiece(m0, s.saved.value, j))
    && HashesLength(m0, actors, s.phases, s.saved.value)
  }

  ghost predicate IsSettled(ph: Phase) { ph.Finished? && ph.out.Settled? }

  /** Whoever still needs the metadata can read it. */
  ghost predicate Readable(m0: Meta, actors: seq<Actor>, s: State)
    requires s.saved.Some? && |s.phases| == |actors| && AllUploads(actors)
  {
    ValidMeta(s.saved.value) || forall k :: 0 <= k < |actors| && Accepted(m0, actors[k]) ==> IsSettled(s.phases[k])
  }

  lemma StartInv(H: Digest, m0: Meta, actors: seq<Actor>, disk: seq<byte>)
    requires SessionInv(m0) && DistinctPieces(actors) && |disk| == m0.size
    ensures RunInv(H, m0, actors, Start(m0, disk, |actors|))
  {}

  /** Steps that leave the saved metadata alone and write only inside the
      requester's own piece. */
  lemma QuietStep(H: Digest, m0: Meta, actors: seq<Actor>, s: State, s': State, k: nat)
    requires SessionInv(m0) && DistinctPieces(actors) && RunInv(H, m0, actors, s)
    requires k < |actors| && s'.saved == s.saved && |s'.disk| == |s.disk| && |s'.phases| == |s.phases|
    requires s'.phases == s.phases[k := s'.phases[k]]
    requires !IsSettled(s.phases[k]) && !IsSettled(s'.phases[k])
    requires ReqInv(H, m0, actors[k], s'.phases[k], s.saved.value, s'.disk)
    requires forall x :: 0 <= x < |s.disk| && s'.disk[x] != s.disk[x] ==> InPiece(m0, actors[k].index, x)
    ensures RunInv(H, m0, actors, s')
  {
    var m := s.saved.value;
    forall l | 0 <= l < |actors| ensures ReqInv(H, m0, actors[l], s'.phases[l], m, s'.disk) {
      if l != k { OthersUndisturbed(H, m0, actors[l], s.phases[l], m, s.disk, s'.disk, actors[k].index); }
    }
    assert forall l :: 0 <= l < |actors| ==> Claims(m0, actors[l], s'.phases[l]) == Claims(m0, actors[l], s.phases[l]);
  }

  lemma OthersUndisturbed(H: Digest, m0: Meta, a: Actor, ph: Phase, m: Meta, disk: seq<byte>, disk': seq<byte>, i: int)
    requires SessionInv(m0) && |m.bitmap| == |m0.bitmap| && |disk| == |disk'| == m0.size
    requires ReqInv(H, m0, a, ph, m, disk) && a.index != i
    requires forall x :: 0 <= x < |disk| && disk'[x] != disk[x] ==> InPiece(m0, i, x)
    ensures ReqInv(H, m0, a, ph, m, disk')
  {
    if ph.Streaming? || ph.Streamed? {
      PlanShape(m0, a);
      var t := ph.t;
      var n := if ph.Streaming? then ph.sent else a.length;
      forall x | 0 <= x < n ensures disk'[t.offset + x] == a.body[x] {
        assert InPiece(m0, a.index, t.offset + x);
        if InPiece(m0, i, t.offset + x) {
          OtherPieceUncut(m0, i, a.index, t.offset + x);
        }
      }
    }
  }

  lemma OverlayEffect(disk: seq<byte>, at: nat, c: seq<byte>)
    requires at + |c| <= |disk|
    ensures |Overlay(disk, at, c)| == |disk|
    ensures forall x :: 0 <= x < |disk| ==> Overlay(disk, at, c)[x] == if at <= x < at + |c| then c[x - at] else disk[x]
  {}

  /** Copying the next chunk keeps the copied prefix on disk. */
  lemma StreamLocal(H: Digest, m0: Meta, a: Actor, t: Target, sent: nat, n: nat, m: Meta, disk: seq<byte>)
    requires SessionInv(m0) && |m.bitmap| == |m0.bitmap| && |disk| == m0.size
    requires ReqInv(H, m0, a, Streaming(t, sent), m, disk) && sent < Deliverable(a)
    ensures t.offset >= 0
    ensures var c := Chunk(a, sent, n);
            var disk' := Overlay(disk, t.offset + sent, c);
            && |disk'| == |disk|
            && ReqInv(H, m0, a, Streaming(t, sent + |c|), m, disk')
            && forall x :: 0 <= x < |disk| && disk'[x] != disk[x] ==> InPiece(m0, a.index, x)
  {
    PlanShape(m0, a);
    var c := Chunk(a, sent, n);
    OverlayEffect(disk, t.offset + sent, c);
    var disk' := Overlay(disk, t.offset + sent, c);
    forall x | 0 <= x < sent + |c| ensures disk'[t.offset + x] == a.body[x] {
      if x < sent { assert disk[t.offset + x] == a.body[x]; }
    }
  }

  lemma StreamQuiet(H: Digest, m0: Meta, actors: seq<Actor>, s: State, k: nat, ph: Phase, disk: seq<byte>, s': State)
    requires SessionInv(m0) && DistinctPieces(actors) && RunInv(H, m0, actors, s)
    requires k < |actors| && s.phases[k].Streaming? && !IsSettled(ph)
    requires s' == s.(phases := s.phases[k := ph], disk := disk) && |disk| == |s.disk|
    requires ReqInv(H, m0, actors[k], ph, s.saved.value, disk)
    requires forall x :: 0 <= x < |s.disk| && disk[x] != s.disk[x] ==> InPiece(m0, actors[k].index, x)
    ensures RunInv(H, m0, actors, s')
  {
    QuietStep(H, m0, actors, s, s', k);
  }

  lemma StreamStep(H: Digest, m0: Meta, actors: seq<Actor>, s: State, k: nat, n: nat)
    requires SessionInv(m0) && DistinctPieces(actors) && RunInv(H, m0, actors, s)
    requires k < |actors| && s.phases[k].Streaming?
    ensures RunInv(H, m0, actors, Step(H, actors, s, k, n))
  {
    var a, t, sent := actors[k], s.phases[k].t, s.phases[k].sent;
    assert ReqInv(H, m0, a, s.phases[k], s.saved.value, s.disk);
    if sent < Deliverable(a) {
      StreamMore(H, m0, actors, s, k, n, a, t, sent);
    } else {
      StreamEnds(H, m0, a, t, sent, s.saved.value, s.disk);
      var ph := if sent < t.length then Finished(Refused(ShortBody)) else Streamed(t);
      StreamQuiet(H, m0, actors, s, k, ph, s.disk, Step(H, actors, s, k, n));
    }
  }

  lemma StreamMore(H: Digest, m0: Meta, actors: seq<Actor>, s: State, k: nat, n: nat, a: Actor, t: Target, sent: nat)
    requires SessionInv(m0) && DistinctPieces(actors) && RunInv(H, m0, actors, s)
    requires k < |actors| && a == actors[k] && s.phases[k] == Streaming(t, sent) && sent < Deliverable(a)
    requires ReqInv(H, m0, a, Streaming(t, sent), s.saved.value, s.disk)
    ensures RunInv(H, m0, actors, Step(H, actors, s, k, n))
  {
    StreamLocal(H, m0, a, t, sent, n, s.saved.value, s.disk);
    var c := Chunk(a, sent, n);
    var disk := Overlay(s.disk, t.offset + sent, c);
    StreamingStep(H, actors, s, k, n, c, disk);
    StreamQuiet(H, m0, actors, s, k, Streaming(t, sent + |c|), disk, Step(H, actors, s, k, n));
  }

  lemma StreamingStep(H: Digest, actors: seq<Actor>, s: State, k: nat, n: nat, c: seq<byte>, disk: seq<byte>)
    requires |actors| == |s.phases| && k < |actors| && actors[k].Upload? && s.phases[k].Streaming?
    requires s.phases[k].sent < Deliverable(actors[k]) && s.phases[k].t.offset >= 0
    requires c == Chunk(actors[k], s.phases[k].sent, n)
    requires disk == Overlay(s.disk, s.phases[k].t.offset + s.phases[k].sent, c)
    ensures Step(H, actors, s, k, n)
         == s.(disk := disk, phases := s.phases[k := Streaming(s.phases[k].t, s.phases[k].sent + |c|)])
  {}

  lemma StreamEnds(H: Digest, m0: Meta, a: Actor, t: Target, sent: nat, m: Meta, disk: seq<byte>)
    requires SessionInv(m0) && |m.bitmap| == |m0.bitmap| && |disk| == m0.size
    requires ReqInv(H, m0, a, Streaming(t, sent), m, disk) && sent >= Deliverable(a)
    ensures ReqInv(H, m0, a, if sent < t.length then Finished(Refused(ShortBody)) else Streamed(t), m, disk)
  {
    PlanShape(m0, a);
  }

  function ReadPhase(saved: Option<Meta>, a: Actor, ph: Phase): Phase
    requires a.Upload? && (ph.Arrived? || ph.Resolving? || ph.Checked?)
  {
    match ph
    case Arrived => ResolvePhase(Load(saved), a)
    case Resolving(t) =>
      if PreCheck(Load(saved), t).Some? then Finished(Refused(PreCheck(Load(saved), t).value)) else Checked(t)
    case Checked(t) =>
      if saved.None? || t.offset < 0 then Finished(Refused(WriteFailed)) else Streaming(t, 0)
  }

  lemma ReadLocal(H: Digest, m0: Meta, a: Actor, ph: Phase, m: Meta, disk: seq<byte>)
    requires SessionInv(m0) && SessionInv(m) && SameConstants(m0, m) && |disk| == m0.size
    requires ph.Arrived? || ph.Resolving? || ph.Checked?
    requires ReqInv(H, m0, a, ph, m, disk) && (ValidMeta(m) || !Accepted(m0, a))
    ensures ReqInv(H, m0, a, ReadPhase(Some(m), a, ph), m, disk)
  {
    SameView(m0, m, a);
    if ph.Checked? { PlanShape(m0, a); }
  }

  lemma ReadStep(H: Digest, m0: Meta, actors: seq<Actor>, s: State, k: nat, n: nat)
    requires SessionInv(m0) && DistinctPieces(actors) && RunInv(H, m0, actors, s) && Readable(m0, actors, s)
    requires k < |actors| && (s.phases[k].Arrived? || s.phases[k].Resolving? || s.phases[k].Checked?)
    ensures RunInv(H, m0, actors, Step(H, actors, s, k, n))
  {
    var a := actors[k];
    var s' := Step(H, actors, s, k, n);
    assert ReqInv(H, m0, a, s.phases[k], s.saved.value, s.disk);
    ReadLocal(H, m0, a, s.phases[k], s.saved.value, s.disk);
    assert s' == s.(phases := s.phases[k := ReadPhase(s.saved, a, s.phases[k])]);
    QuietStep(H, m0, actors, s, s', k);
  }

  /** On settling, the check against the disk comes out as planned. */
  lemma PassesAsPlanned(H: Digest, m0: Meta, a: Actor, m: Meta, m1: Meta, disk: seq<byte>)
    requires SessionInv(m0) && SessionInv(m) && SameConstants(m0, m) && a.Upload? && Accepted(m0, a)
    requires SamePiece(m0, m, a.index) && |disk| == m0.size
    requires Plan(m0, a).Some? && WithClaim(m, Plan(m0, a).value) == Ok(m1)
    requires 0 <= a.length <= |a.body| && OnDisk(disk, Plan(m0, a).value.offset, a.body, a.length)
    ensures 0 <= a.index < Count(m0)
    ensures HashAt(m1, a.index) == FinalHash(m0, a)
    ensures Passes(H, m, m1, disk, a.index) <==> Good(H, m0, a)
  {
    PlanShape(m0, a);
    var t := Plan(m0, a).value;
    if t.hasClaim { MergeClaimShape(m, a.index, t.claim); }
    assert disk[Lo(m1, a.index)..Hi(m1, a.index)] == a.body[..a.length];
  }

  /** Settling a streamed request, seen from its own piece. */
  lemma SettleLocal(H: Digest, m0: Meta, a: Actor, t: Target, m: Meta, disk: seq<byte>)
    requires SessionInv(m0) && SessionInv(m) && SameConstants(m0, m) && |disk| == m0.size
    requires ReqInv(H, m0, a, Streamed(t), m, disk)
    ensures 0 <= a.index < Count(m)
    ensures var r := Settle(H, Some(m), disk, t);
            && r.0.Some? && r.1.Settled? && SessionInv(r.0.value) && SameConstants(m, r.0.value)
            && (forall j :: j != a.index ==> SamePiece(m, r.0.value, j))
            && ReqInv(H, m0, a, Finished(r.1), r.0.value, disk)
            && |r.0.value.hashes| == if t.hasClaim && |m.hashes| <= a.index then a.index + 1 else |m.hashes|
  {
    PlanShape(m0, a);
    SameView(m0, m, a);
    PlanShape(m, a);
    var m1 := WithClaim(m, t).value;
    PassesAsPlanned(H, m0, a, m, m1, disk);
    SettleOnePiece(H, m, disk, a.index, t.claim, t.hasClaim);
    if t.hasClaim { MergeClaimShape(m, a.index, t.claim); }
    var m' := Settle(H, Some(m), disk, t).0.value;
    assert HashAt(m', a.index) == HashAt(m1, a.index);
  }

  lemma SettleStep(H: Digest, m0: Meta, actors: seq<Actor>, s: State, k: nat, n: nat)
    requires SessionInv(m0) && DistinctPieces(actors) && RunInv(H, m0, actors, s) && Readable(m0, actors, s)
    requires k < |actors| && s.phases[k].Streamed?
    ensures RunInv(H, m0, actors, Step(H, actors, s, k, n))
  {
    var a, t, m := actors[k], s.phases[k].t, s.saved.value;
    assert ReqInv(H, m0, a, s.phases[k], m, s.disk);
    SettleLocal(H, m0, a, t, m, s.disk);
    StreamedStep(H, actors, s, k, n);
    var r := Settle(H, s.saved, s.disk, t);
    SettledOthers(H, m0, actors, s, k, r.0.value, r.1, Step(H, actors, s, k, n));
  }

  lemma StreamedStep(H: Digest, actors: seq<Actor>, s: State, k: nat, n: nat)
    requires |actors| == |s.phases| && k < |actors| && actors[k].Upload? && s.phases[k].Streamed?
    requires s.saved.Some? && ValidMeta(s.saved.value)
    ensures var r := Settle(H, s.saved, s.disk, s.phases[k].t);
            Step(H, actors, s, k, n) == s.(saved := r.0, phases := s.phases[k := Finished(r.1)])
  {}

  /** A settled piece leaves the other requests as they were. */
  lemma SettledOthers(H: Digest, m0: Meta, actors: seq<Actor>, s: State, k: nat, m': Meta, out: Outcome, s': State)
    requires SessionInv(m0) && DistinctPieces(actors) && RunInv(H, m0, actors, s)
    requires k < |actors| && s.phases[k].Streamed? && Plan(m0, actors[k]) == Some(s.phases[k].t) && actors[k].index >= 0
    requires SessionInv(m') && SameConstants(s.saved.value, m')
    requires forall j :: j != actors[k].index ==> SamePiece(s.saved.value, m', j)
    requires out.Settled? && ReqInv(H, m0, actors[k], Finished(out), m', s.disk)
    requires |m'.hashes| == if s.phases[k].t.hasClaim && |s.saved.value.hashes| <= actors[k].index
                            then actors[k].index + 1 else |s.saved.value.hashes|
    requires s' == s.(saved := Some(m'), phases := s.phases[k := Finished(out)])
    ensures RunInv(H, m0, actors, s')
  {
    var a, m := actors[k], s.saved.value;
    forall l | 0 <= l < |actors| ensures ReqInv(H, m0, actors[l], s'.phases[l], m', s'.disk) {
      if l != k {
        assert SamePiece(m, m', actors[l].index);
        OthersSeeSettled(H, m0, actors[l], s.phases[l], m, m', s.disk);
      }
    }
    forall j | !Targeted(actors, j) ensures SamePiece(m0, m', j) {
      assert j != a.index;
      assert SamePiece(m0, m, j) && SamePiece(m, m', j);
    }
    LengthAfterSettle(m0, actors, s.phases, s'.phases, k, m, m');
  }

  lemma OthersSeeSettled(H: Digest, m0: Meta, a: Actor, ph: Phase, m: Meta, m': Meta, disk: seq<byte>)
    requires SessionInv(m0) && SameConstants(m0, m) && SameConstants(m, m') && |m.bitmap| == |m'.bitmap| == |m0.bitmap|
    requires ReqInv(H, m0, a, ph, m, disk) && SamePiece(m, m', a.index)
    ensures ReqInv(H, m0, a, ph, m', disk)
  {
    if ph.Finished? && ph.out.Settled? {
      PlanShape(m0, a);
    }
  }

  lemma LengthAfterSettle(m0: Meta, actors: seq<Actor>, phases: seq<Phase>, phases': seq<Phase>, k: nat, m: Meta, m': Meta)
    requires k < |actors| == |phases| == |phases'| && actors[k].Upload?
    requires HashesLength(m0, actors, phases, m) && actors[k].index >= 0
    requires forall l :: 0 <= l < |phases| && l != k ==> phases'[l] == phases[l]
    requires !Claims(m0, actors[k], phases[k])
    requires Claims(m0, actors[k], phases'[k]) ==>
               |m'.hashes| == if |m.hashes| <= actors[k].index then actors[k].index + 1 else |m.hashes|
    requires !Claims(m0, actors[k], phases'[k]) ==> |m'.hashes| == |m.hashes|
    ensures HashesLength(m0, actors, phases', m')
  {
    assert forall l :: 0 <= l < |actors| && l != k ==> Claims(m0, actors[l], phases'[l]) == Claims(m0, actors[l], phases[l]);
    if |m'.hashes| == |m.hashes| && |m.hashes| != |m0.hashes| {
      var l :| 0 <= l < |actors| && Claims(m0, actors[l], phases[l]) && actors[l].index + 1 == |m.hashes|;
      assert Claims(m0, actors[l], phases'[l]);
    }
  }

  lemma StepKeepsInv(H: Digest, m0: Meta, actors: seq<Actor>, s: State, k: nat, n: nat)
    requires SessionInv(m0) && DistinctPieces(actors) && RunInv(H, m0, actors, s) && Readable(m0, actors, s)
    ensures RunInv(H, m0, actors, Step(H, actors, s, k, n))
  {
    if k < |actors| {
      match s.phases[k]
      case Streaming(_, _) => StreamStep(H, m0, actors, s, k, n);
      case Streamed(_) => SettleStep(H, m0, actors, s, k, n);
      case Finished(_) =>
      case Arrived => ReadStep(H, m0, actors, s, k, n);
      case Resolving(_) => ReadStep(H, m0, actors, s, k, n);
      case Checked(_) => ReadStep(H, m0, actors, s, k, n);
      case _ =>
    }
  }

  // ---------------------------------------- how many intervals a run can leave

  /** The requests the starting session accepts, and those settled so far. */
  ghost function AcceptedSet(m0: Meta, actors: seq<Actor>): set<nat>
    requires AllUploads(actors)
  {
    set k: nat | k < |actors| && Accepted(m0, actors[k])
  }

  ghost function SettledSet(phases: seq<Phase>): set<nat> {
    set k: nat | k < |phases| && IsSettled(phases[k])
  }

  /** m is the starting session with exactly these requests settled. */
  ghost predicate PartSettled(H: Digest, m0: Meta, actors: seq<Actor>, part: set<nat>, m: Meta)
    requires SessionInv(m0) && AllUploads(actors)
  {
    && SessionInv(m) && SameConstants(m0, m)
    && (forall k :: 0 <= k < |actors| ==>
          if k in part then Accepted(m0, actors[k]) && Effect(H, m0, actors[k], m) else SamePiece(m0, m, actors[k].index))
    && (forall j :: !Targeted(actors, j) ==> SamePiece(m0, m, j))
  }

  ghost predicate PartFits(H: Digest, m0: Meta, actors: seq<Actor>, part: set<nat>)
    requires SessionInv(m0) && AllUploads(actors)
  {
    forall m :: PartSettled(H, m0, actors, part, m) ==> |m.ranges| <= MAX_RANGES
  }

  /** While some accepted request is still to be settled, the metadata stays
      short enough to be read again, whichever the others are. */
  ghost predicate EveryPartFits(H: Digest, m0: Meta, actors: seq<Actor>)
    requires SessionInv(m0) && AllUploads(actors)
  {
    forall part :: part < AcceptedSet(m0, actors) ==> PartFits(H, m0, actors, part)
  }

  lemma RunIsPart(H: Digest, m0: Meta, actors: seq<Actor>, s: State)
    requires SessionInv(m0) && DistinctPieces(actors) && RunInv(H, m0, actors, s)
    ensures SettledSet(s.phases) <= AcceptedSet(m0, actors)
    ensures PartSettled(H, m0, actors, SettledSet(s.phases), s.saved.value)
  {
    forall k | 0 <= k < |actors|
      ensures if k in SettledSet(s.phases) then Accepted(m0, actors[k]) && Effect(H, m0, actors[k], s.saved.value)
              else SamePiece(m0, s.saved.value, actors[k].index)
    {
      assert ReqInv(H, m0, actors[k], s.phases[k], s.saved.value, s.disk);
    }
  }

  /** Only the number of intervals decides whether the session can be read. */
  lemma RunValidIff(H: Digest, m0: Meta, actors: seq<Actor>, s: State)
    requires SessionInv(m0) && ValidMeta(m0) && DistinctPieces(actors) && RunInv(H, m0, actors, s)
    ensures ValidMeta(s.saved.value) <==> |s.saved.value.ranges| <= MAX_RANGES
  {
    var m := s.saved.value;
    if |m.hashes| != |m0.hashes| {
      var k :| 0 <= k < |actors| && Claims(m0, actors[k], s.phases[k]) && actors[k].index + 1 == |m.hashes|;
      PlanShape(m0, actors[k]);
    }
  }

  lemma FittingIsReadable(H: Digest, m0: Meta, actors: seq<Actor>, s: State)
    requires SessionInv(m0) && ValidMeta(m0) && DistinctPieces(actors) && RunInv(H, m0, actors, s)
    requires EveryPartFits(H, m0, actors)
    ensures Readable(m0, actors, s)
  {
    RunIsPart(H, m0, actors, s);
    var settled := SettledSet(s.phases);
    if settled < AcceptedSet(m0, actors) {
      assert PartFits(H, m0, actors, settled);
      RunValidIff(H, m0, actors, s);
    } else {
      forall k | 0 <= k < |actors| && Accepted(m0, actors[k]) ensures IsSettled(s.phases[k]) {
        assert k in AcceptedSet(m0, actors);
      }
    }
  }

  /** In every state of every interleaving each request's bytes, refusal or
      effect are intact. */
  lemma {:induction false} RunKeepsInv(H: Digest, m0: Meta, actors: seq<Actor>, s: State, sched: Schedule)
    requires SessionInv(m0) && ValidMeta(m0) && DistinctPieces(actors) && EveryPartFits(H, m0, actors)
    requires RunInv(H, m0, actors, s)
    ensures RunInv(H, m0, actors, Run(H, actors, s, sched))
  {
    if sched != [] {
      var n := |sched| - 1;
      RunKeepsInv(H, m0, actors, s, sched[..n]);
      FittingIsReadable(H, m0, actors, Run(H, actors, s, sched[..n]));
      StepKeepsInv(H, m0, actors, Run(H, actors, s, sched[..n]), sched[n].0, sched[n].1);
    }
  }

  // ------------------------------------------------------------ the theorem

  lemma SettledAlike(H: Digest, m0: Meta, a: Actor, p: Phase, q: Phase, m: Meta, m': Meta, d: seq<byte>, d': seq<byte>)
    requires SessionInv(m0) && SessionInv(m) && SessionInv(m') && SameConstants(m0, m) && SameConstants(m0, m')
    requires p.Finished? && q.Finished?
    requires ReqInv(H, m0, a, p, m, d) && ReqInv(H, m0, a, q, m', d')
    ensures SamePiece(m, m', a.index)
    ensures Claims(m0, a, p) == Claims(m0, a, q)
  {
    if Accepted(m0, a) {
      PlanShape(m0, a);
      var i := a.index;
      if Good(H, m0, a) {
        assert Full(m, m.ranges, i) && Full(m', m'.ranges, i);
      }
      assert m.bitmap[i] == m'.bitmap[i];
    }
  }

  lemma SameHashes(m0: Meta, actors: seq<Actor>, p: seq<Phase>, q: seq<Phase>, m: Meta, m': Meta)
    requires |actors| == |p| == |q|
    requires HashesLength(m0, actors, p, m) && HashesLength(m0, actors, q, m')
    requires forall k :: 0 <= k < |actors| ==> Claims(m0, actors[k], p[k]) == Claims(m0, actors[k], q[k])
    requires forall j :: HashAt(m, j) == HashAt(m', j)
    ensures m.hashes == m'.hashes
  {
    LongerHashes(m0, actors, p, q, m, m');
    LongerHashes(m0, actors, q, p, m', m);
    forall j | 0 <= j < |m.hashes| ensures m.hashes[j] == m'.hashes[j] {
      assert HashAt(m, j) == HashAt(m', j);
    }
  }

  lemma LongerHashes(m0: Meta, actors: seq<Actor>, p: seq<Phase>, q: seq<Phase>, m: Meta, m': Meta)
    requires |actors| == |p| == |q|
    requires HashesLength(m0, actors, p, m) && HashesLength(m0, actors, q, m')
    requires forall k :: 0 <= k < |actors| ==> Claims(m0, actors[k], p[k]) == Claims(m0, actors[k], q[k])
    ensures |m.hashes| <= |m'.hashes|
  {
    if |m.hashes| != |m0.hashes| {
      var k :| 0 <= k < |actors| && Claims(m0, actors[k], p[k]) && actors[k].index + 1 == |m.hashes|;
      assert Claims(m0, actors[k], q[k]);
    }
  }

  lemma SamePieceEverywhere(H: Digest, m0: Meta, actors: seq<Actor>, s: State, s': State, j: int)
    requires SessionInv(m0) && RunInv(H, m0, actors, s) && RunInv(H, m0, actors, s')
    requires AllFinished(s) && AllFinished(s')
    ensures SamePiece(s.saved.value, s'.saved.value, j)
  {
    if Targeted(actors, j) {
      var k :| 0 <= k < |actors| && actors[k].Upload? && actors[k].index == j;
      SettledAlike(H, m0, actors[k], s.phases[k], s'.phases[k], s.saved.value, s'.saved.value, s.disk, s'.disk);
    }
  }

  /** Any two interleavings of the same requests, run to completion from the
      same session, save literally the same metadata: bitmap, hash list and
      interval list.  No update is lost and arrival order cannot be seen. */
  lemma {:induction false} ArrivalOrderInvisible(H: Digest, m0: Meta, disk: seq<byte>, actors: seq<Actor>, one: Schedule, two: Schedule)
    requires SessionInv(m0) && ValidMeta(m0) && |disk| == m0.size && DistinctPieces(actors)
    requires EveryPartFits(H, m0, actors)
    requires AllFinished(Run(H, actors, Start(m0, disk, |actors|), one))
    requires AllFinished(Run(H, actors, Start(m0, disk, |actors|), two))
    ensures Run(H, actors, Start(m0, disk, |actors|), one).saved == Run(H, actors, Start(m0, disk, |actors|), two).saved
  {
    var s0 := Start(m0, disk, |actors|);
    StartInv(H, m0, actors, disk);
    RunKeepsInv(H, m0, actors, s0, one);
    RunKeepsInv(H, m0, actors, s0, two);
    FinalMetaUnique(H, m0, actors, Run(H, actors, s0, one), Run(H, actors, s0, two));
  }

  lemma FinalMetaUnique(H: Digest, m0: Meta, actors: seq<Actor>, s: State, s': State)
    requires SessionInv(m0) && RunInv(H, m0, actors, s) && RunInv(H, m0, actors, s')
    requires AllFinished(s) && AllFinished(s')
    ensures s.saved == s'.saved
  {
    var m, m' := s.saved.value, s'.saved.value;
    forall j ensures SamePiece(m, m', j) {
      SamePieceEverywhere(H, m0, actors, s, s', j);
    }
    forall k | 0 <= k < |actors| ensures Claims(m0, actors[k], s.phases[k]) == Claims(m0, actors[k], s'.phases[k]) {
      SettledAlike(H, m0, actors[k], s.phases[k], s'.phases[k], m, m', s.disk, s'.disk);
    }
    SamePiecesSameMeta(m, m');
    SameHashes(m0, actors, s.phases, s'.phases, m, m');
  }

  lemma SamePiecesSameMeta(m: Meta, m': Meta)
    requires SessionInv(m) && SessionInv(m') && SameConstants(m, m')
    requires forall j :: SamePiece(m, m', j)
    ensures m.bitmap == m'.bitmap && m.ranges == m'.ranges
    ensures forall j :: HashAt(m, j) == HashAt(m', j)
  {
    forall x ensures Covers(m.ranges, x) <==> Covers(m'.ranges, x) {
      if 0 <= x < m.size {
        PieceOfByte(m.size, m.pieceLen, x);
        assert SamePiece(m, m', x / m.pieceLen);
      }
    }
    NormalFormUnique(m.ranges, m'.ranges);
    forall j | 0 <= j < Count(m) ensures m.bitmap[j] == m'.bitmap[j] {
      assert SamePiece(m, m', j);
    }
    forall j ensures HashAt(m, j) == HashAt(m', j) {
      assert SamePiece(m, m', j);
    }
  }

  /** Where a completed run ends: a request is settled exactly when the
      starting session accepts it and its whole body arrived; its claim is
      then recorded, and its piece is marked and fully covered if the body
      matches, or holds no byte at all.  Pieces nobody wrote are unchanged. */
  lemma {:induction false} NoUpdateLost(H: Digest, m0: Meta, disk: seq<byte>, actors: seq<Actor>, sched: Schedule, k: nat)
    requires SessionInv(m0) && ValidMeta(m0) && |disk| == m0.size && DistinctPieces(actors) && k < |actors|
    requires EveryPartFits(H, m0, actors)
    requires AllFinished(Run(H, actors, Start(m0, disk, |actors|), sched))
    ensures var s := Run(H, actors, Start(m0, disk, |actors|), sched);
            && s.saved.Some? && SessionInv(s.saved.value) && SameConstants(m0, s.saved.value)
            && (s.phases[k].out.Settled? <==> Accepted(m0, actors[k]))
            && (Accepted(m0, actors[k]) ==> Effect(H, m0, actors[k], s.saved.value))
            && (!Accepted(m0, actors[k]) ==> SamePiece(m0, s.saved.value, actors[k].index))
    ensures forall j :: !Targeted(actors, j) ==>
              SamePiece(m0, Run(H, actors, Start(m0, disk, |actors|), sched).saved.value, j)
  {
    StartInv(H, m0, actors, disk);
    RunKeepsInv(H, m0, actors, Start(m0, disk, |actors|), sched);
    var s := Run(H, actors, Start(m0, disk, |actors|), sched);
    assert ReqInv(H, m0, actors[k], s.phases[k], s.saved.value, s.disk);
  }

  // ------------------------------------------------- every run can complete

  lemma {:induction false} RunAppend(H: Digest, actors: seq<Actor>, s: State, a: Schedule, b: Schedule)
    requires |actors| == |s.phases|
    ensures Run(H, actors, s, a + b) == Run(H, actors, Run(H, actors, s, a), b)
    decreases |b|
  {
    if b == [] {
      assert a + b == a;
    } else {
      var n := |b| - 1;
      assert (a + b)[..|a| + n] == a + b[..n];
      RunAppend(H, actors, s, a, b[..n]);
    }
  }

  function Work(a: Actor, ph: Phase): nat
    requires a.Upload?
  {
    match ph
    case Arrived => Deliverable(a) + 5
    case Resolving(_) => Deliverable(a) + 4
    case Checked(_) => Deliverable(a) + 3
    case Streaming(_, sent) => if sent <= Deliverable(a) then Deliverable(a) - sent + 2 else 2
    case Streamed(_) => 1
    case _ => 0
  }

  lemma StepWorks(H: Digest, m0: Meta, actors: seq<Actor>, s: State, k: nat)
    requires SessionInv(m0) && DistinctPieces(actors) && RunInv(H, m0, actors, s)
    requires k < |actors| && !s.phases[k].Finished?
    ensures var s' := Step(H, actors, s, k, 1);
            && Work(actors[k], s'.phases[k]) < Work(actors[k], s.phases[k])
            && s'.phases == s.phases[k := s'.phases[k]]
            && (s'.phases[k].Finished? || s'.saved == s.saved)
  {
    var a, ph := actors[k], s.phases[k];
    assert ReqInv(H, m0, a, ph, s.saved.value, s.disk);
    if ph.Streaming? || ph.Checked? { PlanShape(m0, a); }
    PhaseWorks(H, actors, s, k);
  }

  lemma PhaseWorks(H: Digest, actors: seq<Actor>, s: State, k: nat)
    requires |actors| == |s.phases| && k < |actors| && actors[k].Upload?
    requires !s.phases[k].Finished? && !s.phases[k].Gated? && !s.phases[k].Hashed?
    requires s.phases[k].Streaming? ==> s.phases[k].t.offset >= 0
    ensures var s' := Step(H, actors, s, k, 1);
            && Work(actors[k], s'.phases[k]) < Work(actors[k], s.phases[k])
            && s'.phases == s.phases[k := s'.phases[k]]
            && (s'.phases[k].Finished? || s'.saved == s.saved)
  {
    var a, ph := actors[k], s.phases[k];
    if ph.Streaming? && ph.sent < Deliverable(a) {
      assert |Chunk(a, ph.sent, 1)| == 1;
    }
  }

  /** A request that runs on its own while the metadata is readable finishes. */
  lemma {:induction false} OneFinishes(H: Digest, m0: Meta, actors: seq<Actor>, s: State, k: nat) returns (sched: Schedule)
    requires SessionInv(m0) && DistinctPieces(actors) && RunInv(H, m0, actors, s) && Readable(m0, actors, s) && k < |actors|
    ensures var s' := Run(H, actors, s, sched);
            RunInv(H, m0, actors, s') && s'.phases[k].Finished? && s'.phases == s.phases[k := s'.phases[k]]
    decreases Work(actors[k], s.phases[k])
  {
    if s.phases[k].Finished? {
      sched := [];
    } else {
      StepWorks(H, m0, actors, s, k);
      StepKeepsInv(H, m0, actors, s, k, 1);
      var mid := Step(H, actors, s, k, 1);
      var rest: Schedule := [];
      if !mid.phases[k].Finished? { rest := OneFinishes(H, m0, actors, mid, k); }
      RunFirst(H, actors, s, k, 1, rest);
      sched := [(k, 1)] + rest;
    }
  }

  lemma RunFirst(H: Digest, actors: seq<Actor>, s: State, k: nat, n: nat, rest: Schedule)
    requires |actors| == |s.phases|
    ensures Run(H, actors, s, [(k, n)] + rest) == Run(H, actors, Step(H, actors, s, k, n), rest)
  {
    var first: Schedule := [(k, n)];
    assert first[..0] == [];
    assert Run(H, actors, s, first) == Step(H, actors, s, k, n);
    RunAppend(H, actors, s, first, rest);
  }

  /** No request can get stuck: every set of requests has a schedule under
      which all of them finish. */
  lemma {:induction false} AllCanFinish(H: Digest, m0: Meta, actors: seq<Actor>, s: State, n: nat) returns (sched: Schedule)
    requires SessionInv(m0) && ValidMeta(m0) && DistinctPieces(actors) && EveryPartFits(H, m0, actors)
    requires RunInv(H, m0, actors, s) && n <= |actors|
    ensures forall k :: 0 <= k < n ==> Run(H, actors, s, sched).phases[k].Finished?
    ensures RunInv(H, m0, actors, Run(H, actors, s, sched))
  {
    if n == 0 {
      sched := [];
    } else {
      var head := AllCanFinish(H, m0, actors, s, n - 1);
      var mid := Run(H, actors, s, head);
      FittingIsReadable(H, m0, actors, mid);
      var tail := OneFinishes(H, m0, actors, mid, n - 1);
      RunAppend(H, actors, s, head, tail);
      sched := head + tail;
    }
  }
}
