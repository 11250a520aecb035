/** Marked pieces stay true to their hashes throughout any run, and a file
    that reaches the shared folder is made of such pieces only. */
module UploadSafety {
  import opened Wrappers
  import opened Ranges
  import opened Pieces
  import opened Session
  import opened Progress
  import opened Lifecycle
  import opened Requests
  import opened UploadMachine
  import opened UploadOrder
  import opened UploadAlone

  ghost predicate Marked(m: Meta, i: int) {
    0 <= i < |m.bitmap| && m.bitmap[i] == '1'
  }

  /** Byte x belongs to a piece marked in the live session, or to the file
      already placed in the shared folder. */
  ghost predicate MarkedByte(s: State, x: int) {
    || (s.saved.Some? && exists i :: InPiece(s.saved.value, i, x) && Marked(s.saved.value, i))
    || (s.placed.Some? && exists i :: InPiece(s.placed.value, i, x))
  }

  /** A step is faithful when it changes no byte of a marked piece: whatever
      it writes over one is what is already there. */
  ghost predicate Faithful(s: State, s': State) {
    forall x :: 0 <= x < |s.disk| && x < |s'.disk| && s'.disk[x] != s.disk[x] ==> !MarkedByte(s, x)
  }

  /** A placed file has its full size and every piece matches its hash. */
  ghost predicate PlacedMatches(H: Digest, m: Meta, disk: seq<byte>) {
    && SessionInv(m) && |disk| == m.size
    && forall i :: 0 <= i < Count(m) ==> VerifyPiece(H, m, disk, i)
  }

  /** Requests past their resolution aim at one whole piece. */
  ghost predicate AimsAtPiece(size: int, len: int, a: Actor, ph: Phase) {
    (ph.Resolving? || ph.Checked? || ph.Streaming? || ph.Streamed?) ==>
      && a.Upload? && ph.t.length == a.length
      && ph.t.index == Some(a.index)
      && 0 <= a.index < PieceCount(size, len)
      && ph.t.offset == PieceLo(len, a.index)
      && ph.t.length == PieceHi(size, len, a.index) - ph.t.offset
  }

  ghost predicate Safe(H: Digest, size: int, len: int, actors: seq<Actor>, s: State) {
    && size > 0 && len > 0 && |s.disk| == size && |actors| == |s.phases|
    && (forall k :: 0 <= k < |s.phases| ==> AimsAtPiece(size, len, actors[k], s.phases[k]))
    && (s.saved.Some? ==>
          && SessionInv(s.saved.value) && !s.saved.value.noVerify
          && s.saved.value.size == size && s.saved.value.pieceLen == len
          && MarkedMatch(H, s.saved.value, s.disk))
    && (s.placed.Some? ==> s.placed.value.size == size && s.placed.value.pieceLen == len && PlacedMatches(H, s.placed.value, s.disk))
  }

  lemma VerifyReadsOnlyItsPiece(H: Digest, m: Meta, disk: seq<byte>, disk': seq<byte>, i: int)
    requires |disk| == |disk'|
    requires forall x :: 0 <= x < |disk| && Lo(m, i) <= x < Hi(m, i) ==> disk[x] == disk'[x]
    ensures VerifyPiece(H, m, disk, i) == VerifyPiece(H, m, disk', i)
  {
    if 0 <= Lo(m, i) <= Hi(m, i) <= |disk| {
      assert disk[Lo(m, i)..Hi(m, i)] == disk'[Lo(m, i)..Hi(m, i)];
    }
  }

  lemma FaithfulKeepsMatch(H: Digest, s: State, s': State)
    requires |s'.disk| == |s.disk| && Faithful(s, s')
    requires s'.saved == s.saved && s'.placed == s.placed
    ensures s.saved.Some? && |s.saved.value.bitmap| == Count(s.saved.value) && MarkedMatch(H, s.saved.value, s.disk) ==>
              MarkedMatch(H, s.saved.value, s'.disk)
    ensures s.placed.Some? && PlacedMatches(H, s.placed.value, s.disk) ==> PlacedMatches(H, s.placed.value, s'.disk)
  {
    if s.saved.Some? && |s.saved.value.bitmap| == Count(s.saved.value) && MarkedMatch(H, s.saved.value, s.disk) {
      var m := s.saved.value;
      forall i | 0 <= i < Count(m) && m.bitmap[i] == '1' ensures VerifyPiece(H, m, s'.disk, i) {
        forall x | 0 <= x < |s.disk| && Lo(m, i) <= x < Hi(m, i) ensures s.disk[x] == s'.disk[x] {
          assert InPiece(m, i, x) && Marked(m, i);
        }
        VerifyReadsOnlyItsPiece(H, m, s.disk, s'.disk, i);
      }
    }
    if s.placed.Some? && PlacedMatches(H, s.placed.value, s.disk) {
      var m := s.placed.value;
      forall i | 0 <= i < Count(m) ensures VerifyPiece(H, m, s'.disk, i) {
        forall x | 0 <= x < |s.disk| && Lo(m, i) <= x < Hi(m, i) ensures s.disk[x] == s'.disk[x] {
          assert InPiece(m, i, x);
        }
        VerifyReadsOnlyItsPiece(H, m, s.disk, s'.disk, i);
      }
    }
  }

  /** Settling keeps the match: old marks keep their hash, and a new mark is
      only given after its own check. */
  lemma SettleKeepsMatch(H: Digest, m: Meta, disk: seq<byte>, t: Target)
    requires SessionInv(m) && !m.noVerify && |disk| == m.size && MarkedMatch(H, m, disk)
    requires t.index.Some? && t == PieceTarget(m, t.index.value, t.claim, t.hasClaim) && 0 <= t.index.value < Count(m)
    ensures var r := Settle(H, Some(m), disk, t);
            && r.0.Some? && SessionInv(r.0.value) && SameConstants(m, r.0.value) && MarkedMatch(H, r.0.value, disk)
  {
    if WithClaim(m, t).Ok? {
      var i := t.index.value;
      var m1 := WithClaim(m, t).value;
      SettleOnePiece(H, m, disk, i, t.claim, t.hasClaim);
      if t.hasClaim { MergeClaimShape(m, i, t.claim); }
      var m' := Settle(H, Some(m), disk, t).0.value;
      forall j | 0 <= j < Count(m') && m'.bitmap[j] == '1' ensures VerifyPiece(H, m', disk, j) {
        if j != i {
          assert SamePiece(m, m', j);
          assert VerifyPiece(H, m, disk, j);
        } else {
          assert m.bitmap[i] == '1' ==> VerifyPiece(H, m, disk, i);
          assert HashAt(m', i) == HashAt(m1, i);
        }
      }
    }
  }

  lemma ReadStepSafe(H: Digest, size: int, len: int, actors: seq<Actor>, s: State, k: nat, n: nat)
    requires Safe(H, size, len, actors, s) && k < |actors|
    requires actors[k].Upload? && (s.phases[k].Arrived? || s.phases[k].Resolving? || s.phases[k].Checked?)
    ensures Safe(H, size, len, actors, Step(H, actors, s, k, n))
  {
    var s' := Step(H, actors, s, k, n);
    assert AimsAtPiece(size, len, actors[k], s.phases[k]);
    if s.phases[k].Checked? && s.saved.Some? {
      PiecesTile(size, len, s.phases[k].t.index.value);
    }
    assert AimsAtPiece(size, len, actors[k], s'.phases[k]);
    assert s'.phases == s.phases[k := s'.phases[k]];
  }

  lemma StreamStepSafe(H: Digest, size: int, len: int, actors: seq<Actor>, s: State, k: nat, n: nat)
    requires Safe(H, size, len, actors, s) && k < |actors|
    requires actors[k].Upload? && s.phases[k].Streaming?
    requires Faithful(s, Step(H, actors, s, k, n))
    ensures Safe(H, size, len, actors, Step(H, actors, s, k, n))
  {
    var a, t, sent := actors[k], s.phases[k].t, s.phases[k].sent;
    var s' := Step(H, actors, s, k, n);
    assert AimsAtPiece(size, len, actors[k], s.phases[k]);
    PiecesTile(size, len, t.index.value);
    if sent < Deliverable(a) {
      OverlayEffect(s.disk, t.offset + sent, Chunk(a, sent, n));
    }
    assert AimsAtPiece(size, len, actors[k], s'.phases[k]);
    assert s'.phases == s.phases[k := s'.phases[k]];
    FaithfulKeepsMatch(H, s, s');
  }

  lemma SettleStepSafe(H: Digest, size: int, len: int, actors: seq<Actor>, s: State, k: nat, n: nat)
    requires Safe(H, size, len, actors, s) && k < |actors|
    requires actors[k].Upload? && s.phases[k].Streamed?
    ensures Safe(H, size, len, actors, Step(H, actors, s, k, n))
  {
    var s' := Step(H, actors, s, k, n);
    assert AimsAtPiece(size, len, actors[k], s.phases[k]);
    if s.saved.Some? {
      SettleKeepsMatch(H, s.saved.value, s.disk, s.phases[k].t);
    }
    assert s'.phases == s.phases[k := s'.phases[k]];
  }

  lemma CompleteStepSafe(H: Digest, size: int, len: int, actors: seq<Actor>, s: State, k: nat, n: nat)
    requires Safe(H, size, len, actors, s) && k < |actors|
    requires actors[k].Complete?
    ensures Safe(H, size, len, actors, Step(H, actors, s, k, n))
  {
    var s' := Step(H, actors, s, k, n);
    assert AimsAtPiece(size, len, actors[k], s.phases[k]);
    if s.phases[k].Hashed? && s.saved.Some? && Missing(s.saved.value) == [] {
      NothingMissingIff(s.saved.value);
      assert PlacedMatches(H, s.saved.value, s.disk);
    }
    assert s'.phases == s.phases[k := s'.phases[k]];
  }

  lemma StepSafe(H: Digest, size: int, len: int, actors: seq<Actor>, s: State, k: nat, n: nat)
    requires Safe(H, size, len, actors, s)
    requires Faithful(s, Step(H, actors, s, k, n))
    ensures Safe(H, size, len, actors, Step(H, actors, s, k, n))
  {
    if k < |actors| {
      assert AimsAtPiece(size, len, actors[k], s.phases[k]);
      if actors[k].Complete? {
        CompleteStepSafe(H, size, len, actors, s, k, n);
      } else if s.phases[k].Streaming? {
        StreamStepSafe(H, size, len, actors, s, k, n);
      } else if s.phases[k].Streamed? {
        SettleStepSafe(H, size, len, actors, s, k, n);
      } else if s.phases[k].Arrived? || s.phases[k].Resolving? || s.phases[k].Checked? {
        ReadStepSafe(H, size, len, actors, s, k, n);
      }
    }
  }

  ghost predicate FaithfulRun(H: Digest, actors: seq<Actor>, s: State, sched: Schedule)
    requires |actors| == |s.phases|
  {
    forall n :: 0 <= n < |sched| ==>
      Faithful(Run(H, actors, s, sched[..n]), Step(H, actors, Run(H, actors, s, sched[..n]), sched[n].0, sched[n].1))
  }

  /** Any number of uploads and completions, on any pieces, in any order:
      as long as no write changes a byte of a marked piece, every marked
      piece hashes to its recorded hash in every state of the run. */
  lemma {:induction false} RunStaysSafe(H: Digest, m0: Meta, disk: seq<byte>, actors: seq<Actor>, sched: Schedule)
    requires SessionInv(m0) && !m0.noVerify && |disk| == m0.size && MarkedMatch(H, m0, disk)
    requires FaithfulRun(H, actors, Start(m0, disk, |actors|), sched)
    ensures Safe(H, m0.size, m0.pieceLen, actors, Run(H, actors, Start(m0, disk, |actors|), sched))
  {
    if sched != [] {
      var s0, n := Start(m0, disk, |actors|), |sched| - 1;
      forall i | 0 <= i < n
        ensures Faithful(Run(H, actors, s0, sched[..n][..i]),
                         Step(H, actors, Run(H, actors, s0, sched[..n][..i]), sched[..n][i].0, sched[..n][i].1))
      {
        assert sched[..n][..i] == sched[..i];
      }
      RunStaysSafe(H, m0, disk, actors, sched[..n]);
      StepSafe(H, m0.size, m0.pieceLen, actors, Run(H, actors, s0, sched[..n]), sched[n].0, sched[n].1);
    }
  }

  /** A file in the shared folder has exactly the announced size and all of
      its pieces match, and stays so while late writers finish. */
  lemma PlacedFileIntact(H: Digest, m0: Meta, disk: seq<byte>, actors: seq<Actor>, sched: Schedule)
    requires SessionInv(m0) && !m0.noVerify && |disk| == m0.size && MarkedMatch(H, m0, disk)
    requires FaithfulRun(H, actors, Start(m0, disk, |actors|), sched)
    ensures var s := Run(H, actors, Start(m0, disk, |actors|), sched);
            s.placed.Some? ==>
              && |s.disk| == m0.size
              && s.placed.value.size == m0.size && s.placed.value.pieceLen == m0.pieceLen
              && forall i :: 0 <= i < Count(m0) ==> VerifyPiece(H, s.placed.value, s.disk, i)
  {
    RunStaysSafe(H, m0, disk, actors, sched);
  }

  // --------------------------------------- when a single request keeps faith

  /** The request writes over a marked piece, and with what arrives of its body
      the piece no longer has its recorded hash. */
  ghost predicate SpoilsMark(H: Digest, m: Meta, disk: seq<byte>, a: Actor)
    requires a.Upload? && SessionInv(m) && |disk| == m.size
  {
    var i, n := a.index, Deliverable(a);
    Heard(m, a).Some? && Marked(m, i) && HashAt(m, i).Some? &&
    (PlanShape(m, a);
     PiecesTile(m.size, m.pieceLen, i);
     H(a.body[..n] + disk[Lo(m, i) + n..Hi(m, i)]) != Lower(HashAt(m, i).value))
  }

  /** A request that runs alone, whole or cut short, keeps every marked piece
      matched exactly when it does not spoil the mark of its own piece: marked
      pieces are skipped by the check, and a body that was cut short is not
      accounted at all. */
  lemma ResendMatchIff(H: Digest, m: Meta, disk: seq<byte>, a: Actor, sched: Schedule)
    requires SessionInv(m) && !m.noVerify && |disk| == m.size && MarkedMatch(H, m, disk) && a.Upload?
    requires Run(H, [a], Start(m, disk, 1), sched).phases[0].Finished?
    ensures var s := Run(H, [a], Start(m, disk, 1), sched);
            && s.saved.Some? && SessionInv(s.saved.value) && |s.disk| == m.size
            && (MarkedMatch(H, s.saved.value, s.disk) <==> !SpoilsMark(H, m, disk, a))
            && (Heard(m, a).Some? && Deliverable(a) < a.length ==> s.phases[0] == Finished(Refused(ShortBody)) && s.saved == Some(m))
            && (Heard(m, a).Some? && Deliverable(a) >= a.length ==> s.phases[0].out.Settled?)
  {
    AloneRun(H, m, disk, a, sched);
    AloneMatchIff(H, m, disk, a);
  }

  lemma AloneMatchIff(H: Digest, m: Meta, disk: seq<byte>, a: Actor)
    requires SessionInv(m) && !m.noVerify && |disk| == m.size && MarkedMatch(H, m, disk) && a.Upload?
    ensures var r := AfterAlone(H, m, disk, a);
            && r.0.Some? && SessionInv(r.0.value) && |Laid(m, disk, a)| == m.size
            && (MarkedMatch(H, r.0.value, Laid(m, disk, a)) <==> !SpoilsMark(H, m, disk, a))
            && (Whole(m, a) ==> r.1.Some? && r.1.value.Settled?)
  {
    if Heard(m, a).Some? {
      LaidPiece(m, disk, a);
      PlanShape(m, a);
      if Whole(m, a) {
        var r := AfterAlone(H, m, disk, a);
        WholeMatchIff(H, m, disk, a, r.0, r.1);
      } else {
        LaidMatchIff(H, m, m, disk, Laid(m, disk, a), a.index);
      }
    }
  }

  /** Only the bytes of the request's own piece change. */
  lemma LaidPiece(m: Meta, disk: seq<byte>, a: Actor)
    requires a.Upload? && SessionInv(m) && |disk| == m.size && Heard(m, a).Some?
    ensures 0 <= a.index < Count(m) && 0 <= Lo(m, a.index) <= Lo(m, a.index) + Deliverable(a) <= Hi(m, a.index) <= m.size
    ensures var d, i, n := Laid(m, disk, a), a.index, Deliverable(a);
            && |d| == |disk|
            && d[Lo(m, i)..Hi(m, i)] == a.body[..n] + disk[Lo(m, i) + n..Hi(m, i)]
            && forall x :: 0 <= x < |disk| && !(Lo(m, i) <= x < Hi(m, i)) ==> d[x] == disk[x]
  {
    PlanShape(m, a);
    PiecesTile(m.size, m.pieceLen, a.index);
    OverlaySlice(disk, Lo(m, a.index), a.body[..Deliverable(a)], Hi(m, a.index));
  }

  lemma OverlaySlice(disk: seq<byte>, at: nat, body: seq<byte>, end: nat)
    requires at + |body| <= end <= |disk|
    ensures var d := Overlay(disk, at, body);
            && |d| == |disk|
            && d[at..end] == body + disk[at + |body|..end]
            && forall x :: 0 <= x < |disk| && !(at <= x < end) ==> d[x] == disk[x]
  {}

  /** With one piece rewritten, and every piece marked before still recorded
      with the same hash, all depends on that piece. */
  lemma LaidMatchIff(H: Digest, m: Meta, m': Meta, disk: seq<byte>, disk': seq<byte>, i: int)
    requires SessionInv(m) && SessionInv(m') && SameConstants(m, m') && 0 <= i < Count(m) && |disk| == |disk'| == m.size
    requires MarkedMatch(H, m, disk)
    requires forall j :: j != i ==> SamePiece(m, m', j)
    requires forall x :: 0 <= x < |disk| && !(Lo(m, i) <= x < Hi(m, i)) ==> disk'[x] == disk[x]
    ensures MarkedMatch(H, m', disk') <==> (m'.bitmap[i] == '1' ==> VerifyPiece(H, m', disk', i))
  {
    forall j | 0 <= j < Count(m) && j != i && m'.bitmap[j] == '1' ensures VerifyPiece(H, m', disk', j) {
      assert SamePiece(m, m', j);
      assert VerifyPiece(H, m, disk, j);
      OtherBytesKept(m, disk, disk', i, j);
      VerifyReadsOnlyItsPiece(H, m, disk, disk', j);
    }
  }

  lemma WholeMatchIff(H: Digest, m: Meta, disk: seq<byte>, a: Actor, saved: Option<Meta>, out: Option<Outcome>)
    requires SessionInv(m) && !m.noVerify && |disk| == m.size && MarkedMatch(H, m, disk)
    requires a.Upload? && Whole(m, a) && (saved, out) == AfterAlone(H, m, disk, a)
    ensures saved.Some? && SessionInv(saved.value) && out.Some? && out.value.Settled?
    ensures |Laid(m, disk, a)| == |disk|
    ensures MarkedMatch(H, saved.value, Laid(m, disk, a)) <==> !SpoilsMark(H, m, disk, a)
  {
    PlanShape(m, a);
    LaidPiece(m, disk, a);
    var i, t, d := a.index, Plan(m, a).value, Laid(m, disk, a);
    var m1 := WithClaim(m, t).value;
    if t.hasClaim { MergeClaimShape(m, i, t.claim); }
    SettleOnePiece(H, m, d, i, t.claim, t.hasClaim);
    var m' := saved.value;
    LaidMatchIff(H, m, m', disk, d, i);
    assert m.bitmap[i] == '1' ==> VerifyPiece(H, m, disk, i);
    OwnPieceIff(H, m, m1, d, i, m', out.value.bad);
  }

  /** The rewritten piece itself: a fresh mark was checked, an old one is only
      as good as the bytes now under it. */
  lemma OwnPieceIff(H: Digest, m: Meta, m1: Meta, d: seq<byte>, i: int, m': Meta, bad: seq<int>)
    requires SessionInv(m) && SessionInv(m') && SameConstants(m, m') && !m.noVerify && 0 <= i < Count(m) && |d| == m.size
    requires m1 == m.(hashes := m1.hashes) && PieceSettled(H, m, m1, d, i, m', bad)
    requires m.bitmap[i] == '1' ==> HashAt(m, i).Some? && |Lower(HashAt(m, i).value)| == 64 && HashAt(m1, i) == HashAt(m, i)
    requires 0 <= Lo(m, i) < Hi(m, i) <= m.size
    ensures (m'.bitmap[i] == '1' ==> VerifyPiece(H, m', d, i)) <==>
            !(m.bitmap[i] == '1' && H(d[Lo(m, i)..Hi(m, i)]) != Lower(HashAt(m, i).value))
  {
    assert HashAt(m', i) == HashAt(m1, i);
    assert VerifyPiece(H, m', d, i) == VerifyPiece(H, m1, d, i);
  }

  lemma OtherBytesKept(m: Meta, disk: seq<byte>, disk': seq<byte>, i: int, j: int)
    requires m.size > 0 && m.pieceLen > 0 && 0 <= i < Count(m) && 0 <= j < Count(m) && i != j
    requires |disk| == |disk'| == m.size
    requires forall x :: 0 <= x < |disk| && !(Lo(m, i) <= x < Hi(m, i)) ==> disk'[x] == disk[x]
    ensures forall x :: 0 <= x < |disk| && Lo(m, j) <= x < Hi(m, j) ==> disk[x] == disk'[x]
  {
    forall x | 0 <= x < |disk| && Lo(m, j) <= x < Hi(m, j) ensures disk[x] == disk'[x] {
      assert InPiece(m, j, x);
      OtherPieceUncut(m, i, j, x);
    }
  }

  function ResentPiece(body: seq<byte>): Actor {
    Upload(0, HALF, Letters('a'), body)
  }

  lemma ResentIsHeard(H: Digest, disk: seq<byte>, body: seq<byte>)
    requires |disk| == 2 * HALF && H(disk[0..HALF]) == Letters('a')
    ensures SessionInv(StaleMeta()) && MarkedMatch(H, StaleMeta(), disk) && Heard(StaleMeta(), ResentPiece(body)).Some?
    ensures Lower(Letters('a')) == Letters('a')
  {
    StaleMetaInv();
    assert Lower(Letters('a')) == Letters('a');
    assert VerifyPiece(H, StaleMeta(), disk, 0);
  }

  lemma ResentFinishes(H: Digest, disk: seq<byte>, body: seq<byte>) returns (sched: Schedule)
    requires |disk| == 2 * HALF
    ensures Run(H, [ResentPiece(body)], Start(StaleMeta(), disk, 1), sched).phases[0].Finished?
  {
    StaleMetaInv();
    var actors := [ResentPiece(body)];
    StartInv(H, StaleMeta(), actors, disk);
    sched := OneFinishes(H, StaleMeta(), actors, Start(StaleMeta(), disk, 1), 0);
  }

  /** A concrete re-send that breaks the promise: the claim repeats the
      recorded hash, the body does not have it, and the answer is success. */
  lemma ResendCorrupts(H: Digest, disk: seq<byte>, body: seq<byte>) returns (sched: Schedule)
    requires |disk| == 2 * HALF && H(disk[0..HALF]) == Letters('a')
    requires |body| == HALF && H(body) != Letters('a')
    ensures SessionInv(StaleMeta()) && MarkedMatch(H, StaleMeta(), disk)
    ensures var s := Run(H, [ResentPiece(body)], Start(StaleMeta(), disk, 1), sched);
            && s.phases[0].Finished? && s.phases[0].out.Settled?
            && s.saved.Some? && |s.saved.value.bitmap| == Count(s.saved.value)
            && !MarkedMatch(H, s.saved.value, s.disk)
  {
    ResentIsHeard(H, disk, body);
    sched := ResentFinishes(H, disk, body);
    assert body[..HALF] + disk[HALF..HALF] == body;
    ResendMatchIff(H, StaleMeta(), disk, ResentPiece(body), sched);
  }

  /** And one that breaks it while being refused: a single byte arrives, which
      is written over the marked piece and never accounted. */
  lemma CutShortCorrupts(H: Digest, disk: seq<byte>, b: byte) returns (sched: Schedule)
    requires |disk| == 2 * HALF && H(disk[0..HALF]) == Letters('a')
    requires H([b] + disk[1..HALF]) != Letters('a')
    ensures SessionInv(StaleMeta()) && MarkedMatch(H, StaleMeta(), disk)
    ensures var s := Run(H, [ResentPiece([b])], Start(StaleMeta(), disk, 1), sched);
            && s.phases[0] == Finished(Refused(ShortBody)) && s.saved == Some(StaleMeta()) && |s.disk| == |disk|
            && !MarkedMatch(H, StaleMeta(), s.disk)
  {
    ResentIsHeard(H, disk, [b]);
    sched := ResentFinishes(H, disk, [b]);
    assert [b][..1] == [b];
    ResendMatchIff(H, StaleMeta(), disk, ResentPiece([b]), sched);
  }
}
