/** Clients that all send the same file: every run is then faithful, whatever
    is re-sent, cut short or sent twice at once, and a file that reaches the
    shared folder is the clients' file byte for byte. */
module UploadContent {
  import opened Wrappers
  import opened Ranges
  import opened Pieces
  import opened Session
  import opened Progress
  import opened Lifecycle
  import opened Requests
  import opened UploadMachine
  import opened UploadOrder
  import opened UploadSafety

  /** Whatever arrives of the body is the front of the named piece of f. */
  predicate SendsFrom(f: seq<byte>, m: Meta, a: Actor) {
    a.Upload? && 0 <= a.index < Count(m) && 0 <= Lo(m, a.index) ==>
      forall x | 0 <= x < Deliverable(a) && Lo(m, a.index) + x < |f| :: a.body[x] == f[Lo(m, a.index) + x]
  }

  predicate Agrees(f: seq<byte>, disk: seq<byte>, lo: int, hi: int) {
    forall x | lo <= x < hi && 0 <= x < |f| && x < |disk| :: disk[x] == f[x]
  }

  ghost predicate MarkedAgree(f: seq<byte>, m: Meta, disk: seq<byte>) {
    forall i :: 0 <= i < Count(m) && Marked(m, i) ==> Agrees(f, disk, Lo(m, i), Hi(m, i))
  }

  /** What a request has copied so far is there. */
  ghost predicate Copied(f: seq<byte>, m: Meta, a: Actor, ph: Phase, disk: seq<byte>) {
    a.Upload? ==>
      match ph
      case Streaming(_, sent) => sent <= Deliverable(a) && Agrees(f, disk, Lo(m, a.index), Lo(m, a.index) + sent)
      case Streamed(_) => Agrees(f, disk, Lo(m, a.index), Hi(m, a.index))
      case _ => true
  }

  ghost predicate ContentInv(f: seq<byte>, m: Meta, actors: seq<Actor>, s: State) {
    && |f| == |s.disk| == m.size && m.size > 0 && m.pieceLen > 0 && |actors| == |s.phases|
    && (forall k :: 0 <= k < |actors| ==>
          AimsAtPiece(m.size, m.pieceLen, actors[k], s.phases[k]) && Copied(f, m, actors[k], s.phases[k], s.disk))
    && (s.saved.Some? ==>
          && SessionInv(s.saved.value) && s.saved.value.size == m.size && s.saved.value.pieceLen == m.pieceLen
          && MarkedAgree(f, s.saved.value, s.disk))
    && (s.placed.Some? ==> s.placed.value.size == m.size && s.placed.value.pieceLen == m.pieceLen && s.disk == f)
  }

  /** Every byte that changes becomes the byte of f. */
  ghost predicate OnlyCopies(f: seq<byte>, disk: seq<byte>, disk': seq<byte>) {
    |disk| == |disk'| == |f| && forall x :: 0 <= x < |f| ==> disk'[x] == disk[x] || disk'[x] == f[x]
  }

  /** Copying from f never undoes agreement with f. */
  lemma CopiesKeep(f: seq<byte>, m: Meta, actors: seq<Actor>, s: State, k: nat, ph: Phase, disk: seq<byte>)
    requires ContentInv(f, m, actors, s) && OnlyCopies(f, s.disk, disk) && k < |actors|
    requires AimsAtPiece(m.size, m.pieceLen, actors[k], ph) && Copied(f, m, actors[k], ph, disk)
    ensures ContentInv(f, m, actors, s.(phases := s.phases[k := ph], disk := disk))
  {
    forall lo, hi | Agrees(f, s.disk, lo, hi) ensures Agrees(f, disk, lo, hi) {}
    forall l | 0 <= l < |actors| && l != k ensures Copied(f, m, actors[l], s.phases[l], disk) {
      assert Copied(f, m, actors[l], s.phases[l], s.disk);
    }
  }

  lemma CopiesAreFaithful(f: seq<byte>, m: Meta, actors: seq<Actor>, s: State, s': State)
    requires ContentInv(f, m, actors, s) && OnlyCopies(f, s.disk, s'.disk)
    ensures Faithful(s, s')
  {
    forall x | 0 <= x < |s.disk| && MarkedByte(s, x) ensures s.disk[x] == f[x] {
      if s.saved.Some? {
        if i :| InPiece(s.saved.value, i, x) && Marked(s.saved.value, i) {
          assert Agrees(f, s.disk, Lo(s.saved.value, i), Hi(s.saved.value, i));
        }
      }
    }
  }

  lemma ReadStepCopies(H: Digest, f: seq<byte>, m: Meta, actors: seq<Actor>, s: State, k: nat, n: nat)
    requires ContentInv(f, m, actors, s) && k < |actors| && actors[k].Upload?
    requires s.phases[k].Arrived? || s.phases[k].Resolving? || s.phases[k].Checked?
    ensures ContentInv(f, m, actors, Step(H, actors, s, k, n)) && Step(H, actors, s, k, n).disk == s.disk
  {
    var s' := Step(H, actors, s, k, n);
    assert AimsAtPiece(m.size, m.pieceLen, actors[k], s.phases[k]);
    if s.phases[k].Checked? && s.saved.Some? {
      PiecesTile(m.size, m.pieceLen, actors[k].index);
    }
    CopiesKeep(f, m, actors, s, k, s'.phases[k], s.disk);
    assert s' == s.(phases := s.phases[k := s'.phases[k]], disk := s.disk);
  }

  lemma StreamStepCopies(H: Digest, f: seq<byte>, m: Meta, actors: seq<Actor>, s: State, k: nat, n: nat)
    requires ContentInv(f, m, actors, s) && k < |actors| && SendsFrom(f, m, actors[k])
    requires actors[k].Upload? && s.phases[k].Streaming?
    ensures ContentInv(f, m, actors, Step(H, actors, s, k, n)) && OnlyCopies(f, s.disk, Step(H, actors, s, k, n).disk)
  {
    var a, t, sent := actors[k], s.phases[k].t, s.phases[k].sent;
    assert AimsAtPiece(m.size, m.pieceLen, a, s.phases[k]) && Copied(f, m, a, s.phases[k], s.disk);
    PiecesTile(m.size, m.pieceLen, a.index);
    if sent < Deliverable(a) {
      StreamMoreCopies(H, f, m, actors, s, k, n, a, t, sent);
    } else {
      var s' := Step(H, actors, s, k, n);
      CopiesKeep(f, m, actors, s, k, s'.phases[k], s.disk);
      assert s' == s.(phases := s.phases[k := s'.phases[k]], disk := s.disk);
    }
  }

  lemma StreamMoreCopies(H: Digest, f: seq<byte>, m: Meta, actors: seq<Actor>, s: State, k: nat, n: nat, a: Actor, t: Target, sent: nat)
    requires ContentInv(f, m, actors, s) && k < |actors| && a == actors[k] && SendsFrom(f, m, a)
    requires a.Upload? && s.phases[k] == Streaming(t, sent) && sent < Deliverable(a)
    requires AimsAtPiece(m.size, m.pieceLen, a, Streaming(t, sent)) && Copied(f, m, a, Streaming(t, sent), s.disk)
    requires 0 <= Lo(m, a.index) < Hi(m, a.index) <= m.size
    ensures ContentInv(f, m, actors, Step(H, actors, s, k, n)) && OnlyCopies(f, s.disk, Step(H, actors, s, k, n).disk)
  {
    var c := Chunk(a, sent, n);
    var disk := Overlay(s.disk, t.offset + sent, c);
    SentChunk(f, m, a, sent, n, c);
    ChunkCopies(f, t.offset, sent, c, s.disk, disk);
    StreamingStep(H, actors, s, k, n, c, disk);
    CopiesKeep(f, m, actors, s, k, Streaming(t, sent + |c|), disk);
  }

  lemma SentChunk(f: seq<byte>, m: Meta, a: Actor, sent: nat, n: nat, c: seq<byte>)
    requires a.Upload? && SendsFrom(f, m, a) && |f| == m.size
    requires 0 <= a.index < Count(m) && a.length == Hi(m, a.index) - Lo(m, a.index) && 0 <= Lo(m, a.index) < Hi(m, a.index) <= m.size
    requires sent < Deliverable(a) && c == Chunk(a, sent, n)
    ensures sent + |c| <= Deliverable(a) && Lo(m, a.index) + sent + |c| <= |f|
    ensures forall x :: 0 <= x < |c| ==> c[x] == f[Lo(m, a.index) + sent + x]
  {
    forall x | 0 <= x < |c| ensures c[x] == f[Lo(m, a.index) + sent + x] {
      assert c[x] == a.body[sent + x];
    }
  }

  lemma ChunkCopies(f: seq<byte>, at: int, sent: nat, c: seq<byte>, disk: seq<byte>, disk': seq<byte>)
    requires 0 <= at && at + sent + |c| <= |disk| == |f| && disk' == Overlay(disk, at + sent, c)
    requires forall x :: 0 <= x < |c| ==> c[x] == f[at + sent + x]
    requires Agrees(f, disk, at, at + sent)
    ensures OnlyCopies(f, disk, disk') && Agrees(f, disk', at, at + sent + |c|)
  {
    OverlayEffect(disk, at + sent, c);
    forall x | 0 <= x < |f| ensures disk'[x] == if at + sent <= x < at + sent + |c| then f[x] else disk[x] {
      if at + sent <= x < at + sent + |c| { assert c[x - at - sent] == f[x]; }
    }
  }

  lemma SettleStepCopies(H: Digest, f: seq<byte>, m: Meta, actors: seq<Actor>, s: State, k: nat, n: nat)
    requires ContentInv(f, m, actors, s) && k < |actors| && actors[k].Upload? && s.phases[k].Streamed?
    ensures ContentInv(f, m, actors, Step(H, actors, s, k, n)) && Step(H, actors, s, k, n).disk == s.disk
  {
    var s' := Step(H, actors, s, k, n);
    var a, t := actors[k], s.phases[k].t;
    assert AimsAtPiece(m.size, m.pieceLen, a, s.phases[k]) && Copied(f, m, a, s.phases[k], s.disk);
    CopiesKeep(f, m, actors, s, k, s'.phases[k], s.disk);
    if s.saved.Some? && ValidMeta(s.saved.value) {
      StreamedStep(H, actors, s, k, n);
      SettleAgrees(H, f, s.saved.value, s.disk, t);
    }
  }

  /** A new mark is only given to a piece that agrees. */
  lemma SettleAgrees(H: Digest, f: seq<byte>, m: Meta, disk: seq<byte>, t: Target)
    requires SessionInv(m) && MarkedAgree(f, m, disk)
    requires t.index.Some? && t == PieceTarget(m, t.index.value, t.claim, t.hasClaim) && 0 <= t.index.value < Count(m)
    requires Agrees(f, disk, Lo(m, t.index.value), Hi(m, t.index.value))
    ensures var r := Settle(H, Some(m), disk, t);
            && r.0.Some? && SessionInv(r.0.value) && SameConstants(m, r.0.value) && MarkedAgree(f, r.0.value, disk)
  {
    if WithClaim(m, t).Ok? {
      var i := t.index.value;
      SettleOnePiece(H, m, disk, i, t.claim, t.hasClaim);
      var m' := Settle(H, Some(m), disk, t).0.value;
      forall j | 0 <= j < Count(m') && Marked(m', j) ensures Agrees(f, disk, Lo(m', j), Hi(m', j)) {
        if j != i {
          assert SamePiece(m, m', j);
          assert Marked(m, j);
        }
      }
    }
  }

  lemma CompleteStepCopies(H: Digest, f: seq<byte>, m: Meta, actors: seq<Actor>, s: State, k: nat, n: nat)
    requires ContentInv(f, m, actors, s) && k < |actors| && actors[k].Complete?
    ensures ContentInv(f, m, actors, Step(H, actors, s, k, n)) && Step(H, actors, s, k, n).disk == s.disk
  {
    var s' := Step(H, actors, s, k, n);
    assert AimsAtPiece(m.size, m.pieceLen, actors[k], s.phases[k]);
    CopiesKeep(f, m, actors, s, k, s'.phases[k], s.disk);
    if s.phases[k].Hashed? && s.saved.Some? && Missing(s.saved.value) == [] {
      AllMarkedAgrees(f, s.saved.value, s.disk);
    }
  }

  lemma AllMarkedAgrees(f: seq<byte>, m: Meta, disk: seq<byte>)
    requires SessionInv(m) && MarkedAgree(f, m, disk) && |f| == |disk| == m.size && Missing(m) == []
    ensures disk == f
  {
    NothingMissingIff(m);
    forall x | 0 <= x < |f| ensures disk[x] == f[x] {
      PieceOfByte(m.size, m.pieceLen, x);
      assert Marked(m, x / m.pieceLen);
      assert Agrees(f, disk, Lo(m, x / m.pieceLen), Hi(m, x / m.pieceLen));
    }
  }

  lemma StepCopies(H: Digest, f: seq<byte>, m: Meta, actors: seq<Actor>, s: State, k: nat, n: nat)
    requires ContentInv(f, m, actors, s) && forall l :: 0 <= l < |actors| ==> SendsFrom(f, m, actors[l])
    ensures ContentInv(f, m, actors, Step(H, actors, s, k, n)) && OnlyCopies(f, s.disk, Step(H, actors, s, k, n).disk)
  {
    if k < |actors| {
      if actors[k].Complete? {
        CompleteStepCopies(H, f, m, actors, s, k, n);
      } else if s.phases[k].Streaming? {
        StreamStepCopies(H, f, m, actors, s, k, n);
      } else if s.phases[k].Streamed? {
        SettleStepCopies(H, f, m, actors, s, k, n);
      } else if s.phases[k].Arrived? || s.phases[k].Resolving? || s.phases[k].Checked? {
        ReadStepCopies(H, f, m, actors, s, k, n);
      }
    }
  }

  /** One file f behind all uploads, and behind the pieces already marked. */
  ghost predicate OneFile(f: seq<byte>, m: Meta, disk: seq<byte>, actors: seq<Actor>) {
    && |f| == |disk| == m.size && MarkedAgree(f, m, disk)
    && forall k :: 0 <= k < |actors| ==> SendsFrom(f, m, actors[k])
  }

  lemma {:induction false} RunCopies(H: Digest, f: seq<byte>, m: Meta, disk: seq<byte>, actors: seq<Actor>, sched: Schedule)
    requires SessionInv(m) && OneFile(f, m, disk, actors)
    ensures ContentInv(f, m, actors, Run(H, actors, Start(m, disk, |actors|), sched))
  {
    if sched != [] {
      var n := |sched| - 1;
      RunCopies(H, f, m, disk, actors, sched[..n]);
      StepCopies(H, f, m, actors, Run(H, actors, Start(m, disk, |actors|), sched[..n]), sched[n].0, sched[n].1);
    }
  }

  /** Clients that send one file are faithful under every schedule: requests
      for the same piece, re-sends of marked pieces and bodies cut short
      included, verified or not. */
  lemma OneFileIsFaithful(H: Digest, f: seq<byte>, m: Meta, disk: seq<byte>, actors: seq<Actor>, sched: Schedule)
    requires SessionInv(m) && OneFile(f, m, disk, actors)
    ensures FaithfulRun(H, actors, Start(m, disk, |actors|), sched)
  {
    var s0 := Start(m, disk, |actors|);
    forall n | 0 <= n < |sched|
      ensures Faithful(Run(H, actors, s0, sched[..n]), Step(H, actors, Run(H, actors, s0, sched[..n]), sched[n].0, sched[n].1))
    {
      var s := Run(H, actors, s0, sched[..n]);
      RunCopies(H, f, m, disk, actors, sched[..n]);
      StepCopies(H, f, m, actors, s, sched[n].0, sched[n].1);
      CopiesAreFaithful(f, m, actors, s, Step(H, actors, s, sched[n].0, sched[n].1));
    }
  }

  /** A file that reaches the shared folder is that file, byte for byte, and
      stays so while late writers finish; marked pieces always agree with it. */
  lemma PlacedFileIsOriginal(H: Digest, f: seq<byte>, m: Meta, disk: seq<byte>, actors: seq<Actor>, sched: Schedule)
    requires SessionInv(m) && OneFile(f, m, disk, actors)
    ensures var s := Run(H, actors, Start(m, disk, |actors|), sched);
            && (s.placed.Some? ==> s.disk == f)
            && (s.saved.Some? ==> MarkedAgree(f, s.saved.value, s.disk))
  {
    RunCopies(H, f, m, disk, actors, sched);
  }
}
