/** One upload request running on its own: what it leaves on disk and in the
    saved metadata, whatever becomes of its body. */
module UploadAlone {
  import opened Wrappers
  import opened Ranges
  import opened Pieces
  import opened Session
  import opened Lifecycle
  import opened Requests
  import opened UploadMachine
  import opened UploadOrder

  /** Where the body will go, if the session can be read and does not refuse
      the request up front. */
  function Heard(m: Meta, a: Actor): Option<Target>
    requires a.Upload?
  {
    if ValidMeta(m) then Plan(m, a) else None
  }

  /** The file with as much of the body as arrives. */
  function Laid(m: Meta, disk: seq<byte>, a: Actor): seq<byte>
    requires a.Upload?
  {
    if Heard(m, a).None? || Heard(m, a).value.offset < 0 then disk
    else Overlay(disk, Heard(m, a).value.offset, a.body[..Deliverable(a)])
  }

  predicate Whole(m: Meta, a: Actor)
    requires a.Upload?
  {
    Heard(m, a).Some? && Deliverable(a) >= a.length
  }

  /** The session once the request is over: settled if the body was whole. */
  function AfterAlone(H: Digest, m: Meta, disk: seq<byte>, a: Actor): (Option<Meta>, Option<Outcome>)
    requires a.Upload?
  {
    if !Whole(m, a) then (Some(m), None)
    else
      var r := Settle(H, Some(m), Laid(m, disk, a), Heard(m, a).value);
      (r.0, Some(r.1))
  }

  // ------------------------------------------------------ the machine agrees

  ghost predicate AloneInv(H: Digest, m: Meta, disk: seq<byte>, a: Actor, s: State)
    requires a.Upload? && SessionInv(m) && |s.phases| == 1
  {
    match s.phases[0]
    case Arrived => s.saved == Some(m) && s.disk == disk
    case Resolving(t) => s.saved == Some(m) && s.disk == disk && ValidMeta(m) && ResolvePhase(Some(m), a) == Resolving(t)
    case Checked(t) => s.saved == Some(m) && s.disk == disk && Heard(m, a) == Some(t)
    case Streaming(t, sent) =>
      && s.saved == Some(m) && Heard(m, a) == Some(t) && t.offset >= 0
      && sent <= Deliverable(a) && s.disk == Overlay(disk, t.offset, a.body[..sent])
    case Streamed(t) => s.saved == Some(m) && Heard(m, a) == Some(t) && Whole(m, a) && s.disk == Laid(m, disk, a)
    case Finished(out) =>
      && s.disk == Laid(m, disk, a) && s.saved == AfterAlone(H, m, disk, a).0
      && (if Whole(m, a) then AfterAlone(H, m, disk, a).1 == Some(out) else out.Refused?)
      && (Heard(m, a).Some? && !Whole(m, a) ==> out == Refused(ShortBody))
    case _ => false
  }

  lemma OverlayMore(disk: seq<byte>, at: nat, body: seq<byte>, n: nat, n': nat)
    requires n <= n' <= |body| && at + |body| <= |disk|
    ensures Overlay(Overlay(disk, at, body[..n]), at + n, body[n..n']) == Overlay(disk, at, body[..n'])
  {}

  lemma OverlayNone(disk: seq<byte>, at: nat)
    requires at <= |disk|
    ensures Overlay(disk, at, []) == disk
  {}

  lemma AloneReads(H: Digest, m: Meta, disk: seq<byte>, a: Actor, s: State, n: nat)
    requires a.Upload? && SessionInv(m) && |disk| == m.size && |s.phases| == 1 && AloneInv(H, m, disk, a, s)
    requires s.phases[0].Arrived? || s.phases[0].Resolving? || s.phases[0].Checked?
    ensures AloneInv(H, m, disk, a, Step(H, [a], s, 0, n))
  {
    if s.phases[0].Checked? {
      PlanShape(m, a);
      OverlayNone(disk, s.phases[0].t.offset);
      assert a.body[..0] == [];
    }
  }

  lemma ChunkLaid(disk: seq<byte>, at: nat, a: Actor, sent: nat, n: nat, c: seq<byte>)
    requires a.Upload? && sent < Deliverable(a) && at + Deliverable(a) <= |disk| && c == Chunk(a, sent, n)
    ensures sent + |c| <= Deliverable(a)
    ensures Overlay(Overlay(disk, at, a.body[..sent]), at + sent, c) == Overlay(disk, at, a.body[..sent + |c|])
  {
    var whole := a.body[..Deliverable(a)];
    assert whole[..sent] == a.body[..sent] && whole[..sent + |c|] == a.body[..sent + |c|];
    assert c == whole[sent..sent + |c|];
    OverlayMore(disk, at, whole, sent, sent + |c|);
  }

  lemma AloneStreams(H: Digest, m: Meta, disk: seq<byte>, a: Actor, s: State, n: nat)
    requires a.Upload? && SessionInv(m) && |disk| == m.size && |s.phases| == 1 && AloneInv(H, m, disk, a, s)
    requires s.phases[0].Streaming?
    ensures AloneInv(H, m, disk, a, Step(H, [a], s, 0, n))
  {
    var t, sent := s.phases[0].t, s.phases[0].sent;
    PlanShape(m, a);
    if sent < Deliverable(a) {
      AloneStreamsMore(H, m, disk, a, s, n, t, sent, Chunk(a, sent, n));
    }
  }

  lemma AloneStreamsMore(H: Digest, m: Meta, disk: seq<byte>, a: Actor, s: State, n: nat, t: Target, sent: nat, c: seq<byte>)
    requires a.Upload? && SessionInv(m) && |disk| == m.size && |s.phases| == 1 && s.phases[0] == Streaming(t, sent)
    requires s.saved == Some(m) && Heard(m, a) == Some(t) && 0 <= t.offset && t.offset + Deliverable(a) <= |disk|
    requires sent < Deliverable(a) && s.disk == Overlay(disk, t.offset, a.body[..sent]) && c == Chunk(a, sent, n)
    ensures AloneInv(H, m, disk, a, Step(H, [a], s, 0, n))
  {
    ChunkLaid(disk, t.offset, a, sent, n, c);
    StreamingStep(H, [a], s, 0, n, c, Overlay(s.disk, t.offset + sent, c));
  }

  lemma AloneStep(H: Digest, m: Meta, disk: seq<byte>, a: Actor, s: State, k: nat, n: nat)
    requires a.Upload? && SessionInv(m) && |disk| == m.size && |s.phases| == 1 && AloneInv(H, m, disk, a, s)
    ensures AloneInv(H, m, disk, a, Step(H, [a], s, k, n))
  {
    if k == 0 {
      match s.phases[0]
      case Streaming(_, _) => AloneStreams(H, m, disk, a, s, n);
      case Streamed(_) => StreamedStep(H, [a], s, 0, n);
      case Finished(_) =>
      case Arrived => AloneReads(H, m, disk, a, s, n);
      case Resolving(_) => AloneReads(H, m, disk, a, s, n);
      case Checked(_) => AloneReads(H, m, disk, a, s, n);
      case _ =>
    }
  }

  /** In every state of its run a lone request is where it should be; at the
      end, disk and metadata are exactly these. */
  lemma {:induction false} AloneRun(H: Digest, m: Meta, disk: seq<byte>, a: Actor, sched: Schedule)
    requires a.Upload? && SessionInv(m) && |disk| == m.size
    ensures AloneInv(H, m, disk, a, Run(H, [a], Start(m, disk, 1), sched))
  {
    if sched != [] {
      var n := |sched| - 1;
      AloneRun(H, m, disk, a, sched[..n]);
      AloneStep(H, m, disk, a, Run(H, [a], Start(m, disk, 1), sched[..n]), sched[n].0, sched[n].1);
    }
  }

  /** Seen from any group of requests on distinct pieces, the session then has
      exactly this one settled. */
  lemma AloneIsPart(H: Digest, m: Meta, disk: seq<byte>, actors: seq<Actor>, k: nat)
    requires SessionInv(m) && ValidMeta(m) && |disk| == m.size && DistinctPieces(actors) && k < |actors|
    requires Accepted(m, actors[k])
    ensures AfterAlone(H, m, disk, actors[k]).0.Some?
    ensures PartSettled(H, m, actors, {k}, AfterAlone(H, m, disk, actors[k]).0.value)
  {
    var a := actors[k];
    PlanShape(m, a);
    var t, d := Plan(m, a).value, Laid(m, disk, a);
    OverlayEffect(disk, t.offset, a.body[..Deliverable(a)]);
    assert SamePiece(m, m, a.index);
    assert ReqInv(H, m, a, Streamed(t), m, d);
    SettleLocal(H, m, a, t, m, d);
    var m' := Settle(H, Some(m), d, t).0.value;
    forall j | !Targeted(actors, j) ensures SamePiece(m, m', j) {
      assert j != a.index;
    }
  }
}
