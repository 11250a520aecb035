/** Concurrent requests on one V2 session.  A request goes through the same
    sections as the server runs it in: resolve and pre-check on the stored
    metadata, an unlocked body copy in chunks of any size, and a locked
    settlement on the reloaded metadata.  Each section that looks at the
    metadata reads it from disk anew, and finds no session when what was saved
    fails the reload check.  A schedule names, step by step,
    which request moves and how many bytes it may copy. */
module UploadMachine {
  import opened Wrappers
  import opened Ranges
  import opened Pieces
  import opened Session
  import opened Progress
  import opened Lifecycle
  import opened Requests

  /** `body` is what the client delivers before it stops sending. */
  datatype Actor =
    | Upload(index: int, length: int, claim: string, body: seq<byte>)
    | Complete(fullHash: string)

  datatype Phase =
    | Arrived
    | Resolving(t: Target)
    | Checked(t: Target)
    | Streaming(t: Target, sent: nat)
    | Streamed(t: Target)
    | Gated
    | Hashed
    | Finished(out: Outcome)

  /** `saved` is meta.json, `disk` the data file (which open handles keep
      writing to after it was moved), `placed` the metadata of the session at
      the moment its file was moved into the shared folder. */
  datatype State = State(saved: Option<Meta>, disk: seq<byte>, placed: Option<Meta>, phases: seq<Phase>)

  /** handleUploadPiece and the argument checks of writeV2. */
  function ResolvePhase(found: Option<Meta>, a: Actor): Phase
    requires a.Upload?
  {
    if found.None? || found.value.v != 2 then Finished(Refused(SessionGone))
    else
      match Resolve(found.value, a.index, a.length, a.claim)
      case Err(why) => Finished(Refused(why))
      case Ok(r) =>
        var t := Target(Some(a.index), r.start, a.length, r.claim, r.hasClaim);
        if Malformed(t).Some? then Finished(Refused(Malformed(t).value)) else Resolving(t)
  }

  function Min(a: int, b: int): int { if a < b then a else b }

  /** How many bytes of the body ever reach the disk. */
  function Deliverable(a: Actor): nat
    requires a.Upload?
  {
    if a.length < 0 then 0 else Min(a.length, |a.body|)
  }

  /** The next piece of the body copied in one step of at most n bytes. */
  function Chunk(a: Actor, sent: nat, n: nat): seq<byte>
    requires a.Upload?
  {
    if sent >= Deliverable(a) then [] else a.body[sent..Min(sent + n, Deliverable(a))]
  }

  /** handleUploadComplete up to the slow hash. */
  function Gate(found: Option<Meta>, fullHash: string): Phase {
    if found.None? then Finished(Refused(SessionGone))
    else if Missing(found.value) != [] then Finished(Refused(Incomplete))
    else if found.value.noVerify && fullHash == "" then Finished(Refused(FullHashRequired))
    else Gated
  }

  function HashPhase(H: Digest, saved: Option<Meta>, disk: seq<byte>, fullHash: string): Phase {
    if fullHash == "" then Hashed
    else if saved.None? then Finished(Refused(VerifyFailed))
    else if H(disk) != Lower(fullHash) then Finished(Refused(HashMismatch))
    else Hashed
  }

  /** One step of request k, copying at most n bytes if it is streaming. */
  function Step(H: Digest, actors: seq<Actor>, s: State, k: nat, n: nat): State
    requires |actors| == |s.phases|
    ensures |Step(H, actors, s, k, n).phases| == |s.phases|
  {
    if k >= |actors| then s
    else
      var a, ph := actors[k], s.phases[k];
      if a.Upload? then
        match ph
        case Arrived => s.(phases := s.phases[k := ResolvePhase(Load(s.saved), a)])
        case Resolving(t) =>
          var err := PreCheck(Load(s.saved), t);
          s.(phases := s.phases[k := if err.Some? then Finished(Refused(err.value)) else Checked(t)])
        case Checked(t) =>
          s.(phases := s.phases[k := if s.saved.None? || t.offset < 0 then Finished(Refused(WriteFailed)) else Streaming(t, 0)])
        case Streaming(t, sent) =>
          if sent >= Deliverable(a) then
            s.(phases := s.phases[k := if sent < t.length then Finished(Refused(ShortBody)) else Streamed(t)])
          else if t.offset < 0 then s
          else
            var c := Chunk(a, sent, n);
            s.(disk := Overlay(s.disk, t.offset + sent, c), phases := s.phases[k := Streaming(t, sent + |c|)])
        case Streamed(t) =>
          var r := SettleSaved(H, s.saved, s.disk, t);
          s.(saved := r.0, phases := s.phases[k := Finished(r.1)])
        case _ => s
      else
        match ph
        case Arrived => s.(phases := s.phases[k := Gate(Load(s.saved), a.fullHash)])
        case Gated => s.(phases := s.phases[k := HashPhase(H, s.saved, s.disk, a.fullHash)])
        case Hashed =>
          if Load(s.saved).None? then s.(phases := s.phases[k := Finished(Refused(SessionGone))])
          else if Missing(s.saved.value) != [] then s.(phases := s.phases[k := Finished(Refused(Incomplete))])
          else s.(saved := None, placed := s.saved, phases := s.phases[k := Finished(Placed)])
        case _ => s
  }

  type Schedule = seq<(nat, nat)>

  function Run(H: Digest, actors: seq<Actor>, s: State, sched: Schedule): State
    requires |actors| == |s.phases|
    ensures |Run(H, actors, s, sched).phases| == |s.phases|
  {
    if sched == [] then s
    else
      var n := |sched| - 1;
      Step(H, actors, Run(H, actors, s, sched[..n]), sched[n].0, sched[n].1)
  }

  function Start(m: Meta, disk: seq<byte>, n: nat): State {
    State(Some(m), disk, None, seq(n, _ => Arrived))
  }

  ghost predicate AllFinished(s: State) {
    forall k :: 0 <= k < |s.phases| ==> s.phases[k].Finished?
  }
}
