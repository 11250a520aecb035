/** Completing an upload: when a file is placed, and what the full hash that
    comes with the request is compared with. */
module UploadComplete {
  import opened Wrappers
  import opened Ranges
  import opened Pieces
  import opened Session
  import opened Progress
  import opened Lifecycle
  import opened Requests
  import opened UploadMachine
  import opened UploadAccept

  /** What the request lets through: no hash for a session whose pieces were
      checked, else the hash of the file, in letters of either case. */
  predicate HashFits(H: Digest, m: Meta, disk: seq<byte>, fullHash: string) {
    if fullHash == "" then !m.noVerify else SmallLetters(fullHash, H(disk))
  }

  ghost predicate CompleteInv(H: Digest, m: Meta, disk: seq<byte>, h: string, s: State)
    requires |s.phases| == 1
  {
    var ready := ValidMeta(m) && Missing(m) == [];
    && s.disk == disk
    && (if s.phases[0] == Finished(Placed) then s.saved == None && s.placed == Some(m) else s.saved == Some(m) && s.placed == None)
    && match s.phases[0]
       case Arrived => true
       case Gated => ready && (h == "" ==> !m.noVerify)
       case Hashed => ready && HashFits(H, m, disk, h)
       case Finished(Placed) => ready && HashFits(H, m, disk, h)
       case Finished(Refused(HashMismatch)) => ready && h != "" && !HashFits(H, m, disk, h)
       case Finished(_) => !(ready && HashFits(H, m, disk, h)) && (ready && h != "" ==> HashFits(H, m, disk, h))
       case _ => false
  }

  lemma CompleteStep(H: Digest, m: Meta, disk: seq<byte>, h: string, s: State, k: nat, n: nat)
    requires |s.phases| == 1 && CompleteInv(H, m, disk, h, s)
    ensures CompleteInv(H, m, disk, h, Step(H, [Complete(h)], s, k, n))
  {
    LowerIsSmall(h, H(disk));
  }

  lemma {:induction false} CompleteRuns(H: Digest, m: Meta, disk: seq<byte>, h: string, sched: Schedule)
    ensures CompleteInv(H, m, disk, h, Run(H, [Complete(h)], Start(m, disk, 1), sched))
  {
    if sched != [] {
      var n := |sched| - 1;
      CompleteRuns(H, m, disk, h, sched[..n]);
      CompleteStep(H, m, disk, h, Run(H, [Complete(h)], Start(m, disk, 1), sched[..n]), sched[n].0, sched[n].1);
    }
  }

  /** A completion that runs alone places the file exactly when the session can
      be read, no piece is missing and the hash fits; it is answered with a
      mismatch exactly when only the hash is wrong; and it never touches the
      bytes. */
  lemma CompleteAlone(H: Digest, m: Meta, disk: seq<byte>, h: string, sched: Schedule)
    requires Run(H, [Complete(h)], Start(m, disk, 1), sched).phases[0].Finished?
    ensures var s := Run(H, [Complete(h)], Start(m, disk, 1), sched);
            && s.disk == disk
            && (s.phases[0] == Finished(Placed) <==> ValidMeta(m) && Missing(m) == [] && HashFits(H, m, disk, h))
            && (s.phases[0] == Finished(Refused(HashMismatch)) <==>
                  ValidMeta(m) && Missing(m) == [] && h != "" && !SmallLetters(h, H(disk)))
            && (s.placed, s.saved) == if s.phases[0] == Finished(Placed) then (Some(m), None) else (None, Some(m))
  {
    CompleteRuns(H, m, disk, h, sched);
  }

  // ------------------------------------------------------------ within any run

  /** Step n of a run is where request k hashes the file. */
  ghost predicate HashStep(H: Digest, actors: seq<Actor>, s: State, sched: Schedule, k: nat, n: nat)
    requires |actors| == |s.phases| && k < |actors|
  {
    n < |sched| && sched[n].0 == k && Run(H, actors, s, sched[..n]).phases[k].Gated?
  }

  predicate PastHash(ph: Phase) { ph.Hashed? || ph == Finished(Placed) }

  lemma StepPastHash(H: Digest, actors: seq<Actor>, s: State, j: nat, n: nat, k: nat)
    requires |actors| == |s.phases| && k < |actors| && actors[k].Complete? && actors[k].fullHash != ""
    requires PastHash(Step(H, actors, s, j, n).phases[k]) && !PastHash(s.phases[k])
    ensures j == k && s.phases[k].Gated? && SmallLetters(actors[k].fullHash, H(s.disk))
  {
    LowerIsSmall(actors[k].fullHash, H(s.disk));
  }

  /** In any run, with any other requests: whoever got a file placed, or may
      still, and named a hash, had it compared with the whole file, and it was
      the file's hash then. */
  lemma {:induction false} PlacedWasHashed(H: Digest, actors: seq<Actor>, s: State, sched: Schedule, k: nat) returns (n: nat)
    requires |actors| == |s.phases| && k < |actors| && actors[k].Complete? && actors[k].fullHash != ""
    requires !PastHash(s.phases[k]) && PastHash(Run(H, actors, s, sched).phases[k])
    ensures HashStep(H, actors, s, sched, k, n) && SmallLetters(actors[k].fullHash, H(Run(H, actors, s, sched[..n]).disk))
  {
    var last := |sched| - 1;
    var before := Run(H, actors, s, sched[..last]);
    if PastHash(before.phases[k]) {
      n := PlacedWasHashed(H, actors, s, sched[..last], k);
      assert sched[..last][..n] == sched[..n];
    } else {
      StepPastHash(H, actors, before, sched[last].0, sched[last].1, k);
      n := last;
    }
  }

  /** Step n of a run is where request k moves the file. */
  ghost predicate PlaceStep(H: Digest, actors: seq<Actor>, s: State, sched: Schedule, k: nat, n: nat, m: Meta)
    requires |actors| == |s.phases| && k < |actors|
  {
    n < |sched| && sched[n].0 == k && Run(H, actors, s, sched[..n]).saved == Some(m)
  }

  lemma StepPlaces(H: Digest, actors: seq<Actor>, s: State, j: nat, n: nat)
    requires |actors| == |s.phases|
    ensures var s' := Step(H, actors, s, j, n);
            s'.placed != s.placed ==>
              && j < |actors| && actors[j].Complete? && s.phases[j].Hashed? && s'.placed == s.saved && s'.saved == None
              && s.saved.Some? && ValidMeta(s.saved.value) && Missing(s.saved.value) == []
  {}

  /** Only a completion that has passed its hash step, and finds a readable
      session with nothing missing, ever moves a file. */
  lemma {:induction false} PlacedByCompletion(H: Digest, actors: seq<Actor>, s: State, sched: Schedule) returns (k: nat, n: nat)
    requires |actors| == |s.phases| && s.placed == None && Run(H, actors, s, sched).placed.Some?
    ensures var m := Run(H, actors, s, sched).placed.value;
            && k < |actors| && actors[k].Complete? && PlaceStep(H, actors, s, sched, k, n, m)
            && Run(H, actors, s, sched[..n]).phases[k].Hashed? && ValidMeta(m) && Missing(m) == []
  {
    var last := |sched| - 1;
    var before := Run(H, actors, s, sched[..last]);
    StepPlaces(H, actors, before, sched[last].0, sched[last].1);
    if Run(H, actors, s, sched).placed == before.placed {
      k, n := PlacedByCompletion(H, actors, s, sched[..last]);
      assert sched[..last][..n] == sched[..n];
    } else {
      k, n := sched[last].0, last;
    }
  }
}
