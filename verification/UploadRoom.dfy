/** When a run has room: how many intervals requests for distinct pieces can
    leave in the saved metadata, and what happens when reload rejects them. */
module UploadRoom {
  import opened Wrappers
  import opened Ranges
  import opened Pieces
  import opened Session
  import opened Progress
  import opened Lifecycle
  import opened Requests
  import opened UploadMachine
  import opened UploadOrder
  import opened UploadAlone

  // ------------------------------------------------------ counting left edges

  /** Where the intervals of a list begin. */
  function Starts(rs: seq<Range>): set<int> {
    if rs == [] then {} else Starts(rs[..|rs| - 1]) + {rs[|rs| - 1].lo}
  }

  lemma {:induction false} StartsAre(rs: seq<Range>, x: int)
    ensures x in Starts(rs) <==> exists k :: 0 <= k < |rs| && rs[k].lo == x
  {
    if rs != [] {
      var head := rs[..|rs| - 1];
      StartsAre(head, x);
      if k :| 0 <= k < |head| && head[k].lo == x {
        assert rs[k].lo == x;
      }
      if k :| 0 <= k < |rs| && rs[k].lo == x {
        if k < |head| { assert head[k].lo == x; }
      }
    }
  }

  lemma {:induction false} StartsCount(rs: seq<Range>)
    requires Normal(rs)
    ensures |Starts(rs)| == |rs|
  {
    if rs != [] {
      var n := |rs| - 1;
      StartsCount(rs[..n]);
      StartsAre(rs[..n], rs[n].lo);
      forall k | 0 <= k < n ensures rs[..n][k].lo != rs[n].lo {
        assert rs[k].hi < rs[n].lo;
      }
    }
  }

  /** An interval begins at a covered byte behind an uncovered one. */
  lemma StartIff(rs: seq<Range>, x: int)
    requires Normal(rs)
    ensures x in Starts(rs) <==> Covers(rs, x) && !Covers(rs, x - 1)
  {
    StartsAre(rs, x);
    if x in Starts(rs) {
      var k :| 0 <= k < |rs| && rs[k].lo == x;
      assert rs[k].lo <= x < rs[k].hi;
      forall i | 0 <= i < |rs| ensures !(rs[i].lo <= x - 1 < rs[i].hi) {
        if i < k { assert rs[i].hi < rs[k].lo; }
        if k < i { assert rs[k].hi < rs[i].lo; }
      }
    }
    if Covers(rs, x) && !Covers(rs, x - 1) {
      var k :| 0 <= k < |rs| && rs[k].lo <= x < rs[k].hi;
      assert rs[k].lo == x;
    }
  }

  /** The only place where settling piece i can begin an interval: its own
      start once it is there, the byte behind it once it is emptied. */
  function Edge(m: Meta, i: int): int {
    if 0 <= i < |m.bitmap| && m.bitmap[i] == '1' then Lo(m, i) else Hi(m, i)
  }

  function Edges(m: Meta, actors: seq<Actor>): set<int>
    requires AllUploads(actors)
  {
    if actors == [] then {} else Edges(m, actors[..|actors| - 1]) + {Edge(m, actors[|actors| - 1].index)}
  }

  lemma {:induction false} EdgesCount(m: Meta, actors: seq<Actor>)
    requires AllUploads(actors)
    ensures |Edges(m, actors)| <= |actors|
    ensures forall k :: 0 <= k < |actors| ==> Edge(m, actors[k].index) in Edges(m, actors)
  {
    if actors != [] {
      EdgesCount(m, actors[..|actors| - 1]);
    }
  }

  lemma ChangedPiece(H: Digest, m0: Meta, actors: seq<Actor>, part: set<nat>, m: Meta, y: int) returns (k: nat)
    requires SessionInv(m0) && AllUploads(actors) && PartSettled(H, m0, actors, part, m)
    requires Covers(m0.ranges, y) != Covers(m.ranges, y)
    ensures k < |actors| && InPiece(m, actors[k].index, y)
    ensures Covers(m.ranges, y) ==> Full(m, m.ranges, actors[k].index) && m.bitmap[actors[k].index] == '1'
    ensures !Covers(m.ranges, y) ==> NonePresent(m, actors[k].index) && m.bitmap[actors[k].index] != '1'
  {
    if !(0 <= y < m.size) {
      InsideOnly(m0.ranges, m.size, y);
      InsideOnly(m.ranges, m.size, y);
    }
    PieceOfByte(m.size, m.pieceLen, y);
    var j := y / m.pieceLen;
    assert !SamePiece(m0, m, j);
    assert Targeted(actors, j);
    var l :| 0 <= l < |actors| && actors[l].Upload? && actors[l].index == j;
    k := l;
    assert Effect(H, m0, actors[k], m);
  }

  lemma StartsAtEdges(H: Digest, m0: Meta, actors: seq<Actor>, part: set<nat>, m: Meta, x: int)
    requires SessionInv(m0) && AllUploads(actors) && PartSettled(H, m0, actors, part, m)
    requires x in Starts(m.ranges)
    ensures x in Starts(m0.ranges) || x in Edges(m, actors)
  {
    StartIff(m.ranges, x);
    StartIff(m0.ranges, x);
    EdgesCount(m, actors);
    if !Covers(m0.ranges, x) {
      var k := ChangedPiece(H, m0, actors, part, m, x);
      assert !InPiece(m, actors[k].index, x - 1);
      assert x == Edge(m, actors[k].index);
    } else if Covers(m0.ranges, x - 1) {
      var k := ChangedPiece(H, m0, actors, part, m, x - 1);
      assert !InPiece(m, actors[k].index, x);
      assert x == Edge(m, actors[k].index);
    }
  }

  /** Each settled request begins at most one interval. */
  lemma PartAddsFew(H: Digest, m0: Meta, actors: seq<Actor>, part: set<nat>, m: Meta)
    requires SessionInv(m0) && AllUploads(actors) && PartSettled(H, m0, actors, part, m)
    ensures |m.ranges| <= |m0.ranges| + |actors|
  {
    StartsCount(m.ranges);
    StartsCount(m0.ranges);
    EdgesCount(m, actors);
    forall x | x in Starts(m.ranges) ensures x in Starts(m0.ranges) + Edges(m, actors) {
      StartsAtEdges(H, m0, actors, part, m, x);
    }
    SubsetSize(Starts(m.ranges), Starts(m0.ranges) + Edges(m, actors));
    UnionSize(Starts(m0.ranges), Edges(m, actors));
  }

  lemma UnionSize(a: set<int>, b: set<int>)
    ensures |a + b| <= |a| + |b|
  {
    assert a + b == a + (b - a);
    SubsetSize(b - a, b);
  }

  lemma PartKeepsWholePieces(H: Digest, m0: Meta, actors: seq<Actor>, part: set<nat>, m: Meta, p: int)
    requires SessionInv(m0) && AllUploads(actors) && PartSettled(H, m0, actors, part, m)
    requires WholePiecesBut(m0, m0.ranges, p)
    ensures WholePiecesBut(m, m.ranges, p)
  {
    forall j, x | InPiece(m, j, x)
      ensures SamePiece(m0, m, j) || Full(m, m.ranges, j) || NonePresent(m, j)
    {
      if Targeted(actors, j) {
        var k :| 0 <= k < |actors| && actors[k].Upload? && actors[k].index == j;
        assert k in part ==> Effect(H, m0, actors[k], m);
      }
    }
    forall j, x | j != p && InPiece(m, j, x) && Covers(m.ranges, x) ensures Full(m, m.ranges, j) {
      assert InPiece(m0, j, x);
      if SamePiece(m0, m, j) { assert Full(m0, m0.ranges, j); }
    }
    forall x, y | InPiece(m, p, x) && InPiece(m, p, y) && x < y && Covers(m.ranges, y) ensures Covers(m.ranges, x) {
      assert InPiece(m0, p, x) && InPiece(m0, p, y);
    }
  }

  // -------------------------------------------------- enough room beforehand

  /** What a client can check beforehand: a session of at most 20000 whole
      pieces, or no more requests than intervals left. */
  ghost predicate HasRoom(m: Meta, requests: nat) {
    FewIntervals(m) || |m.ranges| + requests <= MAX_RANGES
  }

  lemma RoomFits(H: Digest, m0: Meta, actors: seq<Actor>, part: set<nat>)
    requires SessionInv(m0) && AllUploads(actors) && HasRoom(m0, |actors|)
    ensures PartFits(H, m0, actors, part)
  {
    forall m | PartSettled(H, m0, actors, part, m) ensures |m.ranges| <= MAX_RANGES {
      if FewIntervals(m0) {
        var p :| WholePiecesBut(m0, m0.ranges, p) && Count(m0) + (if 0 <= p < Count(m0) then 2 else 0) <= 2 * MAX_RANGES;
        PartKeepsWholePieces(H, m0, actors, part, m, p);
        HalfAsManyRanges(m, m.ranges, p);
      } else {
        PartAddsFew(H, m0, actors, part, m);
      }
    }
  }

  /** With room beforehand every part of the requests fits, and the session
      can be read again in every state of every run, the last one included. */
  lemma RoomStaysReadable(H: Digest, m0: Meta, disk: seq<byte>, actors: seq<Actor>, sched: Schedule)
    requires SessionInv(m0) && ValidMeta(m0) && |disk| == m0.size && DistinctPieces(actors)
    requires HasRoom(m0, |actors|)
    ensures EveryPartFits(H, m0, actors)
    ensures var saved := Run(H, actors, Start(m0, disk, |actors|), sched).saved;
            saved.Some? && Load(saved) == saved
  {
    forall part | part < AcceptedSet(m0, actors) ensures PartFits(H, m0, actors, part) {
      RoomFits(H, m0, actors, part);
    }
    StartInv(H, m0, actors, disk);
    RunKeepsInv(H, m0, actors, Start(m0, disk, |actors|), sched);
    var s := Run(H, actors, Start(m0, disk, |actors|), sched);
    RunIsPart(H, m0, actors, s);
    RoomFits(H, m0, actors, SettledSet(s.phases));
    RunValidIff(H, m0, actors, s);
  }

  // ------------------------------------------------------ the exact condition

  ghost predicate IsRefused(ph: Phase) { ph.Finished? && ph.out.Refused? }

  /** Whatever the interleaving, no acceptable request is refused. */
  ghost predicate NeverRefused(H: Digest, m0: Meta, disk: seq<byte>, actors: seq<Actor>)
    requires AllUploads(actors)
  {
    forall sched: Schedule, k: nat :: k < |actors| && Accepted(m0, actors[k]) ==>
      !IsRefused(Run(H, actors, Start(m0, disk, |actors|), sched).phases[k])
  }

  /** Two ways to settle the same requests leave the same intervals. */
  lemma PartIsUnique(H: Digest, m0: Meta, actors: seq<Actor>, part: set<nat>, m: Meta, m': Meta)
    requires SessionInv(m0) && AllUploads(actors)
    requires PartSettled(H, m0, actors, part, m) && PartSettled(H, m0, actors, part, m')
    ensures m.ranges == m'.ranges
  {
    forall j ensures SamePiece(m, m', j) {
      if Targeted(actors, j) {
        var k :| 0 <= k < |actors| && actors[k].Upload? && actors[k].index == j;
        if k in part { SameEffect(H, m0, actors[k], m, m'); }
      }
    }
    SamePiecesSameMeta(m, m');
  }

  lemma SameEffect(H: Digest, m0: Meta, a: Actor, m: Meta, m': Meta)
    requires SessionInv(m0) && SessionInv(m) && SessionInv(m') && SameConstants(m0, m) && SameConstants(m0, m')
    requires a.Upload? && Accepted(m0, a) && Effect(H, m0, a, m) && Effect(H, m0, a, m')
    ensures SamePiece(m, m', a.index)
  {
    PlanShape(m0, a);
    if Good(H, m0, a) {
      assert Full(m, m.ranges, a.index) && Full(m', m'.ranges, a.index);
    }
  }

  /** How far a run got that settles the requests of `part` one by one, up to
      index n, until the metadata can no longer be read. */
  ghost predicate PartDone(part: set<nat>, n: nat, phases: seq<Phase>, readable: bool) {
    && (forall k :: 0 <= k < |phases| ==> phases[k].Arrived? || (k in part && k < n && IsSettled(phases[k])))
    && (readable ==> forall k :: 0 <= k < |phases| && k in part && k < n ==> IsSettled(phases[k]))
  }

  ghost predicate PartRun(H: Digest, m0: Meta, actors: seq<Actor>, part: set<nat>, n: nat, s: State)
    requires SessionInv(m0) && AllUploads(actors)
  {
    RunInv(H, m0, actors, s) && PartDone(part, n, s.phases, ValidMeta(s.saved.value))
  }

  lemma {:induction false} RunsPart(H: Digest, m0: Meta, s0: State, actors: seq<Actor>, part: set<nat>, n: nat)
    returns (sched: Schedule, s: State)
    requires SessionInv(m0) && DistinctPieces(actors) && PartRun(H, m0, actors, part, 0, s0)
    requires part <= AcceptedSet(m0, actors) && n <= |actors|
    ensures s == Run(H, actors, s0, sched) && PartRun(H, m0, actors, part, n, s)
  {
    if n == 0 {
      sched, s := [], s0;
    } else {
      sched, s := RunsPart(H, m0, s0, actors, part, n - 1);
      if n - 1 in part && ValidMeta(s.saved.value) {
        var tail, s' := RunsOneMore(H, m0, actors, part, n, s);
        RunOn(H, actors, s0, sched, s, tail, s');
        sched, s := sched + tail, s';
      } else {
        SkipsOne(part, n, s.phases, ValidMeta(s.saved.value));
      }
    }
  }

  lemma SkipsOne(part: set<nat>, n: nat, phases: seq<Phase>, readable: bool)
    requires 0 < n && PartDone(part, n - 1, phases, readable) && !(n - 1 in part && readable)
    ensures PartDone(part, n, phases, readable)
  {}

  lemma GrowsByOne(part: set<nat>, n: nat, phases: seq<Phase>, phases': seq<Phase>, readable: bool)
    requires 0 < n <= |phases| && PartDone(part, n - 1, phases, true) && n - 1 in part
    requires |phases'| == |phases| && phases' == phases[n - 1 := phases'[n - 1]] && IsSettled(phases'[n - 1])
    ensures PartDone(part, n, phases', readable)
  {}

  lemma RunOn(H: Digest, actors: seq<Actor>, s0: State, sched: Schedule, s: State, tail: Schedule, s': State)
    requires |actors| == |s0.phases| && s == Run(H, actors, s0, sched) && s' == Run(H, actors, s, tail)
    ensures s' == Run(H, actors, s0, sched + tail)
  {
    RunAppend(H, actors, s0, sched, tail);
  }

  lemma RunsOneMore(H: Digest, m0: Meta, actors: seq<Actor>, part: set<nat>, n: nat, s: State)
    returns (sched: Schedule, s': State)
    requires SessionInv(m0) && DistinctPieces(actors) && 0 < n <= |actors| && PartRun(H, m0, actors, part, n - 1, s)
    requires part <= AcceptedSet(m0, actors) && n - 1 in part && ValidMeta(s.saved.value)
    ensures s' == Run(H, actors, s, sched) && PartRun(H, m0, actors, part, n, s')
  {
    assert n - 1 in AcceptedSet(m0, actors);
    sched := OneFinishes(H, m0, actors, s, n - 1);
    s' := Run(H, actors, s, sched);
    FinishedIsSettled(H, m0, actors, s', n - 1);
    GrowsByOne(part, n, s.phases, s'.phases, ValidMeta(s'.saved.value));
  }

  lemma FinishedIsSettled(H: Digest, m0: Meta, actors: seq<Actor>, s: State, k: nat)
    requires SessionInv(m0) && AllUploads(actors) && RunInv(H, m0, actors, s)
    requires k < |actors| && Accepted(m0, actors[k]) && s.phases[k].Finished?
    ensures IsSettled(s.phases[k])
  {
    assert ReqInv(H, m0, actors[k], s.phases[k], s.saved.value, s.disk);
  }

  /** A part that does not fit shuts out whoever comes next. */
  lemma OverfullRefuses(H: Digest, m0: Meta, disk: seq<byte>, actors: seq<Actor>, part: set<nat>, m: Meta)
    requires SessionInv(m0) && ValidMeta(m0) && |disk| == m0.size && DistinctPieces(actors)
    requires part < AcceptedSet(m0, actors) && PartSettled(H, m0, actors, part, m) && |m.ranges| > MAX_RANGES
    ensures !NeverRefused(H, m0, disk, actors)
  {
    var s0 := Start(m0, disk, |actors|);
    StartInv(H, m0, actors, disk);
    var sched, s := RunsPart(H, m0, s0, actors, part, |actors|);
    OverfullUnreadable(H, m0, actors, part, m, s);
    var k :| k in AcceptedSet(m0, actors) && k !in part;
    var last := RefusedNext(H, actors, s0, sched, s, k);
    assert IsRefused(Run(H, actors, s0, last).phases[k]);
  }

  lemma OverfullUnreadable(H: Digest, m0: Meta, actors: seq<Actor>, part: set<nat>, m: Meta, s: State)
    requires SessionInv(m0) && ValidMeta(m0) && DistinctPieces(actors) && PartRun(H, m0, actors, part, |actors|, s)
    requires part < AcceptedSet(m0, actors) && PartSettled(H, m0, actors, part, m) && |m.ranges| > MAX_RANGES
    ensures Load(s.saved).None?
    ensures forall k :: k in AcceptedSet(m0, actors) && k !in part ==> s.phases[k].Arrived?
  {
    RunIsPart(H, m0, actors, s);
    RunValidIff(H, m0, actors, s);
    if ValidMeta(s.saved.value) {
      assert SettledSet(s.phases) == part by {
        forall k | k in part ensures k in SettledSet(s.phases) { assert k in AcceptedSet(m0, actors); }
      }
      PartIsUnique(H, m0, actors, part, m, s.saved.value);
    }
  }

  lemma RefusedNext(H: Digest, actors: seq<Actor>, s0: State, sched: Schedule, s: State, k: nat) returns (last: Schedule)
    requires |actors| == |s0.phases| && s == Run(H, actors, s0, sched)
    requires k < |actors| && actors[k].Upload? && s.phases[k].Arrived? && Load(s.saved).None?
    ensures IsRefused(Run(H, actors, s0, last).phases[k])
  {
    last := sched + [(k, 1)];
    assert last[..|sched|] == sched;
  }

  /** Acceptable requests are never refused, in any order, exactly when every
      proper part of them leaves at most as many intervals as reload accepts. */
  lemma NeverRefusedIff(H: Digest, m0: Meta, disk: seq<byte>, actors: seq<Actor>)
    requires SessionInv(m0) && ValidMeta(m0) && |disk| == m0.size && DistinctPieces(actors)
    ensures NeverRefused(H, m0, disk, actors) <==> EveryPartFits(H, m0, actors)
  {
    if EveryPartFits(H, m0, actors) {
      forall sched: Schedule, k: nat | k < |actors| && Accepted(m0, actors[k])
        ensures !IsRefused(Run(H, actors, Start(m0, disk, |actors|), sched).phases[k])
      {
        StartInv(H, m0, actors, disk);
        RunKeepsInv(H, m0, actors, Start(m0, disk, |actors|), sched);
        var s := Run(H, actors, Start(m0, disk, |actors|), sched);
        assert ReqInv(H, m0, actors[k], s.phases[k], s.saved.value, s.disk);
      }
    } else {
      var part :| part < AcceptedSet(m0, actors) && !PartFits(H, m0, actors, part);
      var m :| PartSettled(H, m0, actors, part, m) && |m.ranges| > MAX_RANGES;
      OverfullRefuses(H, m0, disk, actors, part, m);
    }
  }

  // ------------------------------------------------------------- two requests

  lemma NothingSettled(H: Digest, m0: Meta, actors: seq<Actor>)
    requires SessionInv(m0) && ValidMeta(m0) && AllUploads(actors)
    ensures PartFits(H, m0, actors, {})
  {
    assert PartSettled(H, m0, actors, {}, m0);
    forall m | PartSettled(H, m0, actors, {}, m) ensures |m.ranges| <= MAX_RANGES {
      PartIsUnique(H, m0, actors, {}, m, m0);
    }
  }

  lemma OneSettled(H: Digest, m0: Meta, disk: seq<byte>, actors: seq<Actor>, k: nat)
    requires SessionInv(m0) && ValidMeta(m0) && |disk| == m0.size && DistinctPieces(actors) && k < |actors|
    requires Accepted(m0, actors[k])
    ensures AfterAlone(H, m0, disk, actors[k]).0.Some?
    ensures PartFits(H, m0, actors, {k}) <==> |AfterAlone(H, m0, disk, actors[k]).0.value.ranges| <= MAX_RANGES
  {
    AloneIsPart(H, m0, disk, actors, k);
    var after := AfterAlone(H, m0, disk, actors[k]).0.value;
    forall m | PartSettled(H, m0, actors, {k}, m) ensures m.ranges == after.ranges {
      PartIsUnique(H, m0, actors, {k}, m, after);
    }
  }

  /** Two acceptable requests for different pieces are both served in every
      order exactly when each of them, alone, leaves the session readable. */
  lemma TwoRequestsIff(H: Digest, m0: Meta, disk: seq<byte>, a: Actor, b: Actor)
    requires SessionInv(m0) && ValidMeta(m0) && |disk| == m0.size
    requires a.Upload? && b.Upload? && a.index != b.index && Accepted(m0, a) && Accepted(m0, b)
    ensures AfterAlone(H, m0, disk, a).0.Some? && AfterAlone(H, m0, disk, b).0.Some?
    ensures NeverRefused(H, m0, disk, [a, b]) <==>
            |AfterAlone(H, m0, disk, a).0.value.ranges| <= MAX_RANGES &&
            |AfterAlone(H, m0, disk, b).0.value.ranges| <= MAX_RANGES
  {
    var actors := [a, b];
    NeverRefusedIff(H, m0, disk, actors);
    EveryPartOfTwo(H, m0, actors);
    NothingSettled(H, m0, actors);
    OneSettled(H, m0, disk, actors, 0);
    OneSettled(H, m0, disk, actors, 1);
  }

  lemma EveryPartOfTwo(H: Digest, m0: Meta, actors: seq<Actor>)
    requires SessionInv(m0) && AllUploads(actors) && |actors| == 2 && Accepted(m0, actors[0]) && Accepted(m0, actors[1])
    ensures EveryPartFits(H, m0, actors) <==>
            PartFits(H, m0, actors, {}) && PartFits(H, m0, actors, {0}) && PartFits(H, m0, actors, {1})
  {
    var all := AcceptedSet(m0, actors);
    assert all == {0, 1};
    forall part: set<nat> | part < all ensures part == {} || part == {0} || part == {1} {
      ProperPartOfTwo(part);
    }
  }

  lemma ProperPartOfTwo(part: set<nat>)
    requires part < {0, 1}
    ensures part == {} || part == {0} || part == {1}
  {
    if 0 in part {
      assert 1 !in part;
      assert part == {0};
    } else {
      assert part == if 1 in part then {1} else {};
    }
  }

  // ------------------------------------------------------- a concrete refusal

  /** Piece i of an unverified session, sent whole and without a hash. */
  predicate Bare(m: Meta, a: Actor, i: int) {
    a.Upload? && a.index == i && a.length == Hi(m, i) - Lo(m, i) && a.claim == "" && |a.body| == a.length
  }

  lemma BareAlone(H: Digest, m: Meta, disk: seq<byte>, a: Actor, i: int)
    requires SessionInv(m) && ValidMeta(m) && m.noVerify && |disk| == m.size && 0 <= i < Count(m) && Bare(m, a, i)
    ensures Accepted(m, a) && AfterAlone(H, m, disk, a).0.Some?
    ensures var m' := AfterAlone(H, m, disk, a).0.value;
            && SessionInv(m') && m' == m.(bitmap := m'.bitmap, ranges := m'.ranges)
            && forall x :: Covers(m'.ranges, x) <==> Covers(m.ranges, x) || Lo(m, i) <= x < Hi(m, i)
  {
    PiecesTile(m.size, m.pieceLen, i);
    var t := PieceTarget(m, i, "", false);
    assert ResolvePhase(Some(m), a) == Resolving(t);
    assert Plan(m, a) == Some(t);
    DeliverAddsPiece(H, m, Laid(m, disk, a), i, Deliver(H, m, Laid(m, disk, a), i));
  }

  /** Pieces 0 to 2 joined, then every second piece. */
  function JoinedRanges(m: Meta): seq<Range> {
    [Range(0, Hi(m, 2))] + EvenRanges(m, MAX_RANGES)[2..]
  }

  lemma JoinedNormal(m: Meta)
    requires m.size > 0 && m.pieceLen > 0 && Count(m) > 2 * MAX_RANGES
    ensures Normal(JoinedRanges(m))
    ensures forall x :: Covers(JoinedRanges(m), x) <==> Covers(EvenRanges(m, MAX_RANGES), x) || Lo(m, 1) <= x < Hi(m, 1)
  {
    var e, rest := EvenRanges(m, MAX_RANGES), EvenRanges(m, MAX_RANGES)[2..];
    EvenRangesNormal(m, MAX_RANGES);
    PiecesTile(m.size, m.pieceLen, 0);
    PiecesTile(m.size, m.pieceLen, 1);
    PiecesTile(m.size, m.pieceLen, 2);
    forall k | 0 <= k < |rest| ensures Hi(m, 2) < rest[k].lo && rest[k] == e[k + 2] {
      assert e[1].hi < e[k + 2].lo;
    }
    SplitFirstCover(e);
    SplitFirstCover(e[1..]);
    assert e[1..][1..] == rest;
    SplitFirstCover(JoinedRanges(m));
    assert JoinedRanges(m)[1..] == rest;
  }

  /** Every second piece of an unverified session is there, 10000 of them.  Of
      two more requests, for the next such piece and for piece 1, some order
      refuses one, although piece 1 first and then the other is served. */
  lemma SomeOrderRefuses(H: Digest, m: Meta, disk: seq<byte>, a: Actor, b: Actor)
    requires SessionInv(m) && WithinLimits(m) && m.noVerify && m.ranges == [] && m.size <= MAX_SIZE
    requires Count(m) > 2 * MAX_RANGES && |disk| == m.size
    requires Bare(m, a, 2 * MAX_RANGES) && Bare(m, b, 1)
    ensures var now := EvenRun(H, m, disk, MAX_RANGES);
            && SessionInv(now) && ValidMeta(now) && Accepted(now, a) && Accepted(now, b)
            && !NeverRefused(H, now, disk, [a, b])
            && AfterAlone(H, now, disk, b).0.Some?
            && ValidMeta(AfterAlone(H, now, disk, b).0.value)
            && HasRoom(AfterAlone(H, now, disk, b).0.value, 1)
  {
    var now := EvenRun(H, m, disk, MAX_RANGES);
    EvenRunRanges(H, m, disk, MAX_RANGES);
    ReloadIff(now);
    BareAlone(H, now, disk, a, 2 * MAX_RANGES);
    BareAlone(H, now, disk, b, 1);
    EvenRangesNormal(m, MAX_RANGES);
    EvenRangesNormal(m, MAX_RANGES + 1);
    NormalFormUnique(AfterAlone(H, now, disk, a).0.value.ranges, EvenRanges(m, MAX_RANGES + 1));
    JoinedNormal(m);
    NormalFormUnique(AfterAlone(H, now, disk, b).0.value.ranges, JoinedRanges(m));
    ReloadIff(AfterAlone(H, now, disk, b).0.value);
    TwoRequestsIff(H, now, disk, a, b);
  }
}
