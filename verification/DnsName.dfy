/** Domain names on the wire (section 4.1.4 of RFC 1035): reading labels and
    compression pointers, and writing a name without compression. */
module DnsName {
  import opened Wrappers

  type Bytes = seq<byte>

  const DOT: byte := 46
  const MAX_STEPS := 64
  const MAX_LABEL := 63

  /** Lower-casing of one label; any function will do for reading. */
  type Lowering = Bytes -> Bytes

  // ------------------------------------------------------------ one wire step

  datatype Move = Root | Label(text: Bytes, next: nat) | Jump(target: nat) | Stuck

  function MoveAt(msg: Bytes, off: nat): Move {
    if off >= |msg| then Stuck
    else
      var b := msg[off] as int;
      if b / 64 == 3 then
        if off + 1 >= |msg| then Stuck else Jump(b % 64 * 256 + msg[off + 1] as int)
      else if b == 0 then Root
      else if b / 64 != 0 || off + 1 + b > |msg| then Stuck
      else Label(msg[off + 1..off + 1 + b], off + 1 + b)
  }

  /** Where a walk stands after k moves; None once it stopped. */
  function Position(msg: Bytes, off: nat, k: nat): Option<nat>
    decreases k
  {
    if k == 0 then Some(off)
    else
      match MoveAt(msg, off)
      case Label(_, next) => Position(msg, next, k - 1)
      case Jump(target) => Position(msg, target, k - 1)
      case _ => None
  }

  /** The labels met on the way to the root within `fuel` moves, counting the
      one that reads the root. */
  function Labels(msg: Bytes, off: nat, fuel: nat): Option<seq<Bytes>>
    decreases fuel
  {
    if fuel == 0 then None
    else
      match MoveAt(msg, off)
      case Root => Some([])
      case Stuck => None
      case Jump(target) => Labels(msg, target, fuel - 1)
      case Label(word, next) =>
        var rest := Labels(msg, next, fuel - 1);
        if rest.None? then None else Some([word] + rest.value)
  }

  /** The offset just past the first pointer or the root. */
  function End(msg: Bytes, off: nat, fuel: nat): nat
    decreases fuel
  {
    if fuel == 0 then off
    else
      match MoveAt(msg, off)
      case Root => off + 1
      case Jump(_) => off + 2
      case Label(_, next) => End(msg, next, fuel - 1)
      case Stuck => off
  }

  function Join(labels: seq<Bytes>): Bytes {
    if labels == [] then []
    else if |labels| == 1 then labels[0]
    else labels[0] + [DOT] + Join(labels[1..])
  }

  function LowerAll(labels: seq<Bytes>, lower: Lowering): seq<Bytes> {
    seq(|labels|, i requires 0 <= i < |labels| => lower(labels[i]))
  }

  datatype Name = Name(text: Bytes, end: nat)

  /** What readName computes in at most `steps` moves, without any memory of
      visited offsets. */
  function Read(msg: Bytes, off: nat, lower: Lowering, steps: nat): Option<Name> {
    var labels := Labels(msg, off, steps);
    if labels.None? then None
    else Some(Name(Join(LowerAll(labels.value, lower)), End(msg, off, steps)))
  }

  // ---------------------------------------------------- walks that never end

  lemma OneMove(msg: Bytes, off: nat, next: nat, k: nat, fuel: nat)
    requires (MoveAt(msg, off).Label? && MoveAt(msg, off).next == next) || MoveAt(msg, off) == Jump(next)
    requires k > 0 && Labels(msg, off, fuel).Some?
    ensures Position(msg, off, k) == Position(msg, next, k - 1)
    ensures fuel > 0 && Labels(msg, next, fuel - 1).Some?
  {}

  /** A walk that is still going after k moves needs k more fuel. */
  lemma {:induction false} LabelsNeedFuel(msg: Bytes, off: nat, k: nat, fuel: nat)
    requires Position(msg, off, k).Some? && Labels(msg, off, fuel).Some?
    ensures fuel > k && Labels(msg, Position(msg, off, k).value, fuel - k).Some?
    decreases k
  {
    if k > 0 {
      var move := MoveAt(msg, off);
      var next := if move.Label? then move.next else move.target;
      OneMove(msg, off, next, k, fuel);
      LabelsNeedFuel(msg, next, k - 1, fuel - 1);
    }
  }

  /** A walk that comes back to where it was reaches no root, ever. */
  lemma {:induction false} CycleNeverEnds(msg: Bytes, off: nat, d: nat, fuel: nat)
    requires d > 0 && Position(msg, off, d) == Some(off)
    ensures Labels(msg, off, fuel) == None
  {
    if Labels(msg, off, fuel).Some? {
      LabelsNeedFuel(msg, off, d, fuel);
      CycleNeverEnds(msg, off, d, fuel - d);
    }
  }

  lemma {:induction false} PositionAdd(msg: Bytes, off: nat, j: nat, k: nat)
    requires Position(msg, off, j).Some?
    ensures Position(msg, off, j + k) == Position(msg, Position(msg, off, j).value, k)
    decreases j
  {
    if j > 0 {
      match MoveAt(msg, off)
      case Label(_, next) => PositionAdd(msg, next, j - 1, k);
      case Jump(target) => PositionAdd(msg, target, j - 1, k);
    }
  }

  /** The visited check rejects only walks that would never end. */
  lemma RevisitNeverEnds(msg: Bytes, off: nat, j: nat, k: nat, fuel: nat)
    requires j < k && Position(msg, off, j).Some? && Position(msg, off, j) == Position(msg, off, k)
    ensures Labels(msg, off, fuel) == None
  {
    PositionAdd(msg, off, j, k - j);
    if Labels(msg, off, fuel).Some? {
      LabelsNeedFuel(msg, off, j, fuel);
      CycleNeverEnds(msg, Position(msg, off, j).value, k - j, fuel - j);
    }
  }

  ghost predicate ReachesRoot(msg: Bytes, off: nat, k: nat) {
    Position(msg, off, k).Some? && MoveAt(msg, Position(msg, off, k).value).Root?
  }

  /** Reading succeeds exactly when the root is met within the allowed moves. */
  lemma {:induction false} LabelsIff(msg: Bytes, off: nat, fuel: nat)
    ensures Labels(msg, off, fuel).Some? <==> exists k :: 0 <= k < fuel && ReachesRoot(msg, off, k)
    decreases fuel, 1
  {
    if fuel > 0 {
      match MoveAt(msg, off)
      case Root => assert ReachesRoot(msg, off, 0);
      case Stuck =>
        forall k | 0 <= k < fuel ensures !ReachesRoot(msg, off, k) {}
      case Label(_, next) => LabelsIffStep(msg, off, next, fuel);
      case Jump(target) => LabelsIffStep(msg, off, target, fuel);
    }
  }

  lemma LabelsIffStep(msg: Bytes, off: nat, next: nat, fuel: nat)
    requires fuel > 0
    requires (MoveAt(msg, off).Label? && MoveAt(msg, off).next == next) || MoveAt(msg, off) == Jump(next)
    ensures Labels(msg, off, fuel).Some? <==> exists k :: 0 <= k < fuel && ReachesRoot(msg, off, k)
    decreases fuel, 0
  {
    LabelsIff(msg, next, fuel - 1);
    if Labels(msg, next, fuel - 1).Some? {
      var k :| 0 <= k < fuel - 1 && ReachesRoot(msg, next, k);
      assert ReachesRoot(msg, off, k + 1);
    }
    if k :| 0 <= k < fuel && ReachesRoot(msg, off, k) {
      assert k > 0;
      assert ReachesRoot(msg, next, k - 1);
    }
  }

  // --------------------------------------------------- what single bytes mean

  /** A pointer (section 4.1.4 of RFC 1035) stands for the name at the offset
      in its low 14 bits, and ends the name it stands in. */
  lemma PointerReads(msg: Bytes, off: nat, target: nat, lower: Lowering, steps: nat)
    requires off + 1 < |msg| && target < 0x4000 && steps > 0
    requires msg[off] as int == 192 + target / 256 && msg[off + 1] as int == target % 256
    ensures Read(msg, off, lower, steps).Some? <==> Read(msg, target, lower, steps - 1).Some?
    ensures Read(msg, off, lower, steps).Some? ==>
              Read(msg, off, lower, steps).value == Name(Read(msg, target, lower, steps - 1).value.text, off + 2)
  {
    assert MoveAt(msg, off) == Jump(target);
  }

  /** Nothing is read where a name would start outside the packet, with a
      length from 64 to 191, with half a pointer, or with a label that runs
      past the end. */
  lemma NothingRead(msg: Bytes, off: nat, lower: Lowering, steps: nat)
    requires || off >= |msg|
             || 64 <= msg[off] < 192
             || (msg[off] >= 192 && off + 1 == |msg|)
             || (0 < msg[off] < 64 && off + 1 + msg[off] as int > |msg|)
    ensures Read(msg, off, lower, steps) == None
  {}

  /** A label is its length, up to 63, and that many bytes. */
  lemma LabelReads(msg: Bytes, off: nat, word: Bytes, fuel: nat)
    requires 0 < |word| < 64 && off + 1 + |word| <= |msg| && fuel > 0
    requires msg[off] as int == |word| && msg[off + 1..off + 1 + |word|] == word
    ensures Labels(msg, off, fuel).Some? <==> Labels(msg, off + 1 + |word|, fuel - 1).Some?
    ensures Labels(msg, off, fuel).Some? ==>
              Labels(msg, off, fuel).value == [word] + Labels(msg, off + 1 + |word|, fuel - 1).value
  {
    assert MoveAt(msg, off) == Label(word, off + 1 + |word|);
  }

  // ------------------------------------------------------------------- readName

  /** Labels already read, put in front of what is still to come. */
  function Prepend(parts: seq<Bytes>, rest: Option<seq<Bytes>>): Option<seq<Bytes>> {
    if rest.None? then None else Some(parts + rest.value)
  }

  /** The offsets of the first |trail| moves, and the set kept of them. */
  ghost predicate Seen(msg: Bytes, start: nat, trail: seq<nat>, visited: set<nat>) {
    && (forall k :: 0 <= k < |trail| ==> Position(msg, start, k) == Some(trail[k]))
    && (forall x :: x in visited <==> x in trail)
  }

  lemma SeenMore(msg: Bytes, start: nat, trail: seq<nat>, visited: set<nat>, off: nat)
    requires Seen(msg, start, trail, visited) && Position(msg, start, |trail|) == Some(off)
    ensures Seen(msg, start, trail + [off], visited + {off})
  {
    assert forall x :: x in trail + [off] <==> x in trail || x == off;
  }

  lemma SeenTwice(msg: Bytes, start: nat, trail: seq<nat>, visited: set<nat>, off: nat, lower: Lowering, steps: nat)
    requires Seen(msg, start, trail, visited) && Position(msg, start, |trail|) == Some(off) && off in visited
    ensures Read(msg, start, lower, steps) == None
  {
    var k :| 0 <= k < |trail| && trail[k] == off;
    RevisitNeverEnds(msg, start, k, |trail|, steps);
  }

  lemma NextPosition(msg: Bytes, start: nat, i: nat, here: nat, next: nat)
    requires Position(msg, start, i) == Some(here)
    requires (MoveAt(msg, here).Label? && MoveAt(msg, here).next == next) || MoveAt(msg, here) == Jump(next)
    ensures Position(msg, start, i + 1) == Some(next)
  {
    PositionAdd(msg, start, i, 1);
    assert Position(msg, next, 0) == Some(next);
  }

  /** The state of the reading loop after i moves. */
  ghost predicate Walked(msg: Bytes, start: nat, i: nat, off: nat, labels: seq<Bytes>, jumped: bool, end: nat, steps: nat) {
    && i <= steps
    && Position(msg, start, i) == Some(off)
    && Labels(msg, start, steps) == Prepend(labels, Labels(msg, off, steps - i))
    && End(msg, start, steps) == (if jumped then end else End(msg, off, steps - i))
  }

  lemma WalkStarts(msg: Bytes, start: nat, steps: nat)
    ensures Walked(msg, start, 0, start, [], false, start, steps)
  {
    var rest := Labels(msg, start, steps);
    if rest.Some? { assert [] + rest.value == rest.value; }
  }

  lemma WalkJumps(msg: Bytes, start: nat, i: nat, off: nat, labels: seq<Bytes>, jumped: bool, end: nat, steps: nat, end': nat)
    requires Walked(msg, start, i, off, labels, jumped, end, steps) && i < steps && MoveAt(msg, off).Jump?
    requires end' == if jumped then end else off + 2
    ensures Walked(msg, start, i + 1, MoveAt(msg, off).target, labels, true, end', steps)
  {
    NextPosition(msg, start, i, off, MoveAt(msg, off).target);
  }

  lemma WalkReads(msg: Bytes, start: nat, i: nat, off: nat, labels: seq<Bytes>, jumped: bool, end: nat, steps: nat,
                  labels': seq<Bytes>, next: nat, end': nat)
    requires Walked(msg, start, i, off, labels, jumped, end, steps) && i < steps
    requires |labels'| > 0 && MoveAt(msg, off) == Label(labels'[|labels'| - 1], next)
    requires labels' == labels + [labels'[|labels'| - 1]] && end' == if jumped then end else next
    ensures Walked(msg, start, i + 1, next, labels', jumped, end', steps)
  {
    var text := labels'[|labels'| - 1];
    NextPosition(msg, start, i, off, next);
    var rest := Labels(msg, next, steps - i - 1);
    if rest.Some? { assert labels + ([text] + rest.value) == labels' + rest.value; }
  }

  lemma WalkEnds(msg: Bytes, start: nat, i: nat, off: nat, labels: seq<Bytes>, jumped: bool, end: nat, steps: nat, lower: Lowering)
    requires Walked(msg, start, i, off, labels, jumped, end, steps)
    ensures i < steps && MoveAt(msg, off).Root? ==>
              Read(msg, start, lower, steps) == Some(Name(Join(LowerAll(labels, lower)), if jumped then end else off + 1))
    ensures i == steps || MoveAt(msg, off).Stuck? ==> Read(msg, start, lower, steps) == None
  {
    assert labels + [] == labels;
  }

  /** The loop of readName; its guard allows `steps` moves. */
  method ReadWithin(msg: Bytes, start: nat, lower: Lowering, steps: nat) returns (r: Option<Name>)
    ensures r == Read(msg, start, lower, steps)
  {
    var off: nat := start;
    var parts: seq<Bytes> := [];
    ghost var labels: seq<Bytes> := [];
    ghost var trail: seq<nat> := [];
    var visited: set<nat> := {};
    var jumped := false;
    var end: nat := off;
    WalkStarts(msg, start, steps);
    var i := 0;
    while i < steps
      invariant 0 <= i <= steps
      invariant |trail| == i && Seen(msg, start, trail, visited)
      invariant parts == LowerAll(labels, lower)
      invariant Walked(msg, start, i, off, labels, jumped, end, steps)
    {
      WalkEnds(msg, start, i, off, labels, jumped, end, steps, lower);
      if off >= |msg| {
        return None;
      }
      if off in visited {
        SeenTwice(msg, start, trail, visited, off, lower, steps);
        return None;
      }
      SeenMore(msg, start, trail, visited, off);
      visited := visited + {off};
      trail := trail + [off];
      var b := msg[off] as int;
      if b / 64 == 3 {
        if off + 1 >= |msg| {
          return None;
        }
        var ptr := b % 64 * 256 + msg[off + 1] as int;
        WalkJumps(msg, start, i, off, labels, jumped, end, steps, if jumped then end else off + 2);
        if !jumped {
          end := off + 2;
        }
        off := ptr;
        jumped := true;
      } else {
        if b == 0 {
          if !jumped {
            end := off + 1;
          }
          return Some(Name(Join(parts), end));
        }
        if b / 64 != 0 || off + 1 + b > |msg| {
          return None;
        }
        ghost var here, was, before := off, end, labels;
        var word := msg[off + 1..off + 1 + b];
        parts := parts + [lower(word)];
        labels := labels + [word];
        off := off + 1 + b;
        if !jumped {
          end := off;
        }
        WalkReads(msg, start, i, here, before, jumped, was, steps, labels, off, end);
      }
      i := i + 1;
    }
    WalkEnds(msg, start, i, off, labels, jumped, end, steps, lower);
    return None;
  }

  method ReadName(msg: Bytes, start: nat, lower: Lowering) returns (r: Option<Name>)
    ensures r == Read(msg, start, lower, MAX_STEPS)
  {
    r := ReadWithin(msg, start, lower, MAX_STEPS);
  }
}
