/** Answering a download of a guest's file: from the retained prefix on disk,
    or from the prefix followed by a tail relayed live from the owner. */
module RelayServe {
  import opened Wrappers
  import RangeHeader

  type Bytes = seq<byte>

  /** One download. `supply` is what the owner pours into the pipe before it
      stops, `pulled` how much of that the copy loop takes before it stops, and
      `taken` how much of the answer the client stays for. */
  datatype Visit = Visit(
    completed: bool,
    range: string,
    ifRange: bool,
    ifRangeHolds: bool,
    ownerAlive: bool,
    claimed: bool,
    supply: Bytes,
    pulled: nat,
    taken: nat)

  datatype Reply =
    | Refused(status: int)
    | Body(status: int, start: int, end: int, body: Bytes)

  /** The file on disk, if any, and what a visit does with it. */
  datatype Outcome = Outcome(reply: Reply, retained: Option<Bytes>)

  function Received(retained: Option<Bytes>): nat { if retained.Some? then |retained.value| else 0 }

  function Content(retained: Option<Bytes>): Bytes { if retained.Some? then retained.value else [] }

  function Take(s: Bytes, n: int): (r: Bytes)
    ensures r <= s && |r| == if n <= 0 then 0 else if n < |s| then n else |s|
  {
    if n <= 0 then [] else if n < |s| then s[..n] else s
  }

  /** The bytes of `s` from start to end inclusive, as far as there are any. */
  function Slice(s: Bytes, start: int, end: int): Bytes {
    if 0 <= start <= |s| then Take(s[start..], end - start + 1) else []
  }

  predicate RangeGiven(v: Visit) { RangeHeader.TrimSpace(v.range) != "" }

  /** serveRetainedRange. */
  function FromDisk(v: Visit, retained: Option<Bytes>, start: int, end: int, partial: bool): Outcome {
    if retained.None? then Outcome(Refused(404), retained)
    else Outcome(Body(if partial then 206 else 200, start, end, Take(Slice(retained.value, start, end), v.taken)), retained)
  }

  predicate Complete(v: Visit, retained: Option<Bytes>, size: nat) {
    v.completed && retained.Some? && Received(retained) >= size && size > 0
  }

  /** What the owner is asked for: nothing it sent before. */
  function JobOffset(retained: Option<Bytes>, start: int): int {
    if start > Received(retained) then start else Received(retained)
  }

  function Pulled(v: Visit, jobLen: nat): Bytes { Take(Take(v.supply, jobLen), v.pulled) }

  /** The part of the range that is on disk already. */
  function CachedPart(retained: Option<Bytes>, start: int, end: int): Bytes {
    if retained.Some? then Slice(retained.value, start, if end >= |retained.value| then |retained.value| - 1 else end) else []
  }

  /** The cached part, then the tail the owner sends from `offset` on; a tail
      that continues the file on disk is appended to it. */
  function Spliced(v: Visit, retained: Option<Bytes>, p: RangeHeader.Range): Outcome {
    var offset := JobOffset(retained, p.start);
    var tail := if p.end < offset then [] else Pulled(v, p.end - offset + 1);
    Outcome(Body(if p.partial then 206 else 200, p.start, p.end, Take(CachedPart(retained, p.start, p.end) + tail, v.taken)),
            if offset == Received(retained) then Some(Content(retained) + tail) else retained)
  }

  /** serveGuestRelay, for the range p the header stands for. */
  function Relay(v: Visit, retained: Option<Bytes>, p: RangeHeader.Range): Outcome {
    if RangeGiven(v) && !p.partial then Outcome(Refused(416), retained)
    else if p.end < JobOffset(retained, p.start) then FromDisk(v, retained, p.start, p.end, p.partial)
    else if !v.claimed then Outcome(Refused(504), retained)
    else Spliced(v, retained, p)
  }

  /** serveGuestEntry, for the range p the header stands for. */
  function ServeRange(v: Visit, retained: Option<Bytes>, size: nat, p: RangeHeader.Range): Outcome {
    if !Complete(v, retained, size) then
      if RangeGiven(v) && p.partial && p.end < Received(retained) then FromDisk(v, retained, p.start, p.end, true)
      else if !v.ownerAlive then
        if Received(retained) > 0 then
          if !RangeGiven(v) then FromDisk(v, retained, 0, Received(retained) - 1, false)
          else Outcome(Refused(416), retained)
        else Outcome(Refused(404), retained)
      else Relay(v, retained, p)
    else
      var partial := p.partial && (!v.ifRange || v.ifRangeHolds);
      if RangeGiven(v) && !partial && !v.ifRange then Outcome(Refused(416), retained)
      else if partial then FromDisk(v, retained, p.start, p.end, true)
      else FromDisk(v, retained, 0, size - 1, false)
  }

  function Serve(v: Visit, retained: Option<Bytes>, size: nat): Outcome {
    ServeRange(v, retained, size, RangeHeader.ParseRange(v.range, size))
  }

  // ----------------------------------------------------------------- invariants

  predicate Prefix(retained: Option<Bytes>, file: Bytes) { retained.None? || retained.value <= file }

  /** The owner sends the slice it was asked for, perhaps not to the end. */
  predicate Honest(v: Visit, retained: Option<Bytes>, file: Bytes) {
    var p := RangeHeader.ParseRange(v.range, |file|);
    v.supply <= Slice(file, JobOffset(retained, p.start), p.end)
  }

  /** The bytes an answer stands for. */
  predicate IsPartOf(r: Reply, file: Bytes) {
    r.Body? ==> 0 <= r.start <= r.end + 1 <= |file| && r.body <= file[r.start..r.end + 1]
  }

  lemma SliceOfPrefix(s: Bytes, file: Bytes, start: int, end: int, n: int)
    requires s <= file && 0 <= start <= end + 1 <= |file|
    ensures Take(Slice(s, start, end), n) <= file[start..end + 1]
  {
    if start <= |s| {
      assert s[start..] == file[start..|s|];
    }
  }

  lemma RangeInside(header: string, size: nat)
    ensures var p := RangeHeader.ParseRange(header, size); 0 <= p.start <= p.end + 1 <= size
    ensures var p := RangeHeader.ParseRange(header, size); size > 0 ==> p.start <= p.end
  {}

  predicate Extends(before: Option<Bytes>, after: Option<Bytes>) {
    before.Some? ==> after.Some? && before.value <= after.value
  }

  lemma CachedIsSlice(retained: Option<Bytes>, file: Bytes, start: nat, end: int, offset: int)
    requires Prefix(retained, file) && offset == JobOffset(retained, start) && offset <= end < |file|
    ensures CachedPart(retained, start, end) == file[start..offset]
  {
    if retained.Some? && start <= |retained.value| {
      assert retained.value == file[..|retained.value|];
      assert retained.value[start..] == file[start..|retained.value|];
    }
  }

  lemma TailContinues(head: Bytes, tail: Bytes, file: Bytes, offset: nat, end: int)
    requires offset <= end + 1 <= |file| && head == file[..offset] && tail <= Slice(file, offset, end)
    ensures head + tail <= file
  {
    assert Slice(file, offset, end) == file[offset..end + 1];
    assert tail == file[offset..offset + |tail|];
    assert head + tail == file[..offset + |tail|];
  }

  lemma SplicedPrefix(cached: Bytes, tail: Bytes, file: Bytes, start: nat, offset: nat, end: int, n: int)
    requires start <= offset <= end + 1 <= |file| && cached == file[start..offset] && tail <= Slice(file, offset, end)
    ensures Take(cached + tail, n) <= file[start..end + 1]
    ensures n >= |cached + tail| && tail == Slice(file, offset, end) ==> Take(cached + tail, n) == file[start..end + 1]
  {
    assert Slice(file, offset, end) == file[offset..end + 1];
    assert file[start..end + 1] == cached + file[offset..end + 1];
  }

  predicate Sound(o: Outcome, retained: Option<Bytes>, file: Bytes) {
    Prefix(o.retained, file) && IsPartOf(o.reply, file) && Extends(retained, o.retained)
  }

  predicate Inside(p: RangeHeader.Range, file: Bytes) { 0 <= p.start <= p.end + 1 <= |file| }

  lemma SplicedIsPart(v: Visit, retained: Option<Bytes>, p: RangeHeader.Range, file: Bytes)
    requires Prefix(retained, file) && Inside(p, file) && JobOffset(retained, p.start) <= p.end
    requires v.supply <= Slice(file, JobOffset(retained, p.start), p.end)
    ensures Sound(Spliced(v, retained, p), retained, file)
  {
    var offset := JobOffset(retained, p.start);
    var tail, cached := Pulled(v, p.end - offset + 1), CachedPart(retained, p.start, p.end);
    CachedIsSlice(retained, file, p.start, p.end, offset);
    assert tail <= Slice(file, offset, p.end);
    SplicedPrefix(cached, tail, file, p.start, offset, p.end, v.taken);
    assert IsPartOf(Spliced(v, retained, p).reply, file);
    AppendIsPart(retained, tail, file, offset, p.end);
  }

  lemma AppendIsPart(retained: Option<Bytes>, tail: Bytes, file: Bytes, offset: nat, end: int)
    requires Prefix(retained, file) && offset <= end < |file| && tail <= Slice(file, offset, end)
    ensures var after := if offset == Received(retained) then Some(Content(retained) + tail) else retained;
            Prefix(after, file) && Extends(retained, after)
  {
    if offset == Received(retained) {
      TailContinues(Content(retained), tail, file, offset, end);
    }
  }

  lemma DiskIsPart(v: Visit, retained: Option<Bytes>, file: Bytes, start: int, end: int, partial: bool)
    requires Prefix(retained, file) && 0 <= start <= end + 1 <= |file|
    ensures Sound(FromDisk(v, retained, start, end, partial), retained, file)
  {
    if retained.Some? {
      SliceOfPrefix(retained.value, file, start, end, v.taken);
    }
  }

  lemma ServeRangeIsPart(v: Visit, retained: Option<Bytes>, p: RangeHeader.Range, file: Bytes)
    requires Prefix(retained, file) && Inside(p, file)
    requires v.supply <= Slice(file, JobOffset(retained, p.start), p.end)
    ensures Sound(ServeRange(v, retained, |file|, p), retained, file)
  {
    DiskIsPart(v, retained, file, p.start, p.end, p.partial);
    DiskIsPart(v, retained, file, p.start, p.end, true);
    DiskIsPart(v, retained, file, 0, |file| - 1, false);
    DiskIsPart(v, retained, file, 0, Received(retained) - 1, false);
    if JobOffset(retained, p.start) <= p.end {
      SplicedIsPart(v, retained, p, file);
    }
  }

  /** Whatever an honest owner manages to send, the retained file stays a
      prefix of the owner's file and only grows, and an answer holds the bytes
      of the range it announces, from its start. */
  lemma ServeIsPart(v: Visit, retained: Option<Bytes>, file: Bytes)
    requires Prefix(retained, file) && Honest(v, retained, file)
    ensures Sound(Serve(v, retained, |file|), retained, file)
  {
    RangeInside(v.range, |file|);
    ServeRangeIsPart(v, retained, RangeHeader.ParseRange(v.range, |file|), file);
  }

  // ---------------------------------------------------------------- full answers

  /** Nobody stops early: not the owner, not the copy, not the client. */
  predicate Uncut(v: Visit, retained: Option<Bytes>, file: Bytes) {
    var p := RangeHeader.ParseRange(v.range, |file|);
    v.taken >= |file| && v.pulled >= |file| && v.supply == Slice(file, JobOffset(retained, p.start), p.end)
  }

  /** An answer is exactly the range it announces. */
  predicate InFull(r: Reply, file: Bytes) {
    r.Body? ==> 0 <= r.start <= r.end + 1 <= |file| && r.body == file[r.start..r.end + 1]
  }

  lemma DiskInFull(v: Visit, retained: Option<Bytes>, file: Bytes, start: int, end: int, partial: bool)
    requires Prefix(retained, file) && v.taken >= |file| && 0 <= start <= end + 1 <= Received(retained)
    ensures InFull(FromDisk(v, retained, start, end, partial).reply, file)
  {
    if retained.Some? {
      assert retained.value == file[..|retained.value|];
      assert retained.value[start..][..end + 1 - start] == file[start..end + 1];
    }
  }

  lemma SplicedInFull(v: Visit, retained: Option<Bytes>, p: RangeHeader.Range, file: Bytes)
    requires Prefix(retained, file) && Inside(p, file) && JobOffset(retained, p.start) <= p.end
    requires v.taken >= |file| && v.pulled >= |file| && v.supply == Slice(file, JobOffset(retained, p.start), p.end)
    ensures Spliced(v, retained, p).reply.body == file[p.start..p.end + 1]
    ensures JobOffset(retained, p.start) == Received(retained) ==> Spliced(v, retained, p).retained == Some(file[..p.end + 1])
  {
    var offset := JobOffset(retained, p.start);
    var tail := Pulled(v, p.end - offset + 1);
    assert tail == Slice(file, offset, p.end) == file[offset..p.end + 1];
    CachedIsSlice(retained, file, p.start, p.end, offset);
    SplicedPrefix(CachedPart(retained, p.start, p.end), tail, file, p.start, offset, p.end, v.taken);
    if offset == Received(retained) {
      assert Content(retained) == file[..offset];
      assert file[..offset] + file[offset..p.end + 1] == file[..p.end + 1];
    }
  }

  lemma RelayInFull(v: Visit, retained: Option<Bytes>, p: RangeHeader.Range, file: Bytes)
    requires Prefix(retained, file) && Inside(p, file) && (p.start <= p.end || p.start == 0)
    requires v.taken >= |file| && v.pulled >= |file| && v.supply == Slice(file, JobOffset(retained, p.start), p.end)
    ensures InFull(Relay(v, retained, p).reply, file)
  {
    if p.end < JobOffset(retained, p.start) {
      DiskInFull(v, retained, file, p.start, p.end, p.partial);
    } else {
      SplicedInFull(v, retained, p, file);
    }
  }

  lemma ServeRangeInFull(v: Visit, retained: Option<Bytes>, p: RangeHeader.Range, file: Bytes)
    requires Prefix(retained, file) && Inside(p, file) && (p.start <= p.end || p.start == 0)
    requires v.taken >= |file| && v.pulled >= |file| && v.supply == Slice(file, JobOffset(retained, p.start), p.end)
    ensures InFull(ServeRange(v, retained, |file|, p).reply, file)
  {
    if Complete(v, retained, |file|) {
      DiskInFull(v, retained, file, p.start, p.end, true);
      DiskInFull(v, retained, file, 0, |file| - 1, false);
    } else if p.partial && p.end < Received(retained) {
      DiskInFull(v, retained, file, p.start, p.end, true);
      RelayInFull(v, retained, p, file);
      DiskInFull(v, retained, file, 0, Received(retained) - 1, false);
    } else {
      RelayInFull(v, retained, p, file);
      DiskInFull(v, retained, file, 0, Received(retained) - 1, false);
    }
  }

  /** An answer nobody cuts short is exactly the range it announces. */
  lemma ServeInFull(v: Visit, retained: Option<Bytes>, file: Bytes)
    requires Prefix(retained, file) && Uncut(v, retained, file)
    ensures InFull(Serve(v, retained, |file|).reply, file)
  {
    RangeInside(v.range, |file|);
    ServeRangeInFull(v, retained, RangeHeader.ParseRange(v.range, |file|), file);
  }

  lemma PlainMeansWhole(header: string, size: nat)
    requires !RangeHeader.ParseRange(header, size).partial
    ensures RangeHeader.ParseRange(header, size) == RangeHeader.Whole(size)
  {}

  lemma WholeRange(v: Visit, retained: Option<Bytes>, p: RangeHeader.Range, file: Bytes)
    requires Prefix(retained, file) && Inside(p, file) && (!p.partial ==> p == RangeHeader.Whole(|file|))
    requires var r := ServeRange(v, retained, |file|, p).reply; r.Body? && r.status == 200 && InFull(r, file)
    ensures var r := ServeRange(v, retained, |file|, p).reply;
            r.body == file <==> Complete(v, retained, |file|) || v.ownerAlive || Received(retained) == |file|
  {
    assert file[0..|file|] == file;
  }

  /** An uncut answer with status 200 is the owner's whole file, unless the
      owner is gone while the retained prefix is short of it. */
  lemma WholeAnswerIff(v: Visit, retained: Option<Bytes>, file: Bytes)
    requires Prefix(retained, file) && Uncut(v, retained, file)
    requires Serve(v, retained, |file|).reply.Body? && Serve(v, retained, |file|).reply.status == 200
    ensures Serve(v, retained, |file|).reply.body == file <==>
              Complete(v, retained, |file|) || v.ownerAlive || Received(retained) == |file|
  {
    var p := RangeHeader.ParseRange(v.range, |file|);
    ServeInFull(v, retained, file);
    RangeInside(v.range, |file|);
    if !p.partial {
      PlainMeansWhole(v.range, |file|);
    }
    WholeRange(v, retained, p, file);
  }

  /** A range is answered as such exactly when it parses and either the file is
      complete (and If-Range agrees), or the range lies in the retained prefix,
      or the owner picks up the job; what it announces is what was parsed. */
  lemma PartialIff(v: Visit, retained: Option<Bytes>, size: nat)
    ensures var p, r := RangeHeader.ParseRange(v.range, size), Serve(v, retained, size).reply;
            && (r.Body? && r.status == 206 <==>
                p.partial && if Complete(v, retained, size) then !v.ifRange || v.ifRangeHolds
                             else p.end < Received(retained) || (v.ownerAlive && v.claimed))
            && (r.Body? && r.status == 206 ==> r.start == p.start && r.end == p.end)
  {
    var p := RangeHeader.ParseRange(v.range, size);
    PartialFacts(v, size);
    PartialRange(v, retained, size, p);
  }

  lemma PartialFacts(v: Visit, size: nat)
    ensures RangeHeader.ParseRange(v.range, size).partial ==>
              RangeGiven(v) && 0 <= RangeHeader.ParseRange(v.range, size).start <= RangeHeader.ParseRange(v.range, size).end
  {}

  lemma PartialRange(v: Visit, retained: Option<Bytes>, size: nat, p: RangeHeader.Range)
    requires p.partial ==> RangeGiven(v) && 0 <= p.start <= p.end
    ensures var r := ServeRange(v, retained, size, p).reply;
            && (r.Body? && r.status == 206 <==>
                p.partial && if Complete(v, retained, size) then !v.ifRange || v.ifRangeHolds
                             else p.end < Received(retained) || (v.ownerAlive && v.claimed))
            && (r.Body? && r.status == 206 ==> r.start == p.start && r.end == p.end)
  {}

  // ------------------------------------------------------------------------ runs

  function AfterVisits(vs: seq<Visit>, retained: Option<Bytes>, size: nat): Option<Bytes> {
    if vs == [] then retained else Serve(vs[|vs| - 1], AfterVisits(vs[..|vs| - 1], retained, size), size).retained
  }

  ghost predicate HonestRun(vs: seq<Visit>, retained: Option<Bytes>, file: Bytes) {
    vs == [] ||
    var front := vs[..|vs| - 1];
    HonestRun(front, retained, file) && Honest(vs[|vs| - 1], AfterVisits(front, retained, |file|), file)
  }

  /** Every answer of the run is taken from the file. */
  ghost predicate AllParts(vs: seq<Visit>, retained: Option<Bytes>, file: Bytes) {
    vs == [] ||
    var front := vs[..|vs| - 1];
    && AllParts(front, retained, file)
    && IsPartOf(Serve(vs[|vs| - 1], AfterVisits(front, retained, |file|), |file|).reply, file)
  }

  /** Over any sequence of downloads, cut short or not, the retained file is a
      growing prefix of the owner's file and every answer is taken from it. */
  lemma {:induction false} RunIsPart(vs: seq<Visit>, retained: Option<Bytes>, file: Bytes)
    requires Prefix(retained, file) && HonestRun(vs, retained, file)
    ensures Prefix(AfterVisits(vs, retained, |file|), file) && Extends(retained, AfterVisits(vs, retained, |file|))
    ensures AllParts(vs, retained, file)
  {
    if vs != [] {
      var n := |vs| - 1;
      RunIsPart(vs[..n], retained, file);
      ServeIsPart(vs[n], AfterVisits(vs[..n], retained, |file|), file);
    }
  }

  /** One uncut relay of the whole file leaves nothing to ask the owner for:
      any range is then answered from disk. */
  lemma OneFullRelayIsEnough(v: Visit, retained: Option<Bytes>, file: Bytes, later: Visit)
    requires Prefix(retained, file) && Uncut(v, retained, file) && Received(retained) < |file|
    requires !RangeGiven(v) && v.ownerAlive && v.claimed
    requires later.taken >= |file| && RangeHeader.ParseRange(later.range, |file|).partial
    requires !later.ifRange || later.ifRangeHolds
    ensures Serve(v, retained, |file|).retained == Some(file)
    ensures var r := Serve(later, Some(file), |file|).reply; r.Body? && r.status == 206 && InFull(r, file)
  {
    WholeWithoutRange(v, |file|);
    FullRelay(v, retained, file, RangeHeader.ParseRange(v.range, |file|));
    RangeInside(later.range, |file|);
    PartialFacts(later, |file|);
    FromFullFile(later, file, RangeHeader.ParseRange(later.range, |file|));
  }

  lemma FullRelay(v: Visit, retained: Option<Bytes>, file: Bytes, p: RangeHeader.Range)
    requires Prefix(retained, file) && Received(retained) < |file| && p == RangeHeader.Range(0, |file| - 1, false)
    requires v.taken >= |file| && v.pulled >= |file| && v.supply == Slice(file, JobOffset(retained, 0), |file| - 1)
    requires !RangeGiven(v) && v.ownerAlive && v.claimed
    ensures ServeRange(v, retained, |file|, p).retained == Some(file)
  {
    SplicedInFull(v, retained, p, file);
    assert file[..|file|] == file;
  }

  lemma FromFullFile(v: Visit, file: Bytes, p: RangeHeader.Range)
    requires v.taken >= |file| && RangeGiven(v) && p.partial && 0 <= p.start <= p.end < |file|
    requires !v.ifRange || v.ifRangeHolds
    ensures var r := ServeRange(v, Some(file), |file|, p).reply; r.Body? && r.status == 206 && InFull(r, file)
  {
    DiskInFull(v, Some(file), file, p.start, p.end, true);
  }

  lemma WholeWithoutRange(v: Visit, size: nat)
    requires !RangeGiven(v) && size > 0
    ensures RangeHeader.ParseRange(v.range, size) == RangeHeader.Range(0, size - 1, false)
  {}

  // ------------------------------------------------------------- the live entry

  class GuestEntry {
    const size: nat
    /** The retained file on disk. */
    var retained: Option<Bytes>

    constructor (size: nat)
      ensures this.size == size && retained == None
    {
      this.size := size;
      retained := None;
    }

    method ServeRetainedRange(start: int, end: int, partial: bool, v: Visit) returns (reply: Reply)
      ensures Outcome(reply, retained) == FromDisk(v, retained, start, end, partial)
    {
      if retained.None? {
        return Refused(404);
      }
      return Body(if partial then 206 else 200, start, end, Take(Slice(retained.value, start, end), v.taken));
    }

    /** The copy loop of a relay: reads of any size, each appended to the
        retained file when it continues it, until the job's length is reached,
        the pipe ends or a write to the client fails. */
    method CopyTail(v: Visit, jobLen: nat, append: bool, sizes: nat -> nat) returns (tail: Bytes)
      modifies `retained
      ensures tail == Pulled(v, jobLen)
      ensures retained == if append then Some(Content(old(retained)) + tail) else old(retained)
    {
      ghost var was := retained;
      tail := [];
      if append && retained.None? {
        retained := Some([]);
      }
      var stream := Pulled(v, jobLen);
      var i, k := 0, 0;
      assert Content(was) + [] == Content(was);
      while k < |stream|
        invariant k <= |stream| && tail == stream[..k]
        invariant retained == if append then Some(Content(was) + tail) else was
        decreases |stream| - k
      {
        var n := if sizes(i) < 1 then 1 else sizes(i);
        n := if n > |stream| - k then |stream| - k else n;
        var chunk := stream[k..k + n];
        if append {
          retained := Some(Content(retained) + chunk);
        }
        Longer(stream, k, n, Content(was));
        tail := tail + chunk;
        k := k + n;
        i := i + 1;
      }
      assert stream[..|stream|] == stream;
    }

    /** serveGuestRelay for the parsed range p. */
    method ServeGuestRelay(v: Visit, p: RangeHeader.Range, sizes: nat -> nat) returns (reply: Reply)
      requires 0 <= p.start
      modifies `retained
      ensures Outcome(reply, retained) == Relay(v, old(retained), p)
    {
      if RangeGiven(v) && !p.partial {
        reply := Refused(416);
        return;
      }
      var received := Received(retained);
      var jobOffset := received;
      if p.start > jobOffset {
        jobOffset := p.start;
      }
      var jobLen := p.end - jobOffset + 1;
      if jobLen <= 0 {
        reply := ServeRetainedRange(p.start, p.end, p.partial, v);
        return;
      }
      if !v.claimed {
        reply := Refused(504);
        return;
      }
      var cached := [];
      if p.start < received {
        var cachedEnd := p.end;
        if cachedEnd >= received {
          cachedEnd := received - 1;
        }
        if cachedEnd >= p.start {
          cached := Slice(retained.value, p.start, cachedEnd);
        }
      }
      assert cached == CachedPart(retained, p.start, p.end);
      var tail := CopyTail(v, jobLen, jobOffset == received, sizes);
      reply := Body(if p.partial then 206 else 200, p.start, p.end, Take(cached + tail, v.taken));
    }

    /** The branch for a file that is not all here yet. */
    method ServeIncomplete(v: Visit, p: RangeHeader.Range, sizes: nat -> nat) returns (reply: Reply)
      requires 0 <= p.start && !Complete(v, retained, size)
      modifies `retained
      ensures Outcome(reply, retained) == ServeRange(v, old(retained), size, p)
    {
      var received := Received(retained);
      if RangeGiven(v) && p.partial && p.end < received {
        reply := ServeRetainedRange(p.start, p.end, true, v);
      } else if !v.ownerAlive {
        if received > 0 {
          if !RangeGiven(v) {
            reply := ServeRetainedRange(0, received - 1, false, v);
          } else {
            reply := Refused(416);
          }
        } else {
          reply := Refused(404);
        }
      } else {
        reply := ServeGuestRelay(v, p, sizes);
      }
    }

    /** The branch for a file that is all here, whose owner may have left. */
    method ServeComplete(v: Visit, p: RangeHeader.Range) returns (reply: Reply)
      requires Complete(v, retained, size)
      ensures Outcome(reply, retained) == ServeRange(v, retained, size, p)
    {
      var start, end, partial := p.start, p.end, p.partial;
      if partial && v.ifRange && !v.ifRangeHolds {
        partial, start, end := false, 0, size - 1;
      }
      if RangeGiven(v) && !partial && !v.ifRange {
        reply := Refused(416);
      } else if !partial {
        reply := ServeRetainedRange(0, size - 1, false, v);
      } else {
        reply := ServeRetainedRange(start, end, true, v);
      }
    }

    method ParseHeader(header: string) returns (p: RangeHeader.Range)
      requires size <= RangeHeader.MAX_INT64
      ensures p == RangeHeader.ParseRange(header, size) && 0 <= p.start
    {
      var start, end, partial := RangeHeader.Parse(header, size);
      p := RangeHeader.Range(start, end, partial);
    }

    /** serveGuestEntry. */
    method ServeGuestEntry(v: Visit, sizes: nat -> nat) returns (reply: Reply)
      requires size <= RangeHeader.MAX_INT64
      modifies `retained
      ensures Outcome(reply, retained) == Serve(v, old(retained), size)
    {
      var received := Received(retained);
      var complete := v.completed && retained.Some? && received >= size && size > 0;
      var p := ParseHeader(v.range);
      if !complete {
        reply := ServeIncomplete(v, p, sizes);
      } else {
        reply := ServeComplete(v, p);
      }
    }
  }

  lemma Longer(stream: Bytes, k: nat, n: nat, before: Bytes)
    requires k + n <= |stream|
    ensures stream[..k] + stream[k..k + n] == stream[..k + n]
    ensures before + stream[..k] + stream[k..k + n] == before + stream[..k + n]
  {}
}
