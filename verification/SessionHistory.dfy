/** Whole histories of one session directory: created, reopened, upgraded and
    fed spans in any order, each step reading the metadata the previous one
    saved. */
module SessionHistory {
  import opened Wrappers
  import opened Ranges
  import opened Pieces
  import opened Session
  import opened Progress
  import opened Lifecycle
  import opened Requests
  import opened UploadOrder

  /** `disk` is whatever the unlocked writers left in the file at that time,
      `received` the length of the file of a sequential upload. */
  datatype Event =
    | Span(t: Target, disk: seq<byte>)
    | Reopen(p: InitParams)
    | Upgraded(received: int)

  function ApplySpan(H: Digest, saved: Option<Meta>, t: Target, disk: seq<byte>): Option<Meta> {
    if Malformed(t).Some? || PreCheck(Load(saved), t).Some? then saved else SettleSaved(H, saved, disk, t).0
  }

  function ApplyReopen(saved: Option<Meta>, p: InitParams): Option<Meta> {
    if !AcceptedParams(p) then saved
    else if Load(saved).None? || !SameUpload(saved.value, p) then Some(FirstSaved(p))
    else if saved.value.v == 2 && p.hashes.Some? then Some(Reinit(saved.value, p))
    else saved
  }

  /** What an init finds may go on: the same file, checked the same way, and
      cut the same way as far as both are cut at all. */
  predicate GoesOn(m: Meta, p: InitParams) {
    && ValidMeta(m) && m.name == p.name && m.size == p.size && m.noVerify == p.noVerify
    && (m.v == 2 && p.wantV2 ==> m.pieceLen == p.pieceLen)
  }

  /** A full list of recorded hashes differs from the offer somewhere. */
  predicate Conflicts(m: Meta, p: InitParams) {
    && m.v == 2 && p.hashes.Some? && |m.hashes| == |p.hashes.value|
    && exists i | 0 <= i < |m.hashes| :: m.hashes[i].Some? && m.hashes[i].value != p.hashes.value[i]
  }

  /** An accepted init always leaves a session for its own file.  What was there
      goes on, with all its progress, exactly when it is that file's and no
      offered hash conflicts; otherwise the session starts anew. */
  lemma ReopenIff(saved: Option<Meta>, p: InitParams)
    requires AcceptedParams(p) && (saved.Some? && saved.value.v == 2 ==> SessionInv(saved.value))
    ensures var next := ApplyReopen(saved, p);
            && next.Some? && next.value.name == p.name && next.value.size == p.size && next.value.noVerify == p.noVerify
            && (next.value.v == 2 && p.wantV2 ==> next.value.pieceLen == p.pieceLen)
    ensures var next, goesOn := ApplyReopen(saved, p).value, saved.Some? && GoesOn(saved.value, p) && !Conflicts(saved.value, p);
            && (goesOn ==> next == saved.value.(hashes := next.hashes))
            && (goesOn && (p.hashes.None? || saved.value.v != 2) ==> Some(next) == saved)
            && (!goesOn ==> next.v == (if p.wantV2 then 2 else 1) && next.ranges == [])
            && (!goesOn ==> forall i :: 0 <= i < |next.bitmap| ==> next.bitmap[i] == '0')
  {
    if saved.Some? && GoesOn(saved.value, p) && saved.value.v == 2 && p.hashes.Some? {
      RebuildsIff(saved.value, p);
    }
  }

  function ApplyUpgrade(saved: Option<Meta>, received: int): Option<Meta> {
    if Load(saved).None? || Upgrade(saved.value, received).None? then saved else Upgrade(saved.value, received)
  }

  function Apply(H: Digest, saved: Option<Meta>, e: Event): Option<Meta> {
    match e
    case Span(t, disk) => ApplySpan(H, saved, t, disk)
    case Reopen(p) => ApplyReopen(saved, p)
    case Upgraded(received) => ApplyUpgrade(saved, received)
  }

  function History(H: Digest, start: Option<Meta>, events: seq<Event>): Option<Meta> {
    if events == [] then start
    else Apply(H, History(H, start, events[..|events| - 1]), events[|events| - 1])
  }

  ghost predicate GoodMeta(m: Meta) {
    SessionInv(m) && WithinLimits(m)
  }

  ghost predicate GoodSaved(saved: Option<Meta>) {
    saved.Some? && saved.value.v == 2 ==> GoodMeta(saved.value)
  }

  lemma SpanKeepsGood(H: Digest, m: Meta, t: Target, disk: seq<byte>)
    requires GoodMeta(m) && Malformed(t).None? && PreCheck(Some(m), t).None?
    ensures Settle(H, Some(m), disk, t).0.Some? && GoodMeta(Settle(H, Some(m), disk, t).0.value)
    ensures var m1 := WithClaim(m, t).value;
            && WithClaim(m, t).Ok? && m1 == m.(hashes := m1.hashes)
            && Settle(H, Some(m), disk, t).0.value == Account(H, m1, disk, t.offset, t.length).0
  {
    var m1 := WithClaim(m, t).value;
    if t.hasClaim && t.index.Some? { MergeClaimShape(m, t.index.value, t.claim); }
    InvIgnoresHashes(m, m1.hashes);
    AccountKeepsInv(H, m1, disk, t.offset, t.length);
  }

  lemma ReopenKeepsGood(saved: Option<Meta>, p: InitParams)
    requires GoodSaved(saved) && AcceptedParams(p)
    ensures GoodSaved(ApplyReopen(saved, p))
  {
    if p.wantV2 { NewSessionInv(p); }
    if Load(saved).Some? && SameUpload(saved.value, p) && saved.value.v == 2 && p.hashes.Some? {
      ReinitKeepsInv(saved.value, p);
      if Resume(saved.value, p).Some? { ResumeRecordsAll(saved.value, p); }
    }
  }

  lemma ApplyKeepsGood(H: Digest, saved: Option<Meta>, e: Event)
    requires GoodSaved(saved)
    ensures GoodSaved(Apply(H, saved, e))
  {
    match e
    case Span(t, disk) =>
      if Malformed(t).None? && PreCheck(Load(saved), t).None? {
        SpanKeepsGood(H, saved.value, t, disk);
      }
    case Reopen(p) =>
      if AcceptedParams(p) { ReopenKeepsGood(saved, p); }
    case Upgraded(received) =>
      if Load(saved).Some? && saved.value.v != 2 && Upgrade(saved.value, received).Some? {
        UpgradeKeepsProgress(saved.value, received);
      }
  }

  /** In every reachable state, verified or not, bitmap and interval list
      agree piece by piece. */
  lemma {:induction false} HistoryKeepsInv(H: Digest, start: Option<Meta>, events: seq<Event>)
    requires GoodSaved(start)
    ensures GoodSaved(History(H, start, events))
  {
    if events != [] {
      HistoryKeepsInv(H, start, events[..|events| - 1]);
      ApplyKeepsGood(H, History(H, start, events[..|events| - 1]), events[|events| - 1]);
    }
  }

  // ------------------------------------------ histories of whole pieces only

  /** A span request that came through /upload_piece covers its piece. */
  ghost predicate AimedAt(saved: Option<Meta>, e: Event) {
    e.Span? && saved.Some? && saved.value.v == 2 ==>
      && e.t.index.Some? && 0 <= e.t.index.value < Count(saved.value)
      && e.t.offset == Lo(saved.value, e.t.index.value)
      && e.t.length == Hi(saved.value, e.t.index.value) - e.t.offset
  }

  /** Files of at most 64 GiB in at most 20000 pieces. */
  predicate SmallInit(e: Event) {
    e.Reopen? ==> e.p.size <= MAX_SIZE && (e.p.wantV2 ==> NeedN(e.p) <= 2 * MAX_RANGES)
  }

  ghost predicate PieceHistory(H: Digest, start: Option<Meta>, events: seq<Event>) {
    forall n :: 0 <= n < |events| ==> AimedAt(History(H, start, events[..n]), events[n]) && SmallInit(events[n])
  }

  ghost predicate SmallSaved(saved: Option<Meta>) {
    saved.Some? ==> ValidMeta(saved.value) && (saved.value.v == 2 ==> GoodMeta(saved.value) && FewIntervals(saved.value))
  }

  lemma DeliverKeepsFew(H: Digest, m: Meta, disk: seq<byte>, i: int, m': Meta)
    requires SessionInv(m) && FewIntervals(m) && 0 <= i < Count(m) && m' == Deliver(H, m, disk, i)
    ensures FewIntervals(m')
  {
    var p :| WholePiecesBut(m, m.ranges, p) && Count(m) + (if 0 <= p < Count(m) then 2 else 0) <= 2 * MAX_RANGES;
    AccountKeepsWholePieces(H, m, disk, p, i);
    assert WholePiecesBut(m', m'.ranges, p);
  }

  lemma PieceKeepsSmall(H: Digest, m: Meta, t: Target, disk: seq<byte>)
    requires SmallSaved(Some(m)) && AimedAt(Some(m), Span(t, disk)) && Malformed(t).None? && PreCheck(Some(m), t).None?
    ensures Settle(H, Some(m), disk, t).0.Some? && SmallSaved(Settle(H, Some(m), disk, t).0)
  {
    SpanKeepsGood(H, m, t, disk);
    var m1 := WithClaim(m, t).value;
    var m' := Settle(H, Some(m), disk, t).0.value;
    InvIgnoresHashes(m, m1.hashes);
    HashesDoNotMatter(m, m1);
    DeliverKeepsFew(H, m1, disk, t.index.value, m');
    SmallSessionsReload(m');
  }

  lemma ReopenKeepsSmall(saved: Option<Meta>, p: InitParams)
    requires SmallSaved(saved) && AcceptedParams(p) && SmallInit(Reopen(p))
    ensures ApplyReopen(saved, p).Some? && SmallSaved(ApplyReopen(saved, p))
  {
    ReopenKeepsGood(saved, p);
    var next := ApplyReopen(saved, p).value;
    if next.v == 2 && saved != Some(next) {
      NewSessionInv(p);
      WholePiecesAreFew(NewSession(p));
      if Load(saved).Some? && SameUpload(saved.value, p) && saved.value.v == 2 {
        ReinitKeepsFewIntervals(saved.value, p);
      }
      SmallSessionsReload(next);
    }
  }

  lemma UpgradeKeepsSmall(m: Meta, received: int)
    requires SmallSaved(Some(m)) && m.v != 2 && Upgrade(m, received).Some?
    ensures SmallSaved(Upgrade(m, received))
  {
    UpgradeKeepsProgress(m, received);
    UpgradeHasFewIntervals(m, received);
    SmallSessionsReload(Upgrade(m, received).value);
  }

  lemma PieceEventKeepsSmall(H: Digest, saved: Option<Meta>, e: Event)
    requires SmallSaved(saved) && AimedAt(saved, e) && SmallInit(e)
    ensures SmallSaved(Apply(H, saved, e))
    ensures saved.Some? ==> Apply(H, saved, e).Some?
  {
    match e
    case Span(t, disk) =>
      if Malformed(t).None? && PreCheck(Load(saved), t).None? {
        PieceKeepsSmall(H, saved.value, t, disk);
      }
    case Reopen(p) =>
      if AcceptedParams(p) { ReopenKeepsSmall(saved, p); }
    case Upgraded(received) =>
      if saved.Some? && saved.value.v != 2 && Upgrade(saved.value, received).Some? {
        UpgradeKeepsSmall(saved.value, received);
      }
  }

  /** With files of at most 64 GiB and at most 20000 pieces, a session fed
      whole pieces is never lost to the reload check, whatever the history. */
  lemma {:induction false} SmallHistoryNeverLost(H: Digest, start: Option<Meta>, events: seq<Event>)
    requires start.Some? && SmallSaved(start) && PieceHistory(H, start, events)
    ensures History(H, start, events).Some? && SmallSaved(History(H, start, events))
    ensures Load(History(H, start, events)) == History(H, start, events)
  {
    if events != [] {
      var n := |events| - 1;
      forall i | 0 <= i < n
        ensures AimedAt(History(H, start, events[..n][..i]), events[..n][i]) && SmallInit(events[..n][i])
      {
        assert events[..n][..i] == events[..i];
      }
      SmallHistoryNeverLost(H, start, events[..n]);
      PieceEventKeepsSmall(H, History(H, start, events[..n]), events[n]);
    }
  }
}
