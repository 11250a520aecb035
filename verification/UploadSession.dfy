/** The upload engine in its own imperative form.  Each method is proved
    equal to the function of the same purpose in `Session` and `Requests`. */
module UploadSession {
  import opened Wrappers
  import opened Ranges
  import opened Pieces
  import opened Session
  import opened Requests
  import opened Progress
  import Lifecycle

  /** Metadata loaded from disk and edited in memory. */
  class SessionMeta {
    var v: int
    var name: string
    var size: int
    var pieceLen: int
    var hashes: seq<Option<string>>
    var bitmap: seq<char>
    var ranges: seq<Range>
    var noVerify: bool

    function View(): Meta
      reads this
    {
      Meta(v, name, size, pieceLen, hashes, bitmap, ranges, noVerify)
    }

    constructor (m: Meta)
      ensures View() == m
    {
      v, name, size, pieceLen := m.v, m.name, m.size, m.pieceLen;
      hashes, bitmap, ranges, noVerify := m.hashes, m.bitmap, m.ranges, m.noVerify;
    }

    method RangeAdd(s: int, e: int)
      modifies this`ranges
      ensures ranges == AddRange(old(ranges), size, s, e)
    {
      if e <= s {
        return;
      }
      var s', e' := s, e;
      if s' < 0 {
        s' := 0;
      }
      if size > 0 {
        if s' > size {
          return;
        }
        if e' > size {
          e' := size;
        }
      }
      var sorted := SortRanges(ranges + [Range(s', e')]);
      var merged: seq<Range> := [];
      var i := 0;
      while i < |sorted|
        invariant 0 <= i <= |sorted|
        invariant Coalesce(merged, sorted[i..]) == Coalesce([], sorted)
      {
        var r := sorted[i];
        if |merged| > 0 && r.lo <= merged[|merged| - 1].hi {
          var last := merged[|merged| - 1];
          assert last == Range(last.lo, Max(last.hi, last.hi));
          if r.hi > last.hi {
            merged := merged[|merged| - 1 := Range(last.lo, r.hi)];
          } else {
            assert merged[|merged| - 1 := last] == merged;
          }
        } else {
          merged := merged + [r];
        }
        i := i + 1;
      }
      assert sorted[i..] == [];
      ranges := merged;
    }

    method RangeRemove(s: int, e: int)
      modifies this`ranges
      ensures ranges == RemoveRange(old(ranges), s, e)
    {
      var out: seq<Range> := [];
      var i := 0;
      while i < |ranges|
        invariant 0 <= i <= |ranges| && ranges == old(ranges)
        invariant out == RemoveRange(ranges[..i], s, e)
      {
        var r := ranges[i];
        assert ranges[..i + 1][..i] == ranges[..i];
        if r.hi <= s || e <= r.lo {
          out := out + [r];
        } else {
          if r.lo < s {
            out := out + [Range(r.lo, s)];
          }
          if e < r.hi {
            out := out + [Range(e, r.hi)];
          }
        }
        i := i + 1;
      }
      assert ranges[..i] == ranges;
      ranges := out;
    }

    method ReceivedRangesBytes() returns (total: int)
      ensures total == ReceivedBytes(ranges)
    {
      total := 0;
      for i := 0 to |ranges|
        invariant total == ReceivedBytes(ranges[..i])
      {
        assert ranges[..i + 1][..i] == ranges[..i];
        if ranges[i].hi > ranges[i].lo {
          total := total + (ranges[i].hi - ranges[i].lo);
        }
      }
      assert ranges[..|ranges|] == ranges;
    }

    method MissingPieces() returns (out: seq<int>)
      ensures out == Missing(View())
    {
      var bm := GetBitmap(View());
      out := [];
      for i := 0 to |bm|
        invariant out == MissingUpTo(bm, i)
      {
        if bm[i] != '1' {
          out := out + [i];
        }
      }
    }

    method ContiguousOffset() returns (off: int)
      ensures off == Progress.ContiguousOffset(View())
    {
      var bm := GetBitmap(View());
      off := 0;
      var i := 0;
      while i < |bm| && bm[i] == '1'
        invariant 0 <= i <= |bm|
        invariant off == OffsetAfter(View(), i)
        invariant ContiguousFrom(View(), bm, 0) == ContiguousFrom(View(), bm, i)
      {
        off := Hi(View(), i);
        i := i + 1;
      }
    }

    /** resumeV2: merge newly offered hashes, or report that the session has
        to be rebuilt. */
    method Resume(p: Lifecycle.InitParams) returns (conflict: bool)
      requires p.hashes.Some? && |p.hashes.value| == Lifecycle.NeedN(p)
      modifies this`hashes
      ensures conflict <==> Lifecycle.Resume(old(View()), p).None?
      ensures View() == if conflict then old(View()) else Lifecycle.Resume(old(View()), p).value
    {
      if pieceLen != 0 && pieceLen != p.pieceLen {
        return true;
      }
      var n, offered := Lifecycle.NeedN(p), Lifecycle.Offered(p);
      var stored := if |hashes| != n then seq(n, _ => None) else hashes;
      for i := 0 to n
        invariant forall j :: 0 <= j < i ==> !(stored[j].Some? && offered[j].Some? && stored[j] != offered[j])
      {
        if stored[i].Some? && offered[i].Some? && stored[i] != offered[i] {
          return true;
        }
      }
      var merged, changed := [], false;
      for i := 0 to n
        invariant |merged| == i && forall j :: 0 <= j < i ==> merged[j] == if stored[j].None? then offered[j] else stored[j]
        invariant changed <==> exists j :: 0 <= j < i && stored[j].None? && offered[j].Some?
      {
        if stored[i].None? {
          merged := merged + [offered[i]];
          if offered[i].Some? {
            changed := true;
          }
        } else {
          merged := merged + [stored[i]];
        }
      }
      assert merged == Lifecycle.MergeHashes(stored, offered);
      if changed {
        hashes := merged;
      }
      return false;
    }

    /** upgradeGuestV1ToV2, given the length of the sequential file: whether
        the session could be upgraded. */
    method Upgrade(length: int) returns (ok: bool)
      modifies this
      ensures ok <==> Lifecycle.Upgrade(old(View()), length).Some?
      ensures View() == if ok then Lifecycle.Upgrade(old(View()), length).value else old(View())
    {
      if v == 2 {
        return true;
      }
      if size <= 0 {
        return false;
      }
      var needN := PieceCount(size, PIECE_DEFAULT);
      if needN <= 0 || needN > MAX_PIECES {
        return false;
      }
      var received := length;
      if received < 0 {
        received := 0;
      }
      if received > size {
        received := size;
      }
      var bm: seq<char> := [];
      for i := 0 to needN
        modifies {}
        invariant |bm| == i
        invariant forall j :: 0 <= j < i ==> bm[j] == if PieceHi(size, PIECE_DEFAULT, j) <= received then '1' else '0'
      {
        bm := bm + [if PieceHi(size, PIECE_DEFAULT, i) <= received then '1' else '0'];
      }
      assert bm == Lifecycle.UpgradeBits(size, needN, received);
      v, pieceLen, hashes, bitmap, noVerify := 2, PIECE_DEFAULT, seq(needN, _ => None), bm, false;
      ranges := if received > 0 then [Range(0, received)] else [];
      return true;
    }

    method MergeClaimHash(ci: int, claim: string) returns (err: Option<Refusal>)
      modifies this`hashes
      ensures match MergeClaim(old(View()), ci, claim)
              case Ok(m) => err == None && View() == m
              case Err(why) => err == Some(why)
    {
      if ci < 0 || ci >= Count(View()) {
        return Some(BadIndex);
      }
      ghost var before := hashes;
      while |hashes| <= ci
        invariant |before| <= |hashes| && (|hashes| <= ci + 1 || hashes == before)
        invariant hashes == before + seq(|hashes| - |before|, _ => None)
        decreases ci + 1 - |hashes|
      {
        hashes := hashes + [None];
      }
      assert hashes == Grown(before, ci);
      if hashes[ci].Some? && hashes[ci].value != claim {
        return Some(Conflict);
      }
      hashes := hashes[ci := Some(claim)];
      return None;
    }

    method VerifySpan(H: Digest, data: array<byte>, offset: int, length: int) returns (bad: seq<int>)
      requires pieceLen > 0
      modifies this`bitmap, this`ranges
      ensures (View(), bad) == Session.VerifySpan(H, old(View()), data[..], offset, length)
    {
      ghost var was, disk := View(), data[..];
      var first := FirstPiece(View(), offset);
      var last := LastPiece(View(), offset, length);
      bad := [];
      var bm := GetBitmap(View());
      ghost var start := Scan(bm, ranges, []);
      var i := first;
      while i <= last && i < Count(View())
        invariant first <= i && data[..] == disk
        invariant View() == was.(ranges := ranges) && |bm| == Count(was)
        invariant ScanSpan(H, was, disk, first, last, start)
               == ScanSpan(H, was, disk, i, last, Scan(bm, ranges, bad))
        decreases Count(was) - i
      {
        var lo, hi := Lo(View(), i), Hi(View(), i);
        ghost var before := Scan(bm, ranges, bad);
        if bm[i] != '1' && RangeCover(ranges, lo, hi) {
          if noVerify || VerifyPiece(H, View(), data[..], i) {
            bm := bm[i := '1'];
          } else {
            bm := bm[i := '0'];
            RangeRemove(lo, hi);
            bad := bad + [i];
          }
        }
        assert Scan(bm, ranges, bad) == ScanPiece(H, was, disk, i, before);
        i := i + 1;
      }
      bitmap := bm;
    }
  }

  /** validMeta, in the order the server checks. */
  method ValidMeta(m: Meta) returns (ok: bool)
    ensures ok <==> Lifecycle.ValidMeta(m)
  {
    if m.size < 0 || m.size > MAX_SIZE {
      return false;
    }
    if m.v == 2 && (m.pieceLen <= 0 || m.pieceLen > CHUNK_MAX) {
      return false;
    }
    if |m.ranges| > MAX_RANGES {
      return false;
    }
    for i := 0 to |m.ranges|
      invariant forall k :: 0 <= k < i ==> 0 <= m.ranges[k].lo <= m.ranges[k].hi <= m.size + 1
    {
      var r := m.ranges[i];
      if r.lo < 0 || r.hi < r.lo || r.hi > m.size + 1 {
        return false;
      }
    }
    if m.v == 2 {
      var n := if m.size > 0 && m.pieceLen > 0 then (m.size + m.pieceLen - 1) / m.pieceLen else 0;
      if n > MAX_PIECES {
        return false;
      }
      if |m.bitmap| != 0 && |m.bitmap| != n {
        return false;
      }
      if |m.hashes| > n + 1 {
        return false;
      }
    }
    return true;
  }

  /** One session directory: the saved metadata and the sparse data file. */
  class SessionDir {
    var saved: Option<Meta>
    const data: array<byte>

    constructor (m: Meta, data: array<byte>)
      ensures saved == Some(m) && this.data == data
    {
      saved, this.data := Some(m), data;
    }

    /** loadMeta: what was saved, unless the reload check rejects it. */
    method LoadMeta() returns (found: Option<Meta>)
      ensures found == Lifecycle.Load(saved)
    {
      if saved.None? {
        return None;
      }
      var ok := ValidMeta(saved.value);
      return if ok then saved else None;
    }

    method Check(t: Target) returns (err: Option<Refusal>)
      ensures err == PreCheck(Lifecycle.Load(saved), t)
    {
      var found := LoadMeta();
      if found.None? || found.value.v != 2 {
        return Some(SessionGone);
      }
      var m := new SessionMeta(found.value);
      if t.offset + t.length > m.size {
        return Some(OverSize);
      }
      if t.hasClaim && t.index.Some? {
        err := m.MergeClaimHash(t.index.value, t.claim);
      } else {
        err := None;
      }
    }

    /** Copy the body to disk, at most `length` bytes of it. */
    method StreamBody(offset: int, length: int, body: seq<byte>) returns (written: nat)
      requires 0 <= offset && 0 <= length && offset + length <= data.Length
      modifies data
      ensures written == if |body| < length then |body| else length
      ensures data[..] == Overlay(old(data[..]), offset, body[..written])
    {
      written := 0;
      while written < length && written < |body|
        invariant 0 <= written <= length && written <= |body|
        invariant forall x :: 0 <= x < data.Length ==>
          data[x] == if offset <= x < offset + written then body[x - offset] else old(data[x])
      {
        data[offset + written] := body[written];
        written := written + 1;
      }
    }

    method SettleSpan(H: Digest, t: Target) returns (out: Outcome)
      modifies this`saved
      ensures (saved, out) == SettleSaved(H, old(saved), data[..], t)
    {
      var found := LoadMeta();
      if found.None? || found.value.v != 2 {
        return Refused(SessionGone);
      }
      var m := new SessionMeta(found.value);
      if t.hasClaim && t.index.Some? {
        var err := m.MergeClaimHash(t.index.value, t.claim);
        if err.Some? {
          return Refused(err.value);
        }
      }
      m.RangeAdd(t.offset, t.offset + t.length);
      var bad := m.VerifySpan(H, data, t.offset, t.length);
      saved := Some(m.View());
      return Settled(bad);
    }
  }
}
