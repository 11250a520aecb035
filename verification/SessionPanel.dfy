/** The sessions panel: which uploads it offers to go on with.  Finished ones
    are skipped, the others sorted by progress and cut to fifty. */
module SessionPanel {
  import opened Wrappers
  import opened Ranges
  import opened Session
  import opened Progress

  const PANEL_MAX := 50

  /** One directory of the uploads folder: its name, its metadata, and the size
      of its data file, if that file is there. */
  datatype SessionFile = SessionFile(id: string, meta: Meta, dataSize: Option<int>)

  datatype Listed = Listed(id: string, meta: Meta, received: int, missing: int)

  function Receive(f: SessionFile): Option<int> {
    if f.meta.v == 2 then Some(ReceivedBytes(f.meta.ranges)) else f.dataSize
  }

  predicate Unfinished(f: SessionFile) {
    Receive(f).Some? && !(f.meta.size > 0 && Receive(f).value >= f.meta.size)
  }

  function Entry(f: SessionFile): Listed
    requires Unfinished(f)
  {
    Listed(f.id, f.meta, Receive(f).value, if f.meta.v == 2 then |Missing(f.meta)| else -1)
  }

  function UnfinishedUpTo(files: seq<SessionFile>, k: nat): seq<Listed>
    requires k <= |files|
  {
    if k == 0 then []
    else UnfinishedUpTo(files, k - 1) + (if Unfinished(files[k - 1]) then [Entry(files[k - 1])] else [])
  }

  function AllUnfinished(files: seq<SessionFile>): seq<Listed> { UnfinishedUpTo(files, |files|) }

  ghost predicate ByReceived(s: seq<Listed>) {
    forall i, j :: 0 <= i < j < |s| ==> s[i].received >= s[j].received
  }

  function Cut(s: seq<Listed>): seq<Listed> { if |s| > PANEL_MAX then s[..PANEL_MAX] else s }

  /** The sort is not stable, so any order of equally far sessions may come out. */
  ghost predicate PanelOf(all: seq<Listed>, out: seq<Listed>) {
    exists sorted: seq<Listed> :: multiset(sorted) == multiset(all) && ByReceived(sorted) && out == Cut(sorted)
  }

  /** A sequential upload is open while its file is there and not full. */
  lemma SequentialUnfinishedIff(f: SessionFile)
    requires f.meta.v != 2 && f.meta.size > 0
    ensures Unfinished(f) <==> f.dataSize.Some? && f.dataSize.value < f.meta.size
    ensures Unfinished(f) ==> Entry(f) == Listed(f.id, f.meta, f.dataSize.value, -1)
  {}

  ghost function Unmarked(m: Meta): set<int> {
    set i | 0 <= i < |m.bitmap| && m.bitmap[i] != '1'
  }

  lemma {:induction false} MissingCount(bm: seq<char>, k: nat)
    requires k <= |bm|
    ensures |MissingUpTo(bm, k)| == |set i | 0 <= i < k && bm[i] != '1'|
  {
    var all := set i | 0 <= i < k && bm[i] != '1';
    if k == 0 {
      assert all == {};
    } else {
      var before := set i | 0 <= i < k - 1 && bm[i] != '1';
      MissingCount(bm, k - 1);
      assert all == if bm[k - 1] != '1' then before + {k - 1} else before;
    }
  }

  /** For a session in pieces the entry tells how many bytes are received and
      how many pieces are not marked. */
  lemma EntryTells(f: SessionFile)
    requires SessionInv(f.meta) && Unfinished(f)
    ensures Entry(f).id == f.id && Entry(f).meta == f.meta
    ensures Entry(f).received == |CoveredSet(f.meta.ranges, f.meta.size)|
    ensures Entry(f).missing == |Unmarked(f.meta)|
  {
    ReceivedCountsCovered(f.meta.ranges, f.meta.size);
    MissingCount(f.meta.bitmap, |f.meta.bitmap|);
  }

  // --------------------------------------------------------------- the handler

  method InsertByReceived(sorted: seq<Listed>, l: Listed) returns (more: seq<Listed>)
    requires ByReceived(sorted)
    ensures ByReceived(more) && multiset(more) == multiset(sorted) + multiset{l}
  {
    var at := |sorted|;
    while at > 0 && sorted[at - 1].received < l.received
      invariant 0 <= at <= |sorted|
      invariant forall k :: at <= k < |sorted| ==> sorted[k].received < l.received
    {
      at := at - 1;
    }
    more := sorted[..at] + [l] + sorted[at..];
    Inserted(sorted, at, l);
  }

  lemma Inserted(sorted: seq<Listed>, at: nat, l: Listed)
    requires ByReceived(sorted) && at <= |sorted|
    requires forall k :: at <= k < |sorted| ==> sorted[k].received < l.received
    requires at > 0 ==> sorted[at - 1].received >= l.received
    ensures ByReceived(sorted[..at] + [l] + sorted[at..])
    ensures multiset(sorted[..at] + [l] + sorted[at..]) == multiset(sorted) + multiset{l}
  {
    assert sorted == sorted[..at] + sorted[at..];
    ConcatByReceived(sorted[..at], [l]);
    ConcatByReceived(sorted[..at] + [l], sorted[at..]);
  }

  lemma ConcatByReceived(a: seq<Listed>, b: seq<Listed>)
    requires ByReceived(a) && ByReceived(b)
    requires a != [] && b != [] ==> a[|a| - 1].received >= b[0].received
    ensures ByReceived(a + b)
  {
    forall i, j | 0 <= i < |a| && 0 <= j < |b| ensures a[i].received >= b[j].received {
      assert i < |a| - 1 ==> a[i].received >= a[|a| - 1].received;
      assert 0 < j ==> b[0].received >= b[j].received;
    }
  }

  /** Stands for the library's sort by received bytes, largest first. */
  method SortByReceived(all: seq<Listed>) returns (sorted: seq<Listed>)
    ensures ByReceived(sorted) && multiset(sorted) == multiset(all)
  {
    sorted := [];
    for i := 0 to |all|
      invariant ByReceived(sorted) && multiset(sorted) == multiset(all[..i])
    {
      assert all[..i + 1] == all[..i] + [all[i]];
      sorted := InsertByReceived(sorted, all[i]);
    }
    assert all[..|all|] == all;
  }

  method HandleUploadSessions(files: seq<SessionFile>) returns (out: seq<Listed>)
    ensures PanelOf(AllUnfinished(files), out)
  {
    out := [];
    for i := 0 to |files|
      invariant out == UnfinishedUpTo(files, i)
    {
      var m := files[i].meta;
      var received, missing := 0, -1;
      if m.v == 2 {
        received, missing := ReceivedBytes(m.ranges), |Missing(m)|;
      } else if files[i].dataSize.None? {
        continue;
      } else {
        received := files[i].dataSize.value;
      }
      if m.size > 0 && received >= m.size {
        continue;
      }
      out := out + [Listed(files[i].id, m, received, missing)];
    }
    var sorted := SortByReceived(out);
    out := sorted;
    if |out| > PANEL_MAX {
      out := out[..PANEL_MAX];
    }
    assert out == Cut(sorted);
  }

  // ----------------------------------------------------------- what is listed

  lemma {:induction false} UnfinishedAre(files: seq<SessionFile>, k: nat, l: Listed)
    requires k <= |files|
    ensures l in UnfinishedUpTo(files, k) <==> exists i :: 0 <= i < k && Unfinished(files[i]) && l == Entry(files[i])
  {
    if k > 0 {
      UnfinishedAre(files, k - 1, l);
    }
  }

  /** Sessions are directories, so their names differ. */
  ghost predicate DistinctIds(files: seq<SessionFile>) {
    forall i, j :: 0 <= i < j < |files| ==> files[i].id != files[j].id
  }

  lemma {:induction false} UnfinishedOnce(files: seq<SessionFile>, k: nat, l: Listed)
    requires k <= |files| && DistinctIds(files)
    ensures multiset(UnfinishedUpTo(files, k))[l] <= 1
  {
    if k > 0 {
      UnfinishedOnce(files, k - 1, l);
      if Unfinished(files[k - 1]) && l == Entry(files[k - 1]) {
        UnfinishedAre(files, k - 1, l);
        assert l !in UnfinishedUpTo(files, k - 1);
        assert l !in multiset(UnfinishedUpTo(files, k - 1));
      }
    }
  }

  lemma SameMembers(a: seq<Listed>, b: seq<Listed>, l: Listed)
    requires multiset(a) == multiset(b)
    ensures |a| == |b| && (l in a <==> l in b)
  {
    assert |multiset(a)| == |a| && |multiset(b)| == |b|;
    assert l in a <==> l in multiset(a);
    assert l in b <==> l in multiset(b);
  }

  /** What the panel shows are unfinished sessions, at most fifty, largest
      progress first; whoever is left out was cut, and has received no more
      than anyone shown. */
  lemma PanelShows(files: seq<SessionFile>, out: seq<Listed>)
    requires PanelOf(AllUnfinished(files), out)
    ensures |out| == if |AllUnfinished(files)| > PANEL_MAX then PANEL_MAX else |AllUnfinished(files)|
    ensures ByReceived(out)
    ensures forall l :: l in out ==> exists i :: 0 <= i < |files| && Unfinished(files[i]) && l == Entry(files[i])
    ensures forall i, l :: 0 <= i < |files| && Unfinished(files[i]) && Entry(files[i]) !in out && l in out ==>
              |AllUnfinished(files)| > PANEL_MAX && l.received >= Entry(files[i]).received
  {
    var all := AllUnfinished(files);
    var sorted :| multiset(sorted) == multiset(all) && ByReceived(sorted) && out == Cut(sorted);
    forall l ensures |sorted| == |all| && (l in sorted <==> l in all) {
      SameMembers(sorted, all, l);
    }
    forall l | l in out ensures exists i :: 0 <= i < |files| && Unfinished(files[i]) && l == Entry(files[i]) {
      assert l in sorted;
      UnfinishedAre(files, |files|, l);
    }
    forall i, l | 0 <= i < |files| && Unfinished(files[i]) && Entry(files[i]) !in out && l in out
      ensures |all| > PANEL_MAX && l.received >= Entry(files[i]).received
    {
      UnfinishedAre(files, |files|, Entry(files[i]));
      CutKeepsLargest(sorted, l, Entry(files[i]));
    }
  }

  lemma CutKeepsLargest(sorted: seq<Listed>, shown: Listed, hidden: Listed)
    requires ByReceived(sorted) && shown in Cut(sorted) && hidden in sorted && hidden !in Cut(sorted)
    ensures |sorted| > PANEL_MAX && shown.received >= hidden.received
  {
    var h :| 0 <= h < |sorted| && sorted[h] == hidden;
    var s :| 0 <= s < |Cut(sorted)| && Cut(sorted)[s] == shown;
    assert forall k :: 0 <= k < |Cut(sorted)| ==> Cut(sorted)[k] == sorted[k];
  }

  /** No unfinished session is missing from the panel exactly when there are at
      most fifty of them. */
  lemma PanelListsIff(files: seq<SessionFile>, out: seq<Listed>)
    requires DistinctIds(files) && PanelOf(AllUnfinished(files), out)
    ensures (forall i :: 0 <= i < |files| && Unfinished(files[i]) ==> Entry(files[i]) in out)
       <==> |AllUnfinished(files)| <= PANEL_MAX
  {
    var all := AllUnfinished(files);
    PanelShows(files, out);
    if |all| <= PANEL_MAX {
      forall i | 0 <= i < |files| && Unfinished(files[i]) ensures Entry(files[i]) in out {
        var sorted :| multiset(sorted) == multiset(all) && ByReceived(sorted) && out == Cut(sorted);
        UnfinishedAre(files, |files|, Entry(files[i]));
        SameMembers(sorted, all, Entry(files[i]));
      }
    } else {
      var l := SomeoneCut(files, out);
      UnfinishedAre(files, |files|, l);
    }
  }

  lemma SomeoneCut(files: seq<SessionFile>, out: seq<Listed>) returns (l: Listed)
    requires DistinctIds(files) && PanelOf(AllUnfinished(files), out) && |AllUnfinished(files)| > PANEL_MAX
    ensures l in AllUnfinished(files) && l !in out
  {
    var all := AllUnfinished(files);
    var sorted :| multiset(sorted) == multiset(all) && ByReceived(sorted) && out == Cut(sorted);
    SameMembers(sorted, all, all[0]);
    l := sorted[PANEL_MAX];
    SameMembers(sorted, all, l);
    UnfinishedOnce(files, |files|, l);
    assert sorted == out + [l] + sorted[PANEL_MAX + 1..];
    assert multiset(sorted)[l] == multiset(out)[l] + 1 + multiset(sorted[PANEL_MAX + 1..])[l];
    assert l !in multiset(out);
  }

  ghost predicate Appears(out: seq<Listed>, id: string) { exists l :: l in out && l.id == id }

  /** The panel hides every V2 session that would pass the missing-pieces gate
      of completion.  It hides one that would not only if more than fifty are
      unfinished, and among V2 sessions it then does. */
  lemma PanelHidesFinished(files: seq<SessionFile>, out: seq<Listed>)
    requires DistinctIds(files) && PanelOf(AllUnfinished(files), out)
    ensures forall i :: 0 <= i < |files| && SessionInv(files[i].meta) && Missing(files[i].meta) == [] ==>
              !Appears(out, files[i].id)
    ensures forall i :: 0 <= i < |files| && SessionInv(files[i].meta) && Missing(files[i].meta) != [] && !Appears(out, files[i].id) ==>
              |AllUnfinished(files)| > PANEL_MAX
    ensures (forall i :: 0 <= i < |files| ==> SessionInv(files[i].meta)) && |AllUnfinished(files)| > PANEL_MAX ==>
              exists i :: 0 <= i < |files| && Missing(files[i].meta) != [] && !Appears(out, files[i].id)
  {
    PanelListsIff(files, out);
    forall i | 0 <= i < |files| ensures Appears(out, files[i].id) <==> Unfinished(files[i]) && Entry(files[i]) in out {
      OnlyItsEntry(files, out, i);
    }
    forall i | 0 <= i < |files| && SessionInv(files[i].meta) ensures Unfinished(files[i]) <==> Missing(files[i].meta) != [] {
      FinishedViewsAgree(files[i].meta);
    }
  }

  /** A session appears under its own name only as its own entry. */
  lemma OnlyItsEntry(files: seq<SessionFile>, out: seq<Listed>, i: int)
    requires DistinctIds(files) && PanelOf(AllUnfinished(files), out) && 0 <= i < |files|
    ensures Appears(out, files[i].id) <==> Unfinished(files[i]) && Entry(files[i]) in out
  {
    PanelShows(files, out);
    if l :| l in out && l.id == files[i].id {
      var j :| 0 <= j < |files| && Unfinished(files[j]) && l == Entry(files[j]);
      assert i == j;
    }
    if Unfinished(files[i]) && Entry(files[i]) in out {
      assert Entry(files[i]).id == files[i].id;
    }
  }
}
