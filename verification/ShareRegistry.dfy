/** The share registry: entries by id, their order, the upload sessions behind
    guest entries, and the synchronisation with the managed folder. */
module ShareRegistry {
  import opened Wrappers

  type Id = string
  type Session = string

  /** A path below the managed folder, by components, or some path outside. */
  datatype Place = Outside(path: string) | Inside(parts: seq<string>)

  datatype Share = Share(guest: bool, host: Option<Place>, session: Option<Session>, completed: bool)

  datatype State = State(shares: map<Id, Share>, order: seq<Id>, bySession: map<Session, Id>)

  const EMPTY := State(map[], [], map[])

  // ------------------------------------------------------------------- the disk

  datatype Kind = RegularFile | Folder | OtherKind

  /** A top-level item: how many bytes a file, or files a folder, holds. */
  datatype Top = Top(name: string, kind: Kind, blocked: bool, amount: nat)

  /** What ReadDir lists of the managed folder, and the paths that exist in it. */
  datatype Disk = Disk(tops: seq<Top>, existing: set<seq<string>>)

  predicate Shareable(t: Top) {
    && !(t.name != "" && t.name[0] == '.') && !t.blocked
    && (t.kind.RegularFile? || t.kind.Folder?) && t.amount > 0
  }

  ghost predicate Coherent(disk: Disk) {
    && (forall i :: 0 <= i < |disk.tops| && Shareable(disk.tops[i]) ==> [disk.tops[i].name] in disk.existing)
    && (forall i, j :: 0 <= i < j < |disk.tops| ==> disk.tops[i].name != disk.tops[j].name)
  }

  // ------------------------------------------------------------------ operations

  function Add(s: State, id: Id, e: Share): State {
    State(s.shares[id := e], s.order + [id],
          if e.session.Some? then s.bySession[e.session.value := id] else s.bySession)
  }

  function Keep(order: seq<Id>, gone: set<Id>): (r: seq<Id>)
    ensures forall id :: id in r <==> id in order && id !in gone
  {
    if order == [] then []
    else
      var last, before := order[|order| - 1], Keep(order[..|order| - 1], gone);
      if last in gone then before else before + [last]
  }

  /** The sessions behind some entries. */
  function SessionsOf(s: State, gone: set<Id>): (r: set<Session>)
    ensures forall x :: x in r <==> exists id :: id in gone && id in s.shares && s.shares[id].session == Some(x)
  {
    set id | id in gone && id in s.shares && s.shares[id].session.Some? :: s.shares[id].session.value
  }

  /** Entries taken off every table. */
  function Remove(s: State, gone: set<Id>): State {
    State(s.shares - gone, Keep(s.order, gone), s.bySession - SessionsOf(s, gone))
  }

  function Complete(s: State, id: Id, dest: Place): State {
    if id !in s.shares then s
    else s.(shares := s.shares[id := s.shares[id].(host := Some(dest), completed := true)])
  }

  /** Top-level names that lie on the path of some entry. */
  ghost predicate Covered(s: State, name: string) {
    exists id :: id in s.shares && Covers(s.shares[id], name)
  }

  predicate Covers(e: Share, name: string) {
    e.host.Some? && e.host.value.Inside? && e.host.value.parts != [] && e.host.value.parts[0] == name
  }

  /** The bytes of a managed entry are there. */
  predicate OnDisk(e: Share, disk: Disk) {
    e.host.Some? && e.host.value.Inside? ==> e.host.value.parts in disk.existing
  }

  /** Managed entries whose bytes are gone from disk. */
  function Vanished(s: State, disk: Disk): (r: set<Id>)
    ensures forall id :: id in r <==> id in s.shares && !OnDisk(s.shares[id], disk)
  {
    set id | id in s.shares && !OnDisk(s.shares[id], disk)
  }

  ghost function Candidates(s: State, tops: seq<Top>): (r: seq<Top>)
    ensures forall t :: t in r <==> t in tops && Shareable(t) && !Covered(s, t.name)
  {
    if tops == [] then []
    else
      var t, before := tops[|tops| - 1], Candidates(s, tops[..|tops| - 1]);
      if Shareable(t) && !Covered(s, t.name) then before + [t] else before
  }

  function HostShare(t: Top): Share { Share(false, Some(Inside([t.name])), None, false) }

  function AddAll(s: State, tops: seq<Top>, ids: seq<Id>): State
    requires |ids| >= |tops|
  {
    if tops == [] then s
    else Add(AddAll(s, tops[..|tops| - 1], ids), ids[|tops| - 1], HostShare(tops[|tops| - 1]))
  }

  ghost function Room(s: State, limit: nat): nat { if |s.shares| < limit then limit - |s.shares| else 0 }

  ghost function Admitted(s: State, disk: Disk, limit: nat): (r: seq<Top>)
    ensures |r| <= |disk.tops|
  {
    var c := Candidates(s, disk.tops);
    CandidatesFit(s, disk.tops);
    if |c| <= Room(s, limit) then c else c[..Room(s, limit)]
  }

  lemma {:induction false} CandidatesFit(s: State, tops: seq<Top>)
    ensures |Candidates(s, tops)| <= |tops|
  {
    if tops != [] { CandidatesFit(s, tops[..|tops| - 1]); }
  }

  lemma {:induction false} CandidatesFront(s: State, tops: seq<Top>, k: nat)
    requires k <= |tops|
    ensures Candidates(s, tops[..k]) <= Candidates(s, tops)
    decreases |tops|
  {
    if k < |tops| {
      assert tops[..|tops| - 1][..k] == tops[..k];
      CandidatesFront(s, tops[..|tops| - 1], k);
    } else {
      assert tops[..k] == tops;
    }
  }

  /** Ids no entry has, all different, enough for every top-level item. */
  ghost predicate Fresh(s: State, disk: Disk, ids: seq<Id>) {
    && |ids| >= |disk.tops|
    && (forall i :: 0 <= i < |ids| ==> ids[i] !in s.shares)
    && (forall i, j :: 0 <= i < j < |ids| ==> ids[i] != ids[j])
  }

  /** syncTempLive: register what appeared, drop what vanished. */
  ghost function Sync(s: State, disk: Disk, limit: nat, ids: seq<Id>): State
    requires |ids| >= |disk.tops|
  {
    Remove(AddAll(s, Admitted(s, disk, limit), ids), Vanished(s, disk))
  }

  // --------------------------------------------------------------- the invariant

  /** The order lists each live id exactly once, and the session table is the
      inverse of the entries' sessions. */
  ghost predicate Inv(s: State) {
    && (forall i, j :: 0 <= i < j < |s.order| ==> s.order[i] != s.order[j])
    && (forall id :: id in s.order <==> id in s.shares)
    && (forall id :: id in s.shares && s.shares[id].session.Some? ==>
          s.shares[id].session.value in s.bySession && s.bySession[s.shares[id].session.value] == id)
    && (forall x :: x in s.bySession ==> s.bySession[x] in s.shares && s.shares[s.bySession[x]].session == Some(x))
  }

  lemma AddKeeps(s: State, id: Id, e: Share)
    requires Inv(s) && id !in s.shares && (e.session.Some? ==> e.session.value !in s.bySession)
    ensures Inv(Add(s, id, e))
  {
    assert id !in s.order;
  }

  lemma {:induction false} KeepDistinct(order: seq<Id>, gone: set<Id>)
    requires forall i, j :: 0 <= i < j < |order| ==> order[i] != order[j]
    ensures forall i, j :: 0 <= i < j < |Keep(order, gone)| ==> Keep(order, gone)[i] != Keep(order, gone)[j]
  {
    if order != [] {
      KeepDistinct(order[..|order| - 1], gone);
      assert order[|order| - 1] !in order[..|order| - 1];
    }
  }

  lemma RemoveKeeps(s: State, gone: set<Id>)
    requires Inv(s)
    ensures Inv(Remove(s, gone))
  {
    KeepDistinct(s.order, gone);
  }

  /** The tables after some top-level items were registered. */
  ghost predicate Registered(s: State, tops: seq<Top>, ids: seq<Id>, after: State)
    requires |ids| >= |tops|
  {
    && (forall id :: id in s.shares ==> id in after.shares && after.shares[id] == s.shares[id])
    && (forall i :: 0 <= i < |tops| ==> ids[i] in after.shares && after.shares[ids[i]] == HostShare(tops[i]))
    && (forall id :: id in after.shares && id !in s.shares ==> exists i :: 0 <= i < |tops| && ids[i] == id)
    && |after.shares| == |s.shares| + |tops|
  }

  lemma RegisterOne(s: State, tops: seq<Top>, t: Top, ids: seq<Id>, before: State, after: State)
    requires |ids| > |tops| && Registered(s, tops, ids, before) && ids[|tops|] !in before.shares
    requires after.shares == before.shares[ids[|tops|] := HostShare(t)]
    ensures Registered(s, tops + [t], ids, after)
  {
    var more := tops + [t];
    forall i | 0 <= i < |more| ensures ids[i] in after.shares && after.shares[ids[i]] == HostShare(more[i]) {
      if i < |tops| { assert ids[i] in before.shares && more[i] == tops[i]; }
    }
    forall id | id in after.shares && id !in s.shares ensures exists i :: 0 <= i < |more| && ids[i] == id {
      if id != ids[|tops|] { assert id in before.shares; }
    }
  }

  lemma {:induction false} AddAllRegisters(s: State, tops: seq<Top>, ids: seq<Id>, disk: Disk)
    requires Fresh(s, disk, ids) && |tops| <= |disk.tops|
    ensures Registered(s, tops, ids, AddAll(s, tops, ids))
  {
    if tops != [] {
      var n := |tops| - 1;
      var front, t := tops[..n], tops[n];
      var before, after := AddAll(s, front, ids), AddAll(s, tops, ids);
      AddAllRegisters(s, front, ids, disk);
      NotYetUsed(s, front, ids, disk, before);
      assert after.shares == before.shares[ids[n] := HostShare(t)];
      RegisterOne(s, front, t, ids, before, after);
      assert tops == front + [t];
    }
  }

  lemma NotYetUsed(s: State, tops: seq<Top>, ids: seq<Id>, disk: Disk, before: State)
    requires Fresh(s, disk, ids) && |tops| < |disk.tops| && Registered(s, tops, ids, before)
    ensures ids[|tops|] !in before.shares
  {}

  lemma {:induction false} AddAllKeeps(s: State, tops: seq<Top>, ids: seq<Id>, disk: Disk)
    requires Inv(s) && Fresh(s, disk, ids) && |tops| <= |disk.tops|
    ensures Inv(AddAll(s, tops, ids))
  {
    if tops != [] {
      var n := |tops| - 1;
      AddAllKeeps(s, tops[..n], ids, disk);
      AddAllRegisters(s, tops[..n], ids, disk);
      assert ids[n] !in AddAll(s, tops[..n], ids).shares;
      AddKeeps(AddAll(s, tops[..n], ids), ids[n], HostShare(tops[n]));
    }
  }

  // ------------------------------------------------------------------------ runs

  datatype Event =
    | AddHost(id: Id, host: Place)
    | AddGuest(id: Id, session: Session)
    | Finish(id: Id, dest: Place)
    | Unshare(id: Id)
    | Restore(id: Id, host: Place)
    | SyncTemp(disk: Disk, limit: nat, ids: seq<Id>)

  ghost predicate Enabled(s: State, e: Event) {
    match e
    case AddHost(id, _) => id !in s.shares
    case AddGuest(id, session) => id !in s.shares && session !in s.bySession
    case Restore(id, _) => id !in s.shares
    case SyncTemp(disk, _, ids) => Fresh(s, disk, ids)
    case _ => true
  }

  ghost function Apply(s: State, e: Event): State {
    match e
    case AddHost(id, host) => Add(s, id, Share(false, Some(host), None, false))
    case AddGuest(id, session) => Add(s, id, Share(true, None, Some(session), false))
    case Finish(id, dest) => Complete(s, id, dest)
    case Unshare(id) => Remove(s, {id})
    case Restore(id, host) => Add(s, id, Share(true, Some(host), None, true))
    case SyncTemp(disk, limit, ids) => if |ids| < |disk.tops| then s else Sync(s, disk, limit, ids)
  }

  lemma SyncKeeps(s: State, disk: Disk, limit: nat, ids: seq<Id>)
    requires Inv(s) && Fresh(s, disk, ids)
    ensures Inv(Sync(s, disk, limit, ids))
  {
    AddAllKeeps(s, Admitted(s, disk, limit), ids, disk);
    RemoveKeeps(AddAll(s, Admitted(s, disk, limit), ids), Vanished(s, disk));
  }

  lemma StepKeeps(s: State, e: Event)
    requires Inv(s) && Enabled(s, e)
    ensures Inv(Apply(s, e))
  {
    match e
    case AddHost(id, host) => AddKeeps(s, id, Share(false, Some(host), None, false));
    case AddGuest(id, session) => AddKeeps(s, id, Share(true, None, Some(session), false));
    case Finish(_, _) =>
    case Unshare(id) => RemoveKeeps(s, {id});
    case Restore(id, host) => AddKeeps(s, id, Share(true, Some(host), None, true));
    case SyncTemp(disk, limit, ids) => SyncKeeps(s, disk, limit, ids);
  }

  ghost function After(events: seq<Event>): State {
    if events == [] then EMPTY else Apply(After(events[..|events| - 1]), events[|events| - 1])
  }

  ghost predicate Run(events: seq<Event>) {
    events == [] ||
    (Run(events[..|events| - 1]) && Enabled(After(events[..|events| - 1]), events[|events| - 1]))
  }

  /** In every run the tables agree. */
  lemma {:induction false} RunKeepsInv(events: seq<Event>)
    requires Run(events)
    ensures Inv(After(events))
  {
    if events != [] {
      RunKeepsInv(events[..|events| - 1]);
      StepKeeps(After(events[..|events| - 1]), events[|events| - 1]);
    }
  }

  // ---------------------------------------------------------------- synchronisation

  /** Registry and managed folder agree: no entry's bytes are gone, and every
      shareable item has an entry or the registry is full. */
  ghost predicate Settled(s: State, disk: Disk, limit: nat) {
    Vanished(s, disk) == {} && (|s.shares| >= limit || Candidates(s, disk.tops) == [])
  }

  lemma {:induction false} NothingToKeepOut(order: seq<Id>)
    ensures Keep(order, {}) == order
  {
    if order != [] {
      NothingToKeepOut(order[..|order| - 1]);
      assert order == order[..|order| - 1] + [order[|order| - 1]];
    }
  }

  lemma RemoveNothing(s: State)
    ensures Remove(s, {}) == s
  {
    NothingToKeepOut(s.order);
    assert SessionsOf(s, {}) == {};
  }

  /** A pass over a settled registry changes nothing. */
  lemma SettledStays(s: State, disk: Disk, limit: nat, ids: seq<Id>)
    requires Settled(s, disk, limit) && |ids| >= |disk.tops|
    ensures Sync(s, disk, limit, ids) == s
  {
    assert Admitted(s, disk, limit) == [];
    RemoveNothing(s);
  }

  lemma AdmittedAreShareable(s: State, disk: Disk, limit: nat)
    ensures forall t :: t in Admitted(s, disk, limit) ==> t in disk.tops && Shareable(t)
  {
    forall t | t in Admitted(s, disk, limit) ensures t in disk.tops && Shareable(t) {
      assert t in Candidates(s, disk.tops);
    }
  }

  /** One pass drops every entry whose bytes are gone. */
  lemma NothingVanished(s: State, disk: Disk, limit: nat, ids: seq<Id>)
    requires Coherent(disk) && Fresh(s, disk, ids)
    ensures Vanished(Sync(s, disk, limit, ids), disk) == {}
  {
    var tops := Admitted(s, disk, limit);
    var added, after := AddAll(s, tops, ids), Sync(s, disk, limit, ids);
    AddAllRegisters(s, tops, ids, disk);
    AdmittedAreShareable(s, disk, limit);
    forall id | id in after.shares ensures OnDisk(after.shares[id], disk) {
      assert id in added.shares && after.shares[id] == added.shares[id];
      AddedOnDisk(s, tops, ids, added, disk, id);
    }
  }

  lemma AddedOnDisk(s: State, tops: seq<Top>, ids: seq<Id>, added: State, disk: Disk, id: Id)
    requires |ids| >= |tops| && Registered(s, tops, ids, added) && Coherent(disk)
    requires forall t :: t in tops ==> t in disk.tops && Shareable(t)
    requires id in added.shares && id !in Vanished(s, disk)
    ensures OnDisk(added.shares[id], disk)
  {
    if id !in s.shares {
      var i :| 0 <= i < |tops| && ids[i] == id;
      assert tops[i] in disk.tops && Shareable(tops[i]);
    }
  }

  lemma {:induction false} NoCandidates(s: State, tops: seq<Top>)
    requires forall t :: t in tops && Shareable(t) ==> Covered(s, t.name)
    ensures Candidates(s, tops) == []
  {
    if tops != [] {
      assert tops[|tops| - 1] in tops;
      NoCandidates(s, tops[..|tops| - 1]);
    }
  }

  lemma ItemCovers(s: State, tops: seq<Top>, ids: seq<Id>, after: State, t: Top)
    requires |ids| >= |tops| && Registered(s, tops, ids, after) && t in tops
    ensures Covered(after, t.name)
  {
    var i :| 0 <= i < |tops| && tops[i] == t;
    assert Covers(after.shares[ids[i]], t.name);
  }

  lemma AllCovered(s: State, disk: Disk, ids: seq<Id>, after: State)
    requires |ids| >= |Candidates(s, disk.tops)| && Registered(s, Candidates(s, disk.tops), ids, after)
    ensures Candidates(after, disk.tops) == []
  {
    var tops := Candidates(s, disk.tops);
    forall t | t in disk.tops && Shareable(t) ensures Covered(after, t.name) {
      if Covered(s, t.name) {
        var id :| id in s.shares && Covers(s.shares[id], t.name);
        assert Covers(after.shares[id], t.name);
      } else {
        assert t in tops;
        ItemCovers(s, tops, ids, after, t);
      }
    }
    NoCandidates(after, disk.tops);
  }

  /** A pass over a registry none of whose bytes are gone settles it. */
  lemma OnePassSettles(s: State, disk: Disk, limit: nat, ids: seq<Id>)
    requires Coherent(disk) && Fresh(s, disk, ids) && Vanished(s, disk) == {}
    ensures Settled(Sync(s, disk, limit, ids), disk, limit)
  {
    var tops := Admitted(s, disk, limit);
    var after := AddAll(s, tops, ids);
    NothingVanished(s, disk, limit, ids);
    RemoveNothing(after);
    AddAllRegisters(s, tops, ids, disk);
    if |after.shares| < limit {
      AllCovered(s, disk, ids, after);
    }
  }

  /** On an unchanged disk two passes always settle the registry, so that no
      further pass changes anything. */
  lemma TwoPassesSettle(s: State, disk: Disk, limit: nat, first: seq<Id>, second: seq<Id>, more: seq<Id>)
    requires Coherent(disk) && Fresh(s, disk, first) && |more| >= |disk.tops|
    requires Fresh(Sync(s, disk, limit, first), disk, second)
    ensures var t := Sync(Sync(s, disk, limit, first), disk, limit, second);
            Settled(t, disk, limit) && Sync(t, disk, limit, more) == t
  {
    NothingVanished(s, disk, limit, first);
    OnePassSettles(Sync(s, disk, limit, first), disk, limit, second);
    SettledStays(Sync(Sync(s, disk, limit, first), disk, limit, second), disk, limit, more);
  }

  /** A state is left alone by every further pass exactly when it is settled. */
  lemma SettledIff(s: State, disk: Disk, limit: nat, ids: seq<Id>)
    requires Coherent(disk) && Fresh(s, disk, ids)
    ensures Sync(s, disk, limit, ids) == s <==> Settled(s, disk, limit)
  {
    if Settled(s, disk, limit) {
      SettledStays(s, disk, limit, ids);
    } else if Sync(s, disk, limit, ids) == s {
      NothingVanished(s, disk, limit, ids);
      OnePassSettles(s, disk, limit, ids);
    }
  }

  /** What one pass leaves: the entries whose bytes are there, and one for each
      admitted item. */
  ghost predicate Synced(s: State, disk: Disk, tops: seq<Top>, ids: seq<Id>, after: State)
    requires |ids| >= |tops|
  {
    && (forall id :: id in s.shares && OnDisk(s.shares[id], disk) ==> id in after.shares && after.shares[id] == s.shares[id])
    && (forall i :: 0 <= i < |tops| ==> ids[i] in after.shares && after.shares[ids[i]] == HostShare(tops[i]))
    && (forall id :: id in after.shares ==>
          (id in s.shares && OnDisk(s.shares[id], disk) && after.shares[id] == s.shares[id])
          || exists i :: 0 <= i < |tops| && ids[i] == id)
  }

  lemma SyncLeaves(s: State, disk: Disk, limit: nat, ids: seq<Id>)
    requires Fresh(s, disk, ids)
    ensures Synced(s, disk, Admitted(s, disk, limit), ids, Sync(s, disk, limit, ids))
    ensures |Sync(s, disk, limit, ids).shares| == |s.shares| + |Admitted(s, disk, limit)| - |Vanished(s, disk)|
  {
    var tops, gone := Admitted(s, disk, limit), Vanished(s, disk);
    var added, after := AddAll(s, tops, ids), Sync(s, disk, limit, ids);
    AddAllRegisters(s, tops, ids, disk);
    assert after.shares.Keys == added.shares.Keys - gone;
    assert added.shares.Keys == after.shares.Keys + gone;
    assert |added.shares.Keys| == |added.shares| && |after.shares.Keys| == |after.shares|;
    forall i | 0 <= i < |tops| ensures ids[i] !in gone && after.shares[ids[i]] == HostShare(tops[i]) {
      assert ids[i] in added.shares;
    }
  }

  /** A surviving entry lies on the item's path. */
  ghost predicate StillCovered(s: State, disk: Disk, name: string) {
    exists id :: id in s.shares && OnDisk(s.shares[id], disk) && Covers(s.shares[id], name)
  }

  lemma CoveredAfterIff(s: State, disk: Disk, tops: seq<Top>, ids: seq<Id>, after: State, t: Top)
    requires |ids| >= |tops| && Synced(s, disk, tops, ids, after) && Coherent(disk) && t in disk.tops
    requires forall u :: u in tops ==> u in disk.tops
    ensures Covered(after, t.name) <==> t in tops || StillCovered(s, disk, t.name)
  {
    if Covered(after, t.name) {
      var id :| id in after.shares && Covers(after.shares[id], t.name);
      if i :| 0 <= i < |tops| && ids[i] == id {
        assert tops[i] in disk.tops && tops[i].name == t.name;
        assert tops[i] == t;
      }
    }
    if t in tops {
      var i :| 0 <= i < |tops| && tops[i] == t;
      assert Covers(after.shares[ids[i]], t.name);
    }
  }

  lemma {:induction false} NoCandidatesIff(s: State, tops: seq<Top>)
    ensures Candidates(s, tops) == [] <==> forall t :: t in tops && Shareable(t) ==> Covered(s, t.name)
  {
    if Candidates(s, tops) == [] {
      forall t | t in tops && Shareable(t) ensures Covered(s, t.name) {
        assert t !in Candidates(s, tops);
      }
    } else {
      assert Candidates(s, tops)[0] in Candidates(s, tops);
    }
    if forall t :: t in tops && Shareable(t) ==> Covered(s, t.name) {
      NoCandidates(s, tops);
    }
  }

  /** Exactly when one pass is enough: the registry is full afterwards, or every
      shareable item was admitted or lies on the path of an entry whose bytes
      are there. */
  lemma OnePassSettlesIff(s: State, disk: Disk, limit: nat, ids: seq<Id>)
    requires Coherent(disk) && Fresh(s, disk, ids)
    ensures Settled(Sync(s, disk, limit, ids), disk, limit) <==>
            || |s.shares| + |Admitted(s, disk, limit)| - |Vanished(s, disk)| >= limit
            || forall t :: t in disk.tops && Shareable(t) ==>
                 t in Admitted(s, disk, limit) || StillCovered(s, disk, t.name)
  {
    var tops, after := Admitted(s, disk, limit), Sync(s, disk, limit, ids);
    NothingVanished(s, disk, limit, ids);
    SyncLeaves(s, disk, limit, ids);
    AdmittedAreShareable(s, disk, limit);
    NoCandidatesIff(after, disk.tops);
    forall t | t in disk.tops ensures Covered(after, t.name) <==> t in tops || StillCovered(s, disk, t.name) {
      CoveredAfterIff(s, disk, tops, ids, after, t);
    }
  }

  /** One pass is not enough when what it drops was hiding something: here an
      entry for a deleted file inside a folder that is still there. */
  lemma OnePassMayNotSettle()
    ensures var disk := Disk([Top("a", Folder, false, 1)], {["a"]});
            var gone := Share(false, Some(Inside(["a", "x"])), None, false);
            var s := State(map["old" := gone], ["old"], map[]);
            Coherent(disk) && Inv(s) && Fresh(s, disk, ["n"]) && !Settled(Sync(s, disk, 5, ["n"]), disk, 5)
  {
    var disk := Disk([Top("a", Folder, false, 1)], {["a"]});
    var gone := Share(false, Some(Inside(["a", "x"])), None, false);
    var s := State(map["old" := gone], ["old"], map[]);
    assert Covers(s.shares["old"], "a");
    NoCandidates(s, disk.tops);
    var after := Sync(s, disk, 5, ["n"]);
    assert "old" in Vanished(s, disk);
    assert after.shares == map[];
    assert disk.tops[0] in Candidates(after, disk.tops);
  }
}
