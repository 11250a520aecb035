/** What single operations do to the share registry, what a synchronisation
    registers and drops, and that the order is the order of arrival. */
module ShareTimes {
  import opened Wrappers
  import opened ShareRegistry

  // ------------------------------------------------------------ one operation

  /** What each operation leaves of the entries. */
  lemma OperationChanges(s: State, e: Event)
    requires Inv(s) && Enabled(s, e) && !e.SyncTemp?
    ensures var now := Apply(s, e).shares;
            match e
            case AddHost(id, host) => now == s.shares[id := Share(false, Some(host), None, false)]
            case AddGuest(id, session) => now == s.shares[id := Share(true, None, Some(session), false)]
            case Restore(id, host) => now == s.shares[id := Share(true, Some(host), None, true)]
            case Unshare(id) => now.Keys == s.shares.Keys - {id} && forall o :: o in now ==> now[o] == s.shares[o]
            case Finish(id, dest) =>
              && now.Keys == s.shares.Keys
              && (forall o :: o in now && o != id ==> now[o] == s.shares[o])
              && (id in now ==> now[id] == Share(s.shares[id].guest, Some(dest), s.shares[id].session, true))
  {}

  // -------------------------------------------------------- a synchronisation

  /** An item that is to be shared: not a dot name, not blocked, a file with
      bytes or a folder with files. */
  predicate ToBeShared(t: Top) {
    && (t.name == "" || t.name[0] != '.') && !t.blocked && t.amount >= 1
    && (t.kind == RegularFile || t.kind == Folder)
  }

  ghost predicate FirstNamed(s: State, name: string) {
    exists id :: id in s.shares && StartsAt(s.shares[id].host, name)
  }

  /** The place lies in the managed folder, below or at the item. */
  predicate StartsAt(host: Option<Place>, name: string) {
    host.Some? && host.value.Inside? && host.value.parts != [] && host.value.parts[0] == name
  }

  /** A pass drops exactly the managed entries whose bytes are gone and leaves
      the others as they are. */
  lemma SyncKeeps(s: State, disk: Disk, limit: nat, ids: seq<Id>, id: Id)
    requires Fresh(s, disk, ids) && id in s.shares
    ensures var now, host := Sync(s, disk, limit, ids).shares, s.shares[id].host;
            && (id !in now <==> host.Some? && host.value.Inside? && host.value.parts !in disk.existing)
            && (id in now ==> now[id] == s.shares[id])
  {
    AddAllRegisters(s, Admitted(s, disk, limit), ids, disk);
  }

  /** Entry id stands for an item to be shared, that no entry lay on before. */
  ghost predicate NewItem(s: State, disk: Disk, after: State, id: Id, t: Top) {
    && t in disk.tops && ToBeShared(t) && !FirstNamed(s, t.name)
    && id in after.shares && id !in s.shares && after.shares[id] == Share(false, Some(Inside([t.name])), None, false)
  }

  lemma OnlyItems(s: State, disk: Disk, tops: seq<Top>, ids: seq<Id>, after: State, id: Id) returns (t: Top)
    requires |ids| >= |tops| && Synced(s, disk, tops, ids, after) && id in after.shares && id !in s.shares
    requires forall u :: u in tops ==> u in disk.tops && Shareable(u) && !Covered(s, u.name)
    ensures NewItem(s, disk, after, id, t)
  {
    var i :| 0 <= i < |tops| && ids[i] == id;
    t := tops[i];
    assert t in tops;
    NotNamed(s, t.name);
  }

  /** What a pass registers are items to be shared, that no entry lay on before. */
  lemma SyncRegistersOnly(s: State, disk: Disk, limit: nat, ids: seq<Id>, id: Id) returns (t: Top)
    requires Fresh(s, disk, ids) && id in Sync(s, disk, limit, ids).shares && id !in s.shares
    ensures NewItem(s, disk, Sync(s, disk, limit, ids), id, t)
  {
    SyncLeaves(s, disk, limit, ids);
    AdmittedAreCandidates(s, disk, limit);
    t := OnlyItems(s, disk, Admitted(s, disk, limit), ids, Sync(s, disk, limit, ids), id);
  }

  lemma AdmittedAreCandidates(s: State, disk: Disk, limit: nat)
    ensures forall u :: u in Admitted(s, disk, limit) ==> u in disk.tops && Shareable(u) && !Covered(s, u.name)
    ensures |s.shares| + |disk.tops| <= limit ==> Admitted(s, disk, limit) == Candidates(s, disk.tops)
    ensures |s.shares| <= limit ==> |s.shares| + |Admitted(s, disk, limit)| <= limit
  {
    CandidatesFit(s, disk.tops);
    forall u | u in Admitted(s, disk, limit) ensures u in Candidates(s, disk.tops) {}
  }

  lemma NotNamed(s: State, name: string)
    ensures Covered(s, name) <==> FirstNamed(s, name)
  {
    forall id | id in s.shares ensures Covers(s.shares[id], name) <==> StartsAt(s.shares[id].host, name) {}
  }

  /** All of them, while the limit leaves room; and it is never passed. */
  lemma SyncRegistersAll(s: State, disk: Disk, limit: nat, ids: seq<Id>, t: Top) returns (id: Id)
    requires Fresh(s, disk, ids) && t in disk.tops && ToBeShared(t) && !FirstNamed(s, t.name)
    ensures |s.shares| + |disk.tops| <= limit ==> NewItem(s, disk, Sync(s, disk, limit, ids), id, t)
    ensures |s.shares| <= limit ==> |Sync(s, disk, limit, ids).shares| <= limit
  {
    SyncLeaves(s, disk, limit, ids);
    AdmittedAreCandidates(s, disk, limit);
    id := "";
    if |s.shares| + |disk.tops| <= limit {
      NotNamed(s, t.name);
      assert t in Candidates(s, disk.tops);
      id := OneOfThem(s, disk, Admitted(s, disk, limit), ids, Sync(s, disk, limit, ids), t);
    }
  }

  lemma OneOfThem(s: State, disk: Disk, tops: seq<Top>, ids: seq<Id>, after: State, t: Top) returns (id: Id)
    requires |tops| <= |disk.tops| && Fresh(s, disk, ids) && Synced(s, disk, tops, ids, after)
    requires t in tops && t in disk.tops && ToBeShared(t) && !FirstNamed(s, t.name)
    ensures NewItem(s, disk, after, id, t)
  {
    var i :| 0 <= i < |tops| && tops[i] == t;
    id := ids[i];
  }

  ghost predicate Registers(s: State, disk: Disk, after: State, t: Top) { exists id :: NewItem(s, disk, after, id, t) }

  lemma OnlyAdmitted(s: State, disk: Disk, tops: seq<Top>, ids: seq<Id>, after: State, t: Top, id: Id)
    requires Coherent(disk) && |ids| >= |tops| && Synced(s, disk, tops, ids, after)
    requires (forall u :: u in tops ==> u in disk.tops) && NewItem(s, disk, after, id, t)
    ensures t in tops
  {
    var i :| 0 <= i < |tops| && ids[i] == id;
    assert tops[i] in disk.tops && tops[i].name == t.name;
    assert tops[i] == t;
  }

  lemma RegistersIff(s: State, disk: Disk, limit: nat, ids: seq<Id>, t: Top)
    requires Coherent(disk) && Fresh(s, disk, ids) && t in disk.tops && ToBeShared(t) && !FirstNamed(s, t.name)
    ensures Registers(s, disk, Sync(s, disk, limit, ids), t) <==> t in Admitted(s, disk, limit)
  {
    var tops, after := Admitted(s, disk, limit), Sync(s, disk, limit, ids);
    SyncLeaves(s, disk, limit, ids);
    AdmittedAreCandidates(s, disk, limit);
    RegistersIffOf(s, disk, tops, ids, after, t);
  }

  lemma RegistersIffOf(s: State, disk: Disk, tops: seq<Top>, ids: seq<Id>, after: State, t: Top)
    requires |tops| <= |disk.tops| && Coherent(disk) && Fresh(s, disk, ids) && Synced(s, disk, tops, ids, after)
    requires (forall u :: u in tops ==> u in disk.tops) && t in disk.tops && ToBeShared(t) && !FirstNamed(s, t.name)
    ensures Registers(s, disk, after, t) <==> t in tops
  {
    if id :| NewItem(s, disk, after, id, t) {
      OnlyAdmitted(s, disk, tops, ids, after, t, id);
    }
    if t in tops {
      var id := OneOfThem(s, disk, tops, ids, after, t);
    }
  }

  lemma AdmittedFirst(s: State, disk: Disk, limit: nat, i: nat, j: nat)
    requires Coherent(disk) && i < j < |disk.tops|
    requires Shareable(disk.tops[i]) && !Covered(s, disk.tops[i].name)
    requires disk.tops[j] in Admitted(s, disk, limit)
    ensures disk.tops[i] in Admitted(s, disk, limit)
  {
    var c, front := Candidates(s, disk.tops), Candidates(s, disk.tops[..j]);
    CandidatesFront(s, disk.tops, j);
    assert disk.tops[i] in disk.tops[..j];
    var l :| 0 <= l < |front| && front[l] == disk.tops[i];
    var k :| 0 <= k < |Admitted(s, disk, limit)| && Admitted(s, disk, limit)[k] == disk.tops[j];
    assert disk.tops[j] !in disk.tops[..j];
    assert c[k] !in front;
    assert Admitted(s, disk, limit)[l] == c[l] == front[l];
  }

  /** When there is no room for all, those listed first are taken, until the
      registry is full. */
  lemma FirstListedFirst(s: State, disk: Disk, limit: nat, ids: seq<Id>, i: nat, j: nat)
    requires Coherent(disk) && Fresh(s, disk, ids) && i < j < |disk.tops|
    requires forall k :: k == i || k == j ==> ToBeShared(disk.tops[k]) && !FirstNamed(s, disk.tops[k].name)
    ensures var after := Sync(s, disk, limit, ids);
            && (Registers(s, disk, after, disk.tops[j]) ==> Registers(s, disk, after, disk.tops[i]))
            && (!Registers(s, disk, after, disk.tops[j]) ==> |after.shares| + |Vanished(s, disk)| >= limit)
  {
    RegistersIff(s, disk, limit, ids, disk.tops[i]);
    RegistersIff(s, disk, limit, ids, disk.tops[j]);
    NotNamed(s, disk.tops[i].name);
    NotNamed(s, disk.tops[j].name);
    SyncLeaves(s, disk, limit, ids);
    if disk.tops[j] in Admitted(s, disk, limit) {
      AdmittedFirst(s, disk, limit, i, j);
    } else {
      assert disk.tops[j] in Candidates(s, disk.tops);
    }
  }

  // ------------------------------------------------------------------ the order

  /** When a live entry came: the last event that brought its id in. */
  ghost function CameAt(events: seq<Event>, id: Id): nat {
    if events == [] then 0
    else
      var n := |events| - 1;
      if id in After(events).shares && id !in After(events[..n]).shares then n else CameAt(events[..n], id)
  }

  ghost predicate ByTime(order: seq<Id>, when: Id -> nat) {
    forall i, j :: 0 <= i < j < |order| ==> when(order[i]) <= when(order[j])
  }

  /** Taking entries off keeps the others in order. */
  lemma {:induction false} KeepByTime(order: seq<Id>, gone: set<Id>, when: Id -> nat)
    requires ByTime(order, when)
    ensures ByTime(Keep(order, gone), when)
  {
    if order != [] {
      var n := |order| - 1;
      KeepByTime(order[..n], gone, when);
      var before := Keep(order[..n], gone);
      forall i | 0 <= i < |before| ensures when(before[i]) <= when(order[n]) {
        assert before[i] in order[..n];
        var k :| 0 <= k < n && order[..n][k] == before[i];
      }
    }
  }

  lemma {:induction false} AddAllOrder(s: State, tops: seq<Top>, ids: seq<Id>, disk: Disk) returns (added: seq<Id>)
    requires Fresh(s, disk, ids) && |tops| <= |disk.tops|
    ensures AddAll(s, tops, ids).order == s.order + added && forall i :: 0 <= i < |added| ==> added[i] !in s.shares
  {
    if tops == [] {
      added := [];
    } else {
      var n := |tops| - 1;
      var before := AddAllOrder(s, tops[..n], ids, disk);
      added := before + [ids[n]];
      assert s.order + added == s.order + before + [ids[n]];
    }
  }

  lemma {:induction false} KeepJoin(a: seq<Id>, b: seq<Id>, gone: set<Id>)
    ensures Keep(a + b, gone) == Keep(a, gone) + Keep(b, gone)
    decreases |b|
  {
    if b == [] {
      assert a + b == a;
    } else {
      assert (a + b)[..|a + b| - 1] == a + b[..|b| - 1];
      KeepJoin(a, b[..|b| - 1], gone);
    }
  }

  lemma KeepSome(b: seq<Id>, gone: set<Id>, was: State)
    requires forall i :: 0 <= i < |b| ==> b[i] !in was.shares
    ensures forall i :: 0 <= i < |Keep(b, gone)| ==> Keep(b, gone)[i] !in was.shares
  {
    forall i | 0 <= i < |Keep(b, gone)| ensures Keep(b, gone)[i] !in was.shares {
      assert Keep(b, gone)[i] in b;
    }
  }

  lemma SyncOrder(s: State, disk: Disk, limit: nat, ids: seq<Id>) returns (added: seq<Id>)
    requires Fresh(s, disk, ids)
    ensures Sync(s, disk, limit, ids).order == Keep(s.order, Vanished(s, disk)) + added
    ensures forall i :: 0 <= i < |added| ==> added[i] !in s.shares
  {
    var gone := Vanished(s, disk);
    var came := AddAllOrder(s, Admitted(s, disk, limit), ids, disk);
    KeepJoin(s.order, came, gone);
    KeepSome(came, gone, s);
    added := Keep(came, gone);
  }

  /** The entries that are left, in their order, and then the new ones. */
  lemma StepOrder(s: State, e: Event) returns (gone: set<Id>, added: seq<Id>)
    requires Enabled(s, e)
    ensures Apply(s, e).order == Keep(s.order, gone) + added
    ensures forall i :: 0 <= i < |added| ==> added[i] !in s.shares
  {
    NothingToKeepOut(s.order);
    gone, added := {}, [];
    match e
    case AddHost(id, _) => added := [id];
    case AddGuest(id, _) => added := [id];
    case Restore(id, _) => added := [id];
    case Finish(_, _) =>
    case Unshare(id) => gone := {id};
    case SyncTemp(disk, limit, ids) =>
      added := SyncOrder(s, disk, limit, ids);
      gone := Vanished(s, disk);
  }

  /** In every run the order lists the live entries in the order they came. */
  lemma {:induction false} OldestFirst(events: seq<Event>)
    requires Run(events)
    ensures ByTime(After(events).order, id => CameAt(events, id))
  {
    if events != [] {
      var n := |events| - 1;
      OldestFirst(events[..n]);
      RunKeepsInv(events[..n]);
      RunKeepsInv(events);
      OneMoreInOrder(events, After(events[..n]), events[n]);
    }
  }

  lemma OneMoreInOrder(events: seq<Event>, s: State, e: Event)
    requires events != [] && e == events[|events| - 1] && s == After(events[..|events| - 1]) && After(events) == Apply(s, e)
    requires Inv(s) && Inv(After(events)) && Enabled(s, e)
    requires ByTime(s.order, id => CameAt(events[..|events| - 1], id))
    ensures ByTime(After(events).order, id => CameAt(events, id))
  {
    var gone, added := StepOrder(s, e);
    KeepByTime(s.order, gone, id => CameAt(events[..|events| - 1], id));
    InOrder(events, Keep(s.order, gone), added);
  }

  lemma InOrder(events: seq<Event>, left: seq<Id>, added: seq<Id>)
    requires events != [] && After(events).order == left + added && Inv(After(events)) && Inv(After(events[..|events| - 1]))
    requires forall i :: 0 <= i < |left| ==> left[i] in After(events[..|events| - 1]).shares
    requires forall i :: 0 <= i < |added| ==> added[i] !in After(events[..|events| - 1]).shares
    requires ByTime(left, id => CameAt(events[..|events| - 1], id))
    ensures ByTime(left + added, id => CameAt(events, id))
  {
    var n := |events| - 1;
    var before, when := (id: Id) => CameAt(events[..n], id), (id: Id) => CameAt(events, id);
    forall i | 0 <= i < |left| ensures before(left[i]) <= n && when(left[i]) == before(left[i]) {
      CameBefore(events[..n], left[i]);
      assert (left + added)[i] in After(events).order;
    }
    forall i | 0 <= i < |added| ensures when(added[i]) == n {
      assert (left + added)[|left| + i] in After(events).order;
    }
    JoinByTime(left, added, before, when, n);
  }

  lemma JoinByTime(left: seq<Id>, added: seq<Id>, before: Id -> nat, when: Id -> nat, n: nat)
    requires ByTime(left, before) && forall i :: 0 <= i < |left| ==> before(left[i]) <= n && when(left[i]) == before(left[i])
    requires forall i :: 0 <= i < |added| ==> when(added[i]) == n
    ensures ByTime(left + added, when)
  {}

  lemma {:induction false} CameBefore(events: seq<Event>, id: Id)
    ensures CameAt(events, id) <= |events|
  {
    if events != [] { CameBefore(events[..|events| - 1], id); }
  }
}
