/** The registry tables as the server changes them, in place. */
module LiveRegistry {
  import opened Wrappers
  import opened ShareRegistry

  lemma {:induction false} KeepOut(order: seq<Id>, id: Id, k: nat)
    requires k < |order| && order[k] == id
    requires forall i, j :: 0 <= i < j < |order| ==> order[i] != order[j]
    ensures Keep(order, {id}) == order[..k] + order[k + 1..]
    decreases |order|
  {
    var n := |order| - 1;
    if k < n {
      KeepOut(order[..n], id, k);
      assert order[..n][..k] == order[..k] && order[k + 1..] == order[..n][k + 1..] + [order[n]];
    } else {
      KeepAbsent(order[..n], id);
      assert order[k + 1..] == [];
    }
  }

  lemma {:induction false} KeepAbsent(order: seq<Id>, id: Id)
    requires id !in order
    ensures Keep(order, {id}) == order
  {
    if order != [] {
      assert order[|order| - 1] in order;
      KeepAbsent(order[..|order| - 1], id);
      assert order == order[..|order| - 1] + [order[|order| - 1]];
    }
  }

  lemma {:induction false} KeepTwice(order: seq<Id>, a: set<Id>, b: set<Id>)
    ensures Keep(Keep(order, a), b) == Keep(order, a + b)
  {
    if order != [] {
      KeepTwice(order[..|order| - 1], a, b);
    }
  }

  lemma RemoveTwice(s: State, a: set<Id>, b: set<Id>)
    ensures Remove(Remove(s, a), b).shares == Remove(s, a + b).shares
    ensures Remove(Remove(s, a), b).order == Remove(s, a + b).order
    ensures Remove(Remove(s, a), b).bySession == Remove(s, a + b).bySession
  {
    KeepTwice(s.order, a, b);
    assert SessionsOf(s, a) + SessionsOf(Remove(s, a), b) == SessionsOf(s, a + b);
  }

  lemma RemoveAbsent(s: State, id: Id)
    requires Inv(s) && id !in s.shares
    ensures Remove(s, {id}) == s
  {
    KeepAbsent(s.order, id);
    NoSession(s, id);
    assert s.shares - {id} == s.shares && s.bySession - {} == s.bySession;
  }

  lemma NoSession(s: State, id: Id)
    requires id !in s.shares
    ensures SessionsOf(s, {id}) == {}
  {}

  lemma RemoveLive(s: State, id: Id, k: nat)
    requires Inv(s) && id in s.shares && k < |s.order| && s.order[k] == id
    ensures Remove(s, {id}) ==
      State(s.shares - {id}, s.order[..k] + s.order[k + 1..],
            if s.shares[id].session.Some? then s.bySession - {s.shares[id].session.value} else s.bySession)
  {
    KeepOut(s.order, id, k);
    SessionOfOne(s, id);
    if s.shares[id].session.None? { assert s.bySession - {} == s.bySession; }
  }

  lemma SessionOfOne(s: State, id: Id)
    requires id in s.shares
    ensures SessionsOf(s, {id}) == if s.shares[id].session.Some? then {s.shares[id].session.value} else {}
  {}

  lemma {:induction false} AddOneMore(s: State, found: seq<Top>, n: nat, ids: seq<Id>, disk: Disk, before: State)
    requires Fresh(s, disk, ids) && n < |found| <= |disk.tops| && before == AddAll(s, found[..n], ids)
    ensures ids[n] !in before.shares && |before.shares| == |s.shares| + n
    ensures AddAll(s, found[..n + 1], ids) == Add(before, ids[n], HostShare(found[n]))
  {
    AddAllRegisters(s, found[..n], ids, disk);
    NotYetUsed(s, found[..n], ids, disk, before);
    assert found[..n + 1][..n] == found[..n];
  }

  method IndexOf(order: seq<Id>, id: Id) returns (k: nat)
    requires id in order
    ensures k < |order| && order[k] == id && id !in order[..k]
  {
    k := 0;
    while order[k] != id
      invariant k < |order| && id !in order[..k]
      decreases |order| - k
    {
      k := k + 1;
    }
  }

  /** Items found with the limit in view are enough to take the admitted ones from. */
  lemma FoundIsEnough(s: State, disk: Disk, limit: nat, found: seq<Top>)
    requires found <= Candidates(s, disk.tops)
    requires found == Candidates(s, disk.tops) || |s.shares| + |found| >= limit
    ensures |found| <= |disk.tops|
    ensures Admitted(s, disk, limit) == found[..if |found| <= Room(s, limit) then |found| else Room(s, limit)]
  {
    CandidatesFit(s, disk.tops);
    assert found[..|found|] == found;
  }

  class Registry {
    var shares: map<Id, Share>
    var order: seq<Id>
    var bySession: map<Session, Id>

    ghost function View(): State
      reads this
    {
      State(shares, order, bySession)
    }

    constructor ()
      ensures View() == EMPTY && Inv(View())
    {
      shares, order, bySession := map[], [], map[];
    }

    method Register(id: Id, e: Share)
      requires Inv(View()) && id !in shares && (e.session.Some? ==> e.session.value !in bySession)
      modifies this
      ensures View() == Add(old(View()), id, e) && Inv(View())
    {
      AddKeeps(View(), id, e);
      shares := shares[id := e];
      order := order + [id];
      if e.session.Some? {
        bySession := bySession[e.session.value := id];
      }
    }

    method Finish(id: Id, dest: Place)
      requires Inv(View())
      modifies this
      ensures View() == Complete(old(View()), id, dest) && Inv(View())
    {
      if id in shares {
        shares := shares[id := shares[id].(host := Some(dest), completed := true)];
      }
    }

    /** Taking one entry off every table, as unsharing and pruning do. */
    method Drop(id: Id) returns (ok: bool)
      requires Inv(View())
      modifies this
      ensures ok <==> id in old(shares)
      ensures View() == Remove(old(View()), {id}) && Inv(View())
    {
      RemoveKeeps(View(), {id});
      ok := id in shares;
      if !ok {
        RemoveAbsent(View(), id);
        return;
      }
      var e := shares[id];
      var k := IndexOf(order, id);
      RemoveLive(View(), id, k);
      shares := shares - {id};
      order := order[..k] + order[k + 1..];
      if e.session.Some? {
        bySession := bySession - {e.session.value};
      }
    }

    /** First locked part of a pass: the names that some entry lies under. */
    method CoveredNames() returns (names: set<string>)
      ensures forall name :: name in names <==> Covered(View(), name)
    {
      names := {};
      var todo := shares.Keys;
      while todo != {}
        invariant todo <= shares.Keys
        invariant forall name :: name in names <==> exists id :: id in shares && id !in todo && Covers(shares[id], name)
      {
        var id :| id in todo;
        var e := shares[id];
        todo := todo - {id};
        if e.host.Some? && e.host.value.Inside? && e.host.value.parts != [] {
          names := names + {e.host.value.parts[0]};
        }
      }
      assert forall name :: Covered(View(), name) <==> exists id :: id in shares && Covers(shares[id], name);
    }

    /** The items to register, no more than are of use. */
    method FindCandidates(tops: seq<Top>, covered: set<string>, limit: nat) returns (found: seq<Top>)
      requires forall name :: name in covered <==> Covered(View(), name)
      ensures found <= Candidates(View(), tops)
      ensures found == Candidates(View(), tops) || |shares| + |found| >= limit
    {
      found := [];
      for k := 0 to |tops|
        invariant found == Candidates(View(), tops[..k])
      {
        assert tops[..k + 1][..k] == tops[..k];
        if Shareable(tops[k]) && tops[k].name !in covered {
          found := found + [tops[k]];
          if |shares| + |found| >= limit {
            CandidatesFront(View(), tops, k + 1);
            return;
          }
        }
      }
      assert tops[..|tops|] == tops;
    }

    method FindVanished(disk: Disk) returns (gone: set<Id>)
      ensures gone == Vanished(View(), disk)
    {
      gone := {};
      var todo := shares.Keys;
      while todo != {}
        invariant todo <= shares.Keys
        invariant forall id :: id in gone <==> id in shares && id !in todo && !OnDisk(shares[id], disk)
      {
        var id :| id in todo;
        todo := todo - {id};
        if !OnDisk(shares[id], disk) {
          gone := gone + {id};
        }
      }
    }

    /** Registering items until the registry is full. */
    method AddFound(found: seq<Top>, limit: nat, ids: seq<Id>, ghost disk: Disk) returns (n: nat)
      requires Inv(View()) && Fresh(View(), disk, ids) && |found| <= |disk.tops|
      modifies this
      ensures n == if |found| <= Room(old(View()), limit) then |found| else Room(old(View()), limit)
      ensures View() == AddAll(old(View()), found[..n], ids) && Inv(View())
    {
      ghost var was := View();
      n := 0;
      while n < |found| && |shares| < limit
        invariant n <= |found| && View() == AddAll(was, found[..n], ids) && Inv(View())
        invariant |shares| == |was.shares| + n
        invariant n > 0 ==> |shares| <= limit
      {
        AddOneMore(was, found, n, ids, disk, View());
        Register(ids[n], HostShare(found[n]));
        n := n + 1;
      }
    }

    method Prune(gone: set<Id>)
      requires Inv(View())
      modifies this
      ensures View() == Remove(old(View()), gone) && Inv(View())
    {
      ghost var was := View();
      var todo := gone;
      RemoveNothing(was);
      assert gone - todo == {};
      while todo != {}
        invariant todo <= gone && View() == Remove(was, gone - todo) && Inv(View())
      {
        var id :| id in todo;
        RemoveTwice(was, gone - todo, {id});
        assert gone - (todo - {id}) == (gone - todo) + {id};
        var _ := Drop(id);
        todo := todo - {id};
      }
      assert gone - {} == gone;
    }

    /** syncTempLive. */
    method SyncTempLive(disk: Disk, limit: nat, ids: seq<Id>)
      requires Inv(View()) && Fresh(View(), disk, ids)
      modifies this
      ensures View() == Sync(old(View()), disk, limit, ids) && Inv(View())
    {
      ghost var was := View();
      var covered := CoveredNames();
      var found := FindCandidates(disk.tops, covered, limit);
      var gone := FindVanished(disk);
      if |found| == 0 && gone == {} {
        FoundIsEnough(was, disk, limit, found);
        RemoveNothing(was);
        return;
      }
      FoundIsEnough(was, disk, limit, found);
      var n := AddFound(found, limit, ids, disk);
      Prune(gone);
    }
  }
}
