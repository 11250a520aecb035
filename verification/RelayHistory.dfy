/** What the relay tables hold, read off the events alone. */
module RelayHistory {
  import opened RelayTables

  /** Job t was listed for o by event i and is still there. */
  ghost predicate ListedAt(events: seq<Event>, o: Owner, t: Token, i: nat) {
    i < |events| && events[i] == Enqueue(o, t) && Remove(t) !in events[i + 1..]
  }

  /** The poll w of owner o, event i, found nothing pending and is still asleep. */
  ghost predicate AsleepAt(events: seq<Event>, o: Owner, w: Waiter, i: nat) {
    i < |events| && events[i] == Poll(o, w) && Open(events[..i], o, 0) == [] && Done(w) !in events[i + 1..]
  }

  ghost predicate EnqueuedFor(events: seq<Event>, o: Owner) {
    exists j :: 0 <= j < |events| && events[j].Enqueue? && events[j].owner == o
  }

  ghost predicate LiveJob(s: State, o: Owner, t: Token, claimed: bool) { t in s.jobs && s.jobs[t] == Job(o, claimed) }

  ghost predicate Asleep(s: State, o: Owner, w: Waiter) { w in s.blocked && s.blocked[w] == o }

  lemma Grown(front: seq<Event>, e: Event, i: nat)
    requires i < |front|
    ensures (front + [e])[i] == front[i] && (front + [e])[i + 1..] == front[i + 1..] + [e]
    ensures (front + [e])[..i] == front[..i]
  {}

  lemma GrownAtEnd(front: seq<Event>, e: Event)
    ensures (front + [e])[|front|] == e && (front + [e])[|front| + 1..] == [] && (front + [e])[..|front|] == front
  {}

  lemma ListedStep(front: seq<Event>, e: Event, o: Owner, t: Token, i: nat)
    ensures ListedAt(front + [e], o, t, i) <==>
              if i == |front| then e == Enqueue(o, t) else ListedAt(front, o, t, i) && e != Remove(t)
  {
    GrownAtEnd(front, e);
    if i < |front| {
      Grown(front, e, i);
    }
  }

  lemma AsleepStep(front: seq<Event>, e: Event, o: Owner, w: Waiter, i: nat)
    ensures AsleepAt(front + [e], o, w, i) <==>
              if i == |front| then e == Poll(o, w) && Open(front, o, 0) == [] else AsleepAt(front, o, w, i) && e != Done(w)
  {
    GrownAtEnd(front, e);
    if i < |front| {
      Grown(front, e, i);
    }
  }

  lemma EnqueuedStep(events: seq<Event>, e: Event, o: Owner)
    ensures EnqueuedFor(events + [e], o) <==> EnqueuedFor(events, o) || (e.Enqueue? && e.owner == o)
  {
    if j :| 0 <= j < |events| && events[j].Enqueue? && events[j].owner == o {
      assert (events + [e])[j] == events[j];
    }
    assert (events + [e])[|events|] == e;
  }

  ghost predicate ListedSo(events: seq<Event>, o: Owner, t: Token, claimed: bool, i: nat) {
    ListedAt(events, o, t, i) && (claimed <==> Claim(t) in events[i + 1..])
  }

  lemma ListedSoStep(front: seq<Event>, e: Event, o: Owner, t: Token, claimed: bool, i: nat)
    ensures ListedSo(front + [e], o, t, claimed, i) <==>
              if i == |front| then e == Enqueue(o, t) && !claimed
              else ListedAt(front, o, t, i) && e != Remove(t) && (claimed <==> Claim(t) in front[i + 1..] || e == Claim(t))
  {
    ListedStep(front, e, o, t, i);
    GrownAtEnd(front, e);
    if i < |front| {
      Grown(front, e, i);
    }
  }

  lemma JobAfter(s: State, e: Event, o: Owner, t: Token, claimed: bool)
    requires Enabled(s, e)
    ensures LiveJob(Apply(s, e), o, t, claimed) <==>
              || (e == Enqueue(o, t) && !claimed)
              || (e != Remove(t) && (LiveJob(s, o, t, claimed) || LiveJob(s, o, t, false)) && (claimed <==> LiveJob(s, o, t, true) || e == Claim(t)))
  {}

  /** In every run a job is there exactly when it was enqueued and not removed
      since, and it is claimed exactly when a claim came after. */
  lemma {:induction false} JobIff(events: seq<Event>, o: Owner, t: Token, claimed: bool)
    requires Run(events)
    ensures LiveJob(After(events), o, t, claimed) <==> exists i: nat :: ListedSo(events, o, t, claimed, i)
  {
    if events != [] {
      var front, e := events[..|events| - 1], events[|events| - 1];
      assert events == front + [e];
      JobIff(front, o, t, false);
      JobIff(front, o, t, true);
      JobAfter(After(front), e, o, t, claimed);
      var was, unclaimed := LiveJob(After(front), o, t, true), LiveJob(After(front), o, t, false);
      if LiveJob(After(events), o, t, claimed) {
        JobListed(front, e, o, t, claimed, was, unclaimed);
      }
      if i: nat :| ListedSo(events, o, t, claimed, i) {
        ListedSoStep(front, e, o, t, claimed, i);
        if i < |front| {
          assert ListedSo(front, o, t, Claim(t) in front[i + 1..], i);
        }
      }
    }
  }

  lemma JobListed(front: seq<Event>, e: Event, o: Owner, t: Token, claimed: bool, was: bool, unclaimed: bool)
    requires was ==> exists i: nat :: ListedSo(front, o, t, true, i)
    requires unclaimed ==> exists i: nat :: ListedSo(front, o, t, false, i)
    requires || (e == Enqueue(o, t) && !claimed)
             || (e != Remove(t) && (was || unclaimed) && (claimed <==> was || e == Claim(t)))
    ensures exists i: nat :: ListedSo(front + [e], o, t, claimed, i)
  {
    if e == Enqueue(o, t) && !claimed {
      ListedSoStep(front, e, o, t, claimed, |front|);
    } else {
      var i: nat :| ListedSo(front, o, t, was, i);
      ListedSoStep(front, e, o, t, claimed, i);
    }
  }

  /** In every run a poll is asleep exactly when it found nothing pending and
      has not ended since. */
  lemma {:induction false} AsleepIff(events: seq<Event>, o: Owner, w: Waiter)
    requires Run(events)
    ensures Asleep(After(events), o, w) <==> exists i: nat :: AsleepAt(events, o, w, i)
  {
    if events != [] {
      var front, e := events[..|events| - 1], events[|events| - 1];
      assert events == front + [e];
      AsleepIff(front, o, w);
      if e.Poll? {
        PendingIsOpen(front, e.owner);
      }
      if Asleep(After(events), o, w) {
        if Asleep(After(front), o, w) {
          var i: nat :| AsleepAt(front, o, w, i);
          AsleepStep(front, e, o, w, i);
        } else {
          AsleepStep(front, e, o, w, |front|);
        }
      }
      if i: nat :| AsleepAt(events, o, w, i) {
        AsleepStep(front, e, o, w, i);
      }
    }
  }

  /** The sleeping poll w was sent a wake-up: a job for its owner came after. */
  ghost predicate WokenAt(events: seq<Event>, o: Owner, w: Waiter, i: nat) {
    AsleepAt(events, o, w, i) && EnqueuedFor(events[i + 1..], o)
  }

  lemma WokenStep(front: seq<Event>, e: Event, o: Owner, w: Waiter, i: nat)
    ensures WokenAt(front + [e], o, w, i) <==>
              && i < |front| && AsleepAt(front, o, w, i) && e != Done(w)
              && (EnqueuedFor(front[i + 1..], o) || (e.Enqueue? && e.owner == o))
  {
    AsleepStep(front, e, o, w, i);
    GrownAtEnd(front, e);
    if i < |front| {
      Grown(front, e, i);
      EnqueuedStep(front[i + 1..], e, o);
    }
  }

  lemma SignalAfter(s: State, e: Event, o: Owner, w: Waiter)
    requires Inv(s) && Enabled(s, e) && Asleep(s, o, w)
    ensures w in Apply(s, e).signalled <==> e != Done(w) && (w in s.signalled || (e.Enqueue? && e.owner == o))
  {
    assert Registered(s, s.blocked[w], w) || w in s.signalled;
    if e.Enqueue? {
      assert w in s.Waiting(e.owner) <==> Registered(s, e.owner, w);
    }
  }

  /** In every run a sleeping poll holds a wake-up exactly when a job for its
      owner came after it went to sleep. */
  lemma {:induction false} WokenIff(events: seq<Event>, o: Owner, w: Waiter)
    requires Run(events) && Asleep(After(events), o, w)
    ensures w in After(events).signalled <==> exists i: nat :: WokenAt(events, o, w, i)
  {
    if events != [] {
      var front, e := events[..|events| - 1], events[|events| - 1];
      var s := After(front);
      assert events == front + [e];
      RunKeepsInv(front);
      AsleepIff(front, o, w);
      if Asleep(s, o, w) {
        WokenIff(front, o, w);
        SignalAfter(s, e, o, w);
        var k: nat :| AsleepAt(front, o, w, k);
        AsleepStep(front, e, o, w, k);
        WokenStep(front, e, o, w, k);
        if i: nat :| WokenAt(front, o, w, i) {
          WokenStep(front, e, o, w, i);
        }
      } else {
        assert w !in s.signalled;
      }
      if i: nat :| WokenAt(events, o, w, i) {
        WokenStep(front, e, o, w, i);
        if EnqueuedFor(front[i + 1..], o) {
          assert WokenAt(front, o, w, i);
        }
      }
    }
  }
}
