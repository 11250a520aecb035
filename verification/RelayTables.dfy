/** The long-poll tables of the guest relay: jobs by token, the list of jobs
    each owner has still to pick up, and the requests waiting for one. */
module RelayTables {
  import opened Wrappers
  import opened Sequences

  type Token = string
  type Owner = string
  type Waiter = nat

  datatype Job = Job(owner: Owner, claimed: bool)

  /** `blocked` are the poll requests asleep on their channel, `signalled` the
      ones whose channel holds a wake-up. */
  datatype State = State(
    jobs: map<Token, Job>,
    pending: map<Owner, seq<Token>>,
    waiters: map<Owner, seq<Waiter>>,
    blocked: map<Waiter, Owner>,
    signalled: set<Waiter>)
  {
    function Pending(o: Owner): seq<Token> { if o in pending then pending[o] else [] }

    function Waiting(o: Owner): seq<Waiter> { if o in waiters then waiters[o] else [] }
  }

  const NO_JOBS := State(map[], map[], map[], map[], {})

  datatype Event =
    | Enqueue(owner: Owner, token: Token)
    | Remove(token: Token)
    | Claim(token: Token)
    | Poll(owner: Owner, waiter: Waiter)
    | Done(waiter: Waiter)

  // ------------------------------------------------------------------ the steps

  function Without<T(==,!new)>(s: seq<T>, x: T): (r: seq<T>)
    ensures forall y :: y in r <==> y in s && y != x
  {
    if s == [] then []
    else if s[|s| - 1] == x then Without(s[..|s| - 1], x)
    else Without(s[..|s| - 1], x) + [s[|s| - 1]]
  }

  /** A list entry that goes away with its last element. */
  function Drop<T(==,!new)>(m: map<Owner, seq<T>>, o: Owner, x: T): map<Owner, seq<T>> {
    if o !in m || m[o] == [] then m
    else if Without(m[o], x) == [] then m - {o}
    else m[o := Without(m[o], x)]
  }

  function Members<T(!new)>(s: seq<T>): (r: set<T>)
    ensures forall x :: x in r <==> x in s
  {
    set x | x in s
  }

  function Apply(s: State, e: Event): State {
    match e
    case Enqueue(o, t) =>
      s.(jobs := s.jobs[t := Job(o, false)],
         pending := s.pending[o := s.Pending(o) + [t]],
         signalled := s.signalled + Members(s.Waiting(o)),
         waiters := s.waiters[o := []])
    case Remove(t) =>
      if t !in s.jobs then s
      else s.(jobs := s.jobs - {t}, pending := Drop(s.pending, s.jobs[t].owner, t))
    case Claim(t) =>
      if t !in s.jobs then s
      else s.(jobs := s.jobs[t := s.jobs[t].(claimed := true)], pending := Drop(s.pending, s.jobs[t].owner, t))
    case Poll(o, w) =>
      if s.Pending(o) != [] then s
      else s.(waiters := s.waiters[o := s.Waiting(o) + [w]], blocked := s.blocked[w := o])
    case Done(w) =>
      if w !in s.blocked then s
      else s.(waiters := Drop(s.waiters, s.blocked[w], w), blocked := s.blocked - {w}, signalled := s.signalled - {w})
  }

  /** Tokens and waiters are new when they come up. */
  predicate Enabled(s: State, e: Event) {
    match e
    case Enqueue(_, t) => t !in s.jobs
    case Poll(_, w) => w !in s.blocked
    case Done(w) => w in s.blocked
    case _ => true
  }

  function After(events: seq<Event>): State {
    if events == [] then NO_JOBS else Apply(After(events[..|events| - 1]), events[|events| - 1])
  }

  predicate Run(events: seq<Event>) {
    events == [] ||
    (Run(events[..|events| - 1]) && Enabled(After(events[..|events| - 1]), events[|events| - 1]))
  }

  // -------------------------------------------------------------- the invariant

  /** Owner o is offered t. */
  predicate Offered(s: State, o: Owner, t: Token) { t in s.Pending(o) }

  predicate Registered(s: State, o: Owner, w: Waiter) { w in s.Waiting(o) }

  /** A token is pending for its owner, once, exactly while its job is live and
      unclaimed. */
  ghost predicate PendingInv(s: State) {
    && (forall o, t :: Offered(s, o, t) <==> t in s.jobs && s.jobs[t] == Job(o, false))
    && (forall o :: Distinct(s.Pending(o)))
  }

  /** Whoever is registered waits for an owner with nothing pending, and every
      sleeping request is registered or has its wake-up. */
  ghost predicate WaiterInv(s: State) {
    && (forall o, w :: Registered(s, o, w) ==> s.Pending(o) == [] && w in s.blocked && s.blocked[w] == o)
    && (forall w :: w in s.blocked ==> Registered(s, s.blocked[w], w) || w in s.signalled)
    && (forall w :: w in s.signalled ==> w in s.blocked)
  }

  ghost predicate Inv(s: State) { PendingInv(s) && WaiterInv(s) }

  lemma {:induction false} WithoutDistinct<T(!new)>(s: seq<T>, x: T)
    requires Distinct(s)
    ensures Distinct(Without(s, x))
  {
    if s != [] {
      var front := s[..|s| - 1];
      WithoutDistinct(front, x);
      assert s[|s| - 1] !in front;
    }
  }

  lemma {:induction false} WithoutAbsent<T(!new)>(s: seq<T>, x: T)
    requires x !in s
    ensures Without(s, x) == s
  {
    if s != [] {
      WithoutAbsent(s[..|s| - 1], x);
      assert s == s[..|s| - 1] + [s[|s| - 1]];
    }
  }

  function Entry<T>(m: map<Owner, seq<T>>, o: Owner): seq<T> { if o in m then m[o] else [] }

  lemma DropEntry<T(!new)>(m: map<Owner, seq<T>>, o: Owner, x: T, o': Owner)
    ensures Entry(Drop(m, o, x), o') == if o' == o then Without(Entry(m, o), x) else Entry(m, o')
  {}

  /** Taking a token off its owner's list takes it off every list. */
  lemma Taken(s: State, t: Token, o: Owner)
    requires PendingInv(s)
    ensures (if t in s.jobs then Entry(Drop(s.pending, s.jobs[t].owner, t), o) else s.Pending(o)) == Without(s.Pending(o), t)
  {
    assert Offered(s, o, t) <==> t in s.Pending(o);
    if t !in s.Pending(o) {
      WithoutAbsent(s.Pending(o), t);
    }
    if t in s.jobs {
      DropEntry(s.pending, s.jobs[t].owner, t, o);
    }
  }

  /** What each owner has pending after a step. */
  lemma PendingAfter(s: State, e: Event, o: Owner)
    requires PendingInv(s)
    ensures Apply(s, e).Pending(o) ==
      match e
      case Enqueue(o', t) => if o == o' then s.Pending(o) + [t] else s.Pending(o)
      case Remove(t) => Without(s.Pending(o), t)
      case Claim(t) => Without(s.Pending(o), t)
      case _ => s.Pending(o)
  {
    match e
    case Remove(t) => Taken(s, t, o);
    case Claim(t) => Taken(s, t, o);
    case _ =>
  }

  lemma PendingKept(s: State, e: Event)
    requires PendingInv(s) && Enabled(s, e)
    ensures PendingInv(Apply(s, e))
  {
    var s' := Apply(s, e);
    forall o, t ensures Offered(s', o, t) <==> t in s'.jobs && s'.jobs[t] == Job(o, false) {
      PendingAfter(s, e, o);
      assert Offered(s, o, t) <==> t in s.jobs && s.jobs[t] == Job(o, false);
    }
    forall o ensures Distinct(s'.Pending(o)) {
      PendingAfter(s, e, o);
      match e
      case Enqueue(_, t) => assert !Offered(s, o, t);
      case Remove(t) => WithoutDistinct(s.Pending(o), t);
      case Claim(t) => WithoutDistinct(s.Pending(o), t);
      case _ =>
    }
  }

  lemma RegisteredKept(s: State, e: Event, o: Owner, w: Waiter)
    requires Inv(s) && Enabled(s, e) && Registered(Apply(s, e), o, w)
    ensures Apply(s, e).Pending(o) == [] && w in Apply(s, e).blocked && Apply(s, e).blocked[w] == o
  {
    PendingAfter(s, e, o);
    assert Registered(s, o, w) || e == Poll(o, w);
  }

  lemma SleeperKept(s: State, e: Event, w: Waiter)
    requires Inv(s) && Enabled(s, e) && w in Apply(s, e).blocked
    ensures Registered(Apply(s, e), Apply(s, e).blocked[w], w) || w in Apply(s, e).signalled
  {
    if w in s.blocked { assert Registered(s, s.blocked[w], w) || w in s.signalled; }
  }

  lemma WaitersKept(s: State, e: Event)
    requires Inv(s) && Enabled(s, e)
    ensures WaiterInv(Apply(s, e))
  {
    var s' := Apply(s, e);
    forall o, w | Registered(s', o, w) ensures s'.Pending(o) == [] && w in s'.blocked && s'.blocked[w] == o {
      RegisteredKept(s, e, o, w);
    }
    forall w | w in s'.blocked ensures Registered(s', s'.blocked[w], w) || w in s'.signalled {
      SleeperKept(s, e, w);
    }
    forall w | w in s'.signalled ensures w in s'.blocked {
      assert w in s.signalled || (e.Enqueue? && Registered(s, e.owner, w));
    }
  }

  /** Every run keeps the tables consistent. */
  lemma {:induction false} RunKeepsInv(events: seq<Event>)
    requires Run(events)
    ensures Inv(After(events))
  {
    if events != [] {
      var front, e := events[..|events| - 1], events[|events| - 1];
      RunKeepsInv(front);
      PendingKept(After(front), e);
      WaitersKept(After(front), e);
    }
  }

  // ------------------------------------------------- what a poll is told, in full

  /** Token t is taken, by a claim or a removal, at or after event i. */
  predicate TakenFrom(events: seq<Event>, t: Token, i: nat) {
    exists j :: i <= j < |events| && (events[j] == Claim(t) || events[j] == Remove(t))
  }

  /** The tokens enqueued for o from event i on and not taken afterwards, in
      the order of their arrival. */
  function Open(events: seq<Event>, o: Owner, i: nat): seq<Token>
    requires i <= |events|
    decreases |events| - i
  {
    if i == |events| then []
    else
      var rest := Open(events, o, i + 1);
      match events[i]
      case Enqueue(o', t) => if o' == o && !TakenFrom(events, t, i + 1) then [t] + rest else rest
      case _ => rest
  }

  lemma {:induction false} WithoutFront<T(!new)>(a: seq<T>, b: seq<T>, x: T)
    ensures Without(a + b, x) == Without(a, x) + Without(b, x)
    decreases |b|
  {
    if b == [] {
      assert a + b == a;
    } else {
      assert (a + b)[..|a + b| - 1] == a + b[..|b| - 1];
      WithoutFront(a, b[..|b| - 1], x);
    }
  }

  lemma {:induction false} OpenStep(events: seq<Event>, e: Event, o: Owner, i: nat)
    requires i <= |events|
    ensures Open(events + [e], o, i) ==
      match e
      case Enqueue(o', t) => if o' == o then Open(events, o, i) + [t] else Open(events, o, i)
      case Claim(t) => Without(Open(events, o, i), t)
      case Remove(t) => Without(Open(events, o, i), t)
      case _ => Open(events, o, i)
    decreases |events| - i
  {
    var more := events + [e];
    if i == |events| {
      assert Open(more, o, i + 1) == [];
    } else {
      OpenStep(events, e, o, i + 1);
      if events[i].Enqueue? {
        var t := events[i].token;
        TakenStep(events, e, t, i + 1);
        if e.Claim? || e.Remove? {
          WithoutFront([t], Open(events, o, i + 1), e.token);
        }
      }
    }
  }

  lemma TakenStep(events: seq<Event>, e: Event, t: Token, i: nat)
    requires i <= |events|
    ensures TakenFrom(events + [e], t, i) <==> TakenFrom(events, t, i) || e == Claim(t) || e == Remove(t)
  {
    var more := events + [e];
    if TakenFrom(events, t, i) {
      var j :| i <= j < |events| && (events[j] == Claim(t) || events[j] == Remove(t));
      assert more[j] == events[j];
    }
    assert more[|events|] == e;
  }

  /** In every run an owner has pending exactly the tokens enqueued for it and
      not taken since, in order of arrival. */
  lemma {:induction false} PendingIsOpen(events: seq<Event>, o: Owner)
    requires Run(events)
    ensures After(events).Pending(o) == Open(events, o, 0)
  {
    if events != [] {
      var front, e := events[..|events| - 1], events[|events| - 1];
      assert events == front + [e];
      PendingIsOpen(front, o);
      RunKeepsInv(front);
      PendingAfter(After(front), e, o);
      OpenStep(front, e, o, 0);
    }
  }

  /** Every token comes up in at most one Enqueue. */
  predicate FreshTokens(events: seq<Event>) {
    forall i, j :: 0 <= i < j < |events| && events[i].Enqueue? && events[j].Enqueue? ==> events[i].token != events[j].token
  }

  lemma {:induction false} OpenMember(events: seq<Event>, o: Owner, i: nat, t: Token)
    requires i <= |events| && t in Open(events, o, i)
    ensures exists j :: i <= j < |events| && events[j] == Enqueue(o, t) && !TakenFrom(events, t, j + 1)
    decreases |events| - i
  {
    if i < |events| && !(events[i] == Enqueue(o, t) && !TakenFrom(events, t, i + 1)) {
      OpenMember(events, o, i + 1, t);
    }
  }

  lemma TakenStays(events: seq<Event>, later: seq<Event>, t: Token, i: nat)
    requires TakenFrom(events, t, i)
    ensures TakenFrom(events + later, t, i)
  {
    var k :| i <= k < |events| && (events[k] == Claim(t) || events[k] == Remove(t));
    assert (events + later)[k] == events[k];
  }

  /** With fresh tokens, one that was claimed or removed after it was enqueued
      is never pending again. */
  lemma {:induction false} NeverPendingAgain(events: seq<Event>, later: seq<Event>, o: Owner, t: Token, i: nat)
    requires Run(events + later) && FreshTokens(events + later)
    requires i < |events| && events[i].Enqueue? && events[i].token == t && TakenFrom(events, t, i + 1)
    ensures t !in After(events + later).Pending(o)
  {
    var all := events + later;
    PendingIsOpen(all, o);
    assert all[i] == events[i];
    if t in Open(all, o, 0) {
      OpenMember(all, o, 0, t);
      var j :| 0 <= j < |all| && all[j] == Enqueue(o, t) && !TakenFrom(all, t, j + 1);
      TakenStays(events, later, t, i + 1);
    }
  }

  /** No wake-up is lost: a poll asleep while its owner has something pending
      holds its wake-up, and one without a wake-up is registered for the next. */
  lemma {:induction false} NoWakeUpLost(events: seq<Event>, w: Waiter)
    requires Run(events) && w in After(events).blocked
    ensures var s, o := After(events), After(events).blocked[w];
            && (s.Pending(o) != [] ==> w in s.signalled)
            && (w !in s.signalled ==> w in s.Waiting(o))
  {
    RunKeepsInv(events);
    var s := After(events);
    assert Registered(s, s.blocked[w], w) <==> w in s.Waiting(s.blocked[w]);
  }

  // ------------------------------------------------------------ the live tables

  class Tables {
    var jobs: map<Token, Job>
    var pending: map<Owner, seq<Token>>
    var waiters: map<Owner, seq<Waiter>>
    var blocked: map<Waiter, Owner>
    var signalled: set<Waiter>

    ghost function View(): State
      reads this
    {
      State(jobs, pending, waiters, blocked, signalled)
    }

    constructor ()
      ensures View() == NO_JOBS
    {
      jobs, pending, waiters, blocked, signalled := map[], map[], map[], map[], {};
    }

    static method Kept<T(==,!new)>(list: seq<T>, x: T) returns (kept: seq<T>)
      ensures kept == Without(list, x)
    {
      kept := [];
      for i := 0 to |list|
        invariant kept == Without(list[..i], x)
      {
        assert list[..i + 1][..i] == list[..i];
        if list[i] != x {
          kept := kept + [list[i]];
        }
      }
      assert list[..|list|] == list;
    }

    /** relayEnqueue: list the job and wake everyone registered. */
    method EnqueueJob(owner: Owner, token: Token)
      modifies this
      ensures View() == Apply(old(View()), Enqueue(owner, token))
    {
      jobs := jobs[token := Job(owner, false)];
      pending := pending[owner := (if owner in pending then pending[owner] else []) + [token]];
      var list := if owner in waiters then waiters[owner] else [];
      for i := 0 to |list|
        modifies `signalled
        invariant signalled == old(signalled) + Members(list[..i])
      {
        signalled := signalled + {list[i]};
      }
      assert list[..|list|] == list;
      waiters := waiters[owner := []];
    }

    method DropPending(owner: Owner, token: Token)
      modifies `pending
      ensures pending == Drop(old(pending), owner, token)
    {
      if owner in pending && |pending[owner]| > 0 {
        var kept := Kept(pending[owner], token);
        if |kept| == 0 {
          pending := pending - {owner};
        } else {
          pending := pending[owner := kept];
        }
      }
    }

    /** relayRemove: whether the job was there. */
    method RemoveJob(token: Token) returns (ok: bool)
      modifies this
      ensures ok <==> token in old(jobs)
      ensures View() == Apply(old(View()), Remove(token))
    {
      ok := token in jobs;
      if ok {
        var owner := jobs[token].owner;
        jobs := jobs - {token};
        DropPending(owner, token);
      }
    }

    /** The locked part of a piece upload: whether its body is taken. */
    method ClaimJob(token: Token) returns (ok: bool)
      modifies this
      ensures ok <==> token in old(jobs)
      ensures View() == Apply(old(View()), Claim(token))
    {
      ok := token in jobs;
      if ok {
        var job := jobs[token];
        jobs := jobs[token := job.(claimed := true)];
        DropPending(job.owner, token);
      }
    }

    /** First locked part of a poll: what is pending now, or go to sleep. */
    method PollStart(owner: Owner, waiter: Waiter) returns (offered: seq<Token>)
      modifies this
      ensures offered == old(View()).Pending(owner)
      ensures View() == Apply(old(View()), Poll(owner, waiter))
      ensures offered == [] ==> waiter in blocked && blocked[waiter] == owner
    {
      offered := if owner in pending then pending[owner] else [];
      if |offered| == 0 {
        waiters := waiters[owner := (if owner in waiters then waiters[owner] else []) + [waiter]];
        blocked := blocked[waiter := owner];
      }
    }

    /** Second locked part, once woken, timed out or gone. */
    method PollEnd(waiter: Waiter) returns (offered: seq<Token>)
      requires waiter in blocked
      modifies this
      ensures offered == old(View()).Pending(old(blocked[waiter]))
      ensures View() == Apply(old(View()), Done(waiter))
    {
      var owner := blocked[waiter];
      offered := if owner in pending then pending[owner] else [];
      if owner in waiters && |waiters[owner]| > 0 {
        var kept := Kept(waiters[owner], waiter);
        if |kept| == 0 {
          waiters := waiters - {owner};
        } else {
          waiters := waiters[owner := kept];
        }
      }
      blocked := blocked - {waiter};
      signalled := signalled - {waiter};
    }
  }
}
