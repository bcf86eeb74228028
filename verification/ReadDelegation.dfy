/** Read delegation: threads of one compute node that look up the same key queue behind a ticket lock, and a thread whose
    turn comes while a result is handed over returns that result instead of reading. */
module ReadDelegation {
  import opened Basics

  type Key = nat
  type Value = nat

  /** A search result, tagged with the key it was read for. */
  datatype Result = Result(key: Key, value: Value)

  /** Where a thread is.  Tickets count from 0 without wrapping; the code only sees them modulo 256. */
  datatype Thread =
    | Outside
    | Announced(key: Key)
    | Waiting(key: Key, ticket: nat)
    | InTurn(key: Key, ticket: nat)
    | Serving(key: Key, ticket: nat)
    | Closing(key: Key, ticket: nat, got: Result)
    | Leaving(key: Key, ticket: nat, got: Result)
    | Done(key: Key, got: Result)
  {
    /** The thread holds a ticket that has not been passed on. */
    predicate Queued() { Waiting? || Turn() }

    /** It is this thread's turn. */
    predicate Turn() { InTurn? || Serving? || Closing? || Leaving? }
  }

  /** One slot of the local lock table.  `won` logs what winners have read from the tree; no step looks at it. */
  datatype Slot = Slot(current: nat, nextTicket: nat, handover: bool, uniqueKey: Option<Key>, res: Option<Result>,
                       threads: seq<Thread>, won: set<Result>)

  /** What the 8-bit counters show. */
  function Byte(n: nat): nat { n % 256 }

  // ---- the steps ----

  /** A thread starts a lookup, its first or another one: install the key if the slot is free; join if it is the same key; otherwise go ahead alone. */
  ghost predicate Announce(s: Slot, s': Slot, t: nat, k: Key) {
    && t < |s.threads| && (s.threads[t].Outside? || s.threads[t].Done?)
    && (if s.uniqueKey == None || s.uniqueKey == Some(k)
        then s' == s.(uniqueKey := Some(k), threads := s.threads[t := Announced(k)])
        else s' == s)
  }

  ghost predicate TakeTicket(s: Slot, s': Slot, t: nat) {
    && t < |s.threads| && s.threads[t].Announced?
    && s' == s.(nextTicket := s.nextTicket + 1, threads := s.threads[t := Waiting(s.threads[t].key, s.nextTicket)])
  }

  /** The wait ends when the 8-bit ticket equals the 8-bit counter. */
  ghost predicate Enter(s: Slot, s': Slot, t: nat) {
    && t < |s.threads| && s.threads[t].Waiting? && Byte(s.threads[t].ticket) == Byte(s.current)
    && s' == s.(threads := s.threads[t := InTurn(s.threads[t].key, s.threads[t].ticket)])
  }

  /** The key may have changed while waiting: then pass the turn on.  Otherwise the hand-over is dropped if the time
      window has run out, which is left open here. */
  ghost predicate Check(s: Slot, s': Slot, t: nat, drop: bool) {
    && t < |s.threads| && s.threads[t].InTurn?
    && (if s.uniqueKey != Some(s.threads[t].key)
        then s' == s.(current := s.current + 1, threads := s.threads[t := Outside])
        else s' == s.(handover := s.handover && !drop, threads := s.threads[t := Serving(s.threads[t].key, s.threads[t].ticket)]))
  }

  /** A winner stores what it read, anyone else takes what is stored; then decide whether to hand over. */
  ghost predicate Finish(s: Slot, s': Slot, t: nat, v: Value) {
    && t < |s.threads| && s.threads[t].Serving?
    && var k := s.threads[t].key;
       var stored := if s.handover then s.res else Some(Result(k, v));
       && stored.Some?
       && s' == s.(res := stored, handover := Byte(s.nextTicket) != Byte(s.current + 1),
                   won := if s.handover then s.won else s.won + {Result(k, v)},
                   threads := s.threads[t := Closing(k, s.threads[t].ticket, stored.value)])
  }

  /** Without a hand-over the epoch ends and the key is cleared. */
  ghost predicate Close(s: Slot, s': Slot, t: nat) {
    && t < |s.threads| && s.threads[t].Closing?
    && s' == s.(uniqueKey := if s.handover then s.uniqueKey else None,
                threads := s.threads[t := Leaving(s.threads[t].key, s.threads[t].ticket, s.threads[t].got)])
  }

  ghost predicate Leave(s: Slot, s': Slot, t: nat) {
    && t < |s.threads| && s.threads[t].Leaving?
    && s' == s.(current := s.current + 1, threads := s.threads[t := Done(s.threads[t].key, s.threads[t].got)])
  }

  datatype Step =
    | StepAnnounce(t: nat, k: Key) | StepTicket(t: nat) | StepEnter(t: nat) | StepCheck(t: nat, drop: bool)
    | StepFinish(t: nat, v: Value) | StepClose(t: nat) | StepLeave(t: nat)

  ghost predicate TakesStep(s: Slot, s': Slot, a: Step) {
    match a
    case StepAnnounce(t, k) => Announce(s, s', t, k)
    case StepTicket(t) => TakeTicket(s, s', t)
    case StepEnter(t) => Enter(s, s', t)
    case StepCheck(t, drop) => Check(s, s', t, drop)
    case StepFinish(t, v) => Finish(s, s', t, v)
    case StepClose(t) => Close(s, s', t)
    case StepLeave(t) => Leave(s, s', t)
  }

  ghost predicate Next(s: Slot, s': Slot) {
    s == s' || exists a :: TakesStep(s, s', a)
  }

  // ---- the invariant ----

  /** Queued tickets lie between the counters, are pairwise different, and the thread in its turn has the oldest. */
  ghost predicate GoodTickets(s: Slot) {
    && s.current <= s.nextTicket
    && (forall t :: 0 <= t < |s.threads| && s.threads[t].Queued() ==> s.current <= s.threads[t].ticket < s.nextTicket)
    && (forall t :: 0 <= t < |s.threads| && s.threads[t].Turn() ==> s.threads[t].ticket == s.current)
    && (forall t, u :: 0 <= t < u < |s.threads| && s.threads[t].Queued() && s.threads[u].Queued() ==>
          s.threads[t].ticket != s.threads[u].ticket)
  }

  /** Thread t holds ticket n. */
  predicate Holds(s: Slot, t: nat, n: nat) {
    t < |s.threads| && s.threads[t].Queued() && s.threads[t].ticket == n
  }

  ghost predicate Held(s: Slot, n: nat) {
    exists t :: Holds(s, t, n)
  }

  /** Every ticket between the counters is held by a thread. */
  ghost predicate AllHeld(s: Slot) {
    forall n {:trigger Held(s, n)} :: s.current <= n < s.nextTicket ==> Held(s, n)
  }

  /** A result that is handed over is for the announced key; a thread being served has that key; results carry the key
      of the thread that returns them and were read by a winner. */
  ghost predicate GoodResults(s: Slot) {
    && (s.handover ==> s.res.Some? && s.uniqueKey == Some(s.res.value.key) && s.res.value in s.won)
    && (forall t :: 0 <= t < |s.threads| && (s.threads[t].Serving? || s.threads[t].Closing?) ==> s.uniqueKey == Some(s.threads[t].key))
    && (forall t :: 0 <= t < |s.threads| && s.threads[t].Closing? ==> s.res == Some(s.threads[t].got))
    && (forall t :: 0 <= t < |s.threads| && (s.threads[t].Closing? || s.threads[t].Leaving? || s.threads[t].Done?) ==>
          s.threads[t].got.key == s.threads[t].key && s.threads[t].got in s.won)
  }

  /** A result is handed over only to someone: while a thread is closing or leaving, the next ticket is taken. */
  ghost predicate GoodHandover(s: Slot) {
    forall t :: 0 <= t < |s.threads| && (s.threads[t].Closing? || s.threads[t].Leaving?) && s.handover ==> s.current + 1 < s.nextTicket
  }

  /** The thread is looking up k in the slot and has not closed yet. */
  predicate Uses(x: Thread, k: Key) {
    !x.Outside? && !x.Leaving? && !x.Done? && x.key == k
  }

  /** The slot is not blocked by a key that nobody looks up: a key stays announced only while a thread uses it, or its
      result is being handed over. */
  ghost predicate KeyInUse(s: Slot) {
    s.uniqueKey.Some? && !s.handover ==> exists t :: 0 <= t < |s.threads| && Uses(s.threads[t], s.uniqueKey.value)
  }

  ghost predicate Inv(s: Slot) {
    GoodTickets(s) && AllHeld(s) && GoodResults(s) && GoodHandover(s) && KeyInUse(s)
  }

  /** At most 256 tickets are outstanding. */
  predicate Bounded(s: Slot) {
    s.nextTicket <= s.current + 256
  }

  /** Among numbers: 8-bit comparison picks out the oldest exactly as long as at most 256 are outstanding. */
  lemma OldestTicketIff(current: nat, nextTicket: nat)
    requires current < nextTicket
    ensures (forall n :: current <= n < nextTicket && Byte(n) == Byte(current) ==> n == current)
       <==> nextTicket <= current + 256
  {
    if nextTicket > current + 256 {
      assert Byte(current + 256) == Byte(current);
    }
  }

  /** The wait of thread t is over, or was. */
  predicate Admitted(s: Slot, t: nat) {
    t < |s.threads| && s.threads[t].Queued() && Byte(s.threads[t].ticket) == Byte(s.current)
  }

  /** Among threads: while tickets are outstanding, the 8-bit counter admits at least one thread, and exactly one as long
      as at most 256 tickets are outstanding. */
  lemma OneAdmittedIff(s: Slot)
    requires Inv(s) && s.current < s.nextTicket
    ensures exists t :: Admitted(s, t)
    ensures (forall t, u :: Admitted(s, t) && Admitted(s, u) ==> t == u) <==> Bounded(s)
  {
    assert Held(s, s.current);
    var t :| Holds(s, t, s.current);
    assert Admitted(s, t);
    if Bounded(s) {
      OldestTicketIff(s.current, s.nextTicket);
    } else {
      assert Held(s, s.current + 256);
      var u :| Holds(s, u, s.current + 256);
      assert Byte(s.current + 256) == Byte(s.current);
      assert Admitted(s, u) && u != t;
    }
  }

  lemma OneInTurn(s: Slot, t: nat, u: nat)
    requires GoodTickets(s) && t < |s.threads| && u < |s.threads| && s.threads[t].Turn() && s.threads[u].Turn()
    ensures t == u
  {}

  /** A thread that keeps its place in the queue, or is not in it. */
  lemma SameQueue(s: Slot, s': Slot, t: nat, x: Thread)
    requires GoodTickets(s) && t < |s.threads| && s'.threads == s.threads[t := x]
    requires s'.current == s.current && s'.nextTicket == s.nextTicket
    requires x.Queued() ==> s.threads[t].Queued() && x.ticket == s.threads[t].ticket
    requires x.Turn() ==> x.ticket == s.current
    ensures GoodTickets(s')
  {}

  /** Passing the turn on. */
  lemma PassOn(s: Slot, s': Slot, t: nat, x: Thread)
    requires GoodTickets(s) && t < |s.threads| && s.threads[t].Turn() && !x.Queued() && s'.threads == s.threads[t := x]
    requires s'.current == s.current + 1 && s'.nextTicket == s.nextTicket
    ensures GoodTickets(s')
  {
    OthersNotInTurn(s, t);
    forall u | 0 <= u < |s.threads| && s'.threads[u].Queued() ensures s'.current <= s'.threads[u].ticket < s'.nextTicket {
      assert u != t && s.threads[u].Queued();
    }
  }

  lemma TicketTaken(s: Slot, s': Slot, t: nat)
    requires GoodTickets(s) && TakeTicket(s, s', t)
    ensures GoodTickets(s')
  {}

  lemma StepTickets(s: Slot, s': Slot, a: Step)
    requires GoodTickets(s) && Bounded(s) && TakesStep(s, s', a)
    ensures GoodTickets(s')
  {
    hide GoodTickets;
    TurnTicket(s, a.t);
    match a
    case StepAnnounce(t, k) => if s' != s { SameQueue(s, s', t, Announced(k)); }
    case StepTicket(t) => TicketTaken(s, s', t);
    case StepEnter(t) => SameQueue(s, s', t, s'.threads[t]);
    case StepCheck(t, _) => if s'.current == s.current { SameQueue(s, s', t, s'.threads[t]); } else { PassOn(s, s', t, Outside); }
    case StepFinish(t, _) => SameQueue(s, s', t, s'.threads[t]);
    case StepClose(t) => SameQueue(s, s', t, s'.threads[t]);
    case StepLeave(t) => PassOn(s, s', t, s'.threads[t]);
  }

  /** A thread in its turn, or about to be admitted, has the oldest ticket. */
  lemma TurnTicket(s: Slot, t: nat)
    requires GoodTickets(s) && Bounded(s)
    ensures t < |s.threads| && s.threads[t].Turn() ==> s.threads[t].ticket == s.current
    ensures t < |s.threads| && s.threads[t].Waiting? && Byte(s.threads[t].ticket) == Byte(s.current) ==>
              s.threads[t].ticket == s.current
  {
    if s.current < s.nextTicket { OldestTicketIff(s.current, s.nextTicket); }
  }

  /** Nobody else is being served while one thread has its turn. */
  lemma OthersNotInTurn(s: Slot, t: nat)
    requires GoodTickets(s) && t < |s.threads| && s.threads[t].Turn()
    ensures forall u :: 0 <= u < |s.threads| && u != t ==> !s.threads[u].Turn()
  {
    forall u | 0 <= u < |s.threads| && u != t ensures !s.threads[u].Turn() {
      if s.threads[u].Turn() { OneInTurn(s, t, u); }
    }
  }

  /** Tickets stay held when nobody leaves the queue. */
  lemma SameHeld(s: Slot, s': Slot, t: nat, x: Thread)
    requires AllHeld(s) && t < |s.threads| && s'.threads == s.threads[t := x]
    requires s'.current == s.current && s'.nextTicket == s.nextTicket
    requires s.threads[t].Queued() ==> x.Queued() && x.ticket == s.threads[t].ticket
    ensures AllHeld(s')
  {
    forall n | s'.current <= n < s'.nextTicket ensures Held(s', n) {
      assert Held(s, n);
      var u :| Holds(s, u, n);
      assert Holds(s', u, n);
    }
  }

  /** A thread that passes its turn on gives up the oldest ticket. */
  lemma PassedHeld(s: Slot, s': Slot, t: nat, x: Thread)
    requires GoodTickets(s) && AllHeld(s) && t < |s.threads| && s.threads[t].Turn() && s'.threads == s.threads[t := x]
    requires s'.current == s.current + 1 && s'.nextTicket == s.nextTicket
    ensures AllHeld(s')
  {
    forall n | s'.current <= n < s'.nextTicket ensures Held(s', n) {
      assert Held(s, n);
      var u :| Holds(s, u, n);
      assert Holds(s', u, n);
    }
  }

  lemma TakenHeld(s: Slot, s': Slot, t: nat)
    requires AllHeld(s) && TakeTicket(s, s', t)
    ensures AllHeld(s')
  {
    forall n | s'.current <= n < s'.nextTicket ensures Held(s', n) {
      if n == s.nextTicket {
        assert Holds(s', t, n);
      } else {
        assert Held(s, n);
        var u :| Holds(s, u, n);
        assert Holds(s', u, n);
      }
    }
  }

  lemma StepHeld(s: Slot, s': Slot, a: Step)
    requires GoodTickets(s) && AllHeld(s) && TakesStep(s, s', a)
    ensures AllHeld(s')
  {
    hide GoodTickets, AllHeld;
    match a
    case StepAnnounce(t, k) => if s' != s { SameHeld(s, s', t, Announced(k)); }
    case StepTicket(t) => TakenHeld(s, s', t);
    case StepEnter(t) => SameHeld(s, s', t, s'.threads[t]);
    case StepCheck(t, _) => if s'.current == s.current { SameHeld(s, s', t, s'.threads[t]); } else { PassedHeld(s, s', t, Outside); }
    case StepFinish(t, _) => SameHeld(s, s', t, s'.threads[t]);
    case StepClose(t) => SameHeld(s, s', t, s'.threads[t]);
    case StepLeave(t) => PassedHeld(s, s', t, s'.threads[t]);
  }

  lemma StepResults(s: Slot, s': Slot, a: Step)
    requires Inv(s) && TakesStep(s, s', a)
    ensures GoodResults(s')
  {
    if a.StepCheck? || a.StepFinish? || a.StepClose? || a.StepLeave? { OthersNotInTurn(s, a.t); }
  }

  /** The hand-over is decided by whether someone waits. */
  lemma FinishDecides(s: Slot, s': Slot, t: nat, v: Value)
    requires GoodTickets(s) && Bounded(s) && Finish(s, s', t, v)
    ensures s'.handover <==> s.current + 1 < s.nextTicket
  {
    OldestTicketIff(s.current + 1, s.current + 257);
  }

  lemma StepHandover(s: Slot, s': Slot, a: Step)
    requires GoodTickets(s) && GoodHandover(s) && Bounded(s) && TakesStep(s, s', a)
    ensures GoodHandover(s')
  {
    if a.StepCheck? || a.StepFinish? || a.StepClose? || a.StepLeave? { OthersNotInTurn(s, a.t); }
    if a.StepFinish? { FinishDecides(s, s', a.t, a.v); }
  }

  lemma StepKeyInUse(s: Slot, s': Slot, a: Step)
    requires GoodResults(s) && KeyInUse(s) && TakesStep(s, s', a)
    ensures KeyInUse(s')
  {
    var t := a.t;
    if s'.uniqueKey.Some? && !s'.handover {
      var k := s'.uniqueKey.value;
      if !Uses(s'.threads[t], k) {
        assert s.uniqueKey == s'.uniqueKey && !s.handover;
        var u :| 0 <= u < |s.threads| && Uses(s.threads[u], k);
        assert u != t && Uses(s'.threads[u], k);
      }
    }
  }

  lemma StepInv(s: Slot, s': Slot, a: Step)
    requires Inv(s) && Bounded(s) && TakesStep(s, s', a)
    ensures Inv(s')
  {
    hide AllHeld, GoodResults, TakesStep, GoodHandover, KeyInUse;
    StepKeyInUse(s, s', a);
    StepHandover(s, s', a);
    StepTickets(s, s', a);
    StepHeld(s, s', a);
    StepResults(s, s', a);
  }

  ghost predicate Init(s: Slot) {
    && s.current == s.nextTicket && !s.handover && s.uniqueKey == None && s.won == {}
    && forall t :: 0 <= t < |s.threads| ==> s.threads[t].Outside?
  }

  /** A run in which never more than 256 tickets are outstanding on the slot. */
  ghost predicate Run(states: seq<Slot>) {
    && states != [] && Init(states[0])
    && (forall i :: 0 <= i < |states| ==> Bounded(states[i]))
    && (forall i :: 0 <= i < |states| - 1 ==> Next(states[i], states[i + 1]))
  }

  lemma {:induction false} RunInv(states: seq<Slot>, i: nat)
    requires Run(states) && i < |states|
    ensures Inv(states[i])
  {
    if i > 0 {
      RunInv(states, i - 1);
      assert Next(states[i - 1], states[i - 1 + 1]);
      if states[i - 1] != states[i] {
        var a :| TakesStep(states[i - 1], states[i], a);
        StepInv(states[i - 1], states[i], a);
      }
    }
  }

  /** In every such run at most one thread has its turn, and whatever a thread returns is what some winner read
      from the tree for that thread's own key. */
  lemma DelegationSafe(states: seq<Slot>, i: nat)
    requires Run(states) && i < |states|
    ensures forall t, u :: (0 <= t < |states[i].threads| && 0 <= u < |states[i].threads|
                            && states[i].threads[t].Turn() && states[i].threads[u].Turn()) ==> t == u
    ensures forall t :: 0 <= t < |states[i].threads| && states[i].threads[t].Done? ==>
              states[i].threads[t].got.key == states[i].threads[t].key && states[i].threads[t].got in states[i].won
  {
    RunInv(states, i);
    forall t, u | 0 <= t < |states[i].threads| && 0 <= u < |states[i].threads|
      && states[i].threads[t].Turn() && states[i].threads[u].Turn() ensures t == u {
      OneInTurn(states[i], t, u);
    }
  }

  // ---- how many threads are safe ----

  /** The threads that hold one of the n oldest tickets. */
  ghost function Holders(s: Slot, n: nat): (h: set<nat>) {
    set t | 0 <= t < |s.threads| && s.threads[t].Queued() && s.threads[t].ticket < s.current + n
  }

  /** No thread holds two tickets. */
  lemma {:induction false} HoldersCount(s: Slot, n: nat)
    requires AllHeld(s) && s.current + n <= s.nextTicket
    ensures |Holders(s, n)| >= n
  {
    if n > 0 {
      HoldersCount(s, n - 1);
      assert Held(s, s.current + n - 1);
      var t :| Holds(s, t, s.current + n - 1);
      SubsetSize(Holders(s, n - 1) + {t}, Holders(s, n));
    }
  }

  function Below(n: nat): (s: set<nat>)
    ensures |s| == n && forall i: nat :: i in s <==> i < n
  {
    if n == 0 then {} else Below(n - 1) + {n - 1}
  }

  /** There are never more tickets outstanding than threads. */
  lemma TicketsPerThread(s: Slot)
    requires Inv(s)
    ensures s.nextTicket - s.current <= |s.threads|
  {
    HoldersCount(s, s.nextTicket - s.current);
    SubsetSize(Holders(s, s.nextTicket - s.current), Below(|s.threads|));
  }

  /** A run with any number of tickets outstanding. */
  ghost predicate FreeRun(states: seq<Slot>) {
    && states != [] && Init(states[0])
    && (forall i :: 0 <= i < |states| - 1 ==> Next(states[i], states[i + 1]))
  }

  ghost predicate AtMostOneTurn(s: Slot) {
    forall t, u :: (0 <= t < |s.threads| && 0 <= u < |s.threads| && s.threads[t].Turn() && s.threads[u].Turn()) ==> t == u
  }

  /** Up to 256 threads, no run can go wrong. */
  lemma {:induction false} FewThreadsSafe(states: seq<Slot>, i: nat)
    requires FreeRun(states) && i < |states| && |states[0].threads| <= 256
    ensures Inv(states[i]) && Bounded(states[i]) && |states[i].threads| == |states[0].threads|
  {
    hide Inv, TakesStep;
    if i == 0 {
      InitInv(states[0]);
    } else {
      FewThreadsSafe(states, i - 1);
      assert Next(states[i - 1], states[i - 1 + 1]);
      if states[i - 1] != states[i] {
        var a :| TakesStep(states[i - 1], states[i], a);
        StepInv(states[i - 1], states[i], a);
        SameThreads(states[i - 1], states[i], a);
      }
    }
    TicketsPerThread(states[i]);
  }

  lemma InitInv(s: Slot)
    requires Init(s)
    ensures Inv(s)
  {}

  lemma SameThreads(s: Slot, s': Slot, a: Step)
    requires TakesStep(s, s', a)
    ensures |s'.threads| == |s.threads|
  {}

  lemma OneTurn(s: Slot)
    requires GoodTickets(s)
    ensures AtMostOneTurn(s)
  {
    forall t, u | 0 <= t < |s.threads| && 0 <= u < |s.threads| && s.threads[t].Turn() && s.threads[u].Turn() ensures t == u {
      OneInTurn(s, t, u);
    }
  }

  /** Moment i of a run in which 257 threads announce key 1, then all take tickets, and two of them are admitted. */
  ghost function CrowdThread(i: nat, t: nat): (x: Thread) {
    if t > 256 then Outside
    else if i <= 257 then if t < i then Announced(1) else Outside
    else if (i >= 515 && t == 0) || (i >= 516 && t == 256) then InTurn(1, t)
    else if t < i - 257 then Waiting(1, t) else Announced(1)
  }

  ghost function Crowd(i: nat, n: nat): (s: Slot) {
    Slot(0, if i <= 257 then 0 else if i <= 514 then i - 257 else 257, false, if i == 0 then None else Some(1), None,
         seq(n, (t: nat) => CrowdThread(i, t)), {})
  }

  lemma CrowdStep(i: nat, n: nat)
    requires i < 516 && n > 256
    ensures Next(Crowd(i, n), Crowd(i + 1, n))
  {
    var s, s' := Crowd(i, n), Crowd(i + 1, n);
    if i < 257 {
      assert s'.threads == s.threads[i := Announced(1)];
      assert TakesStep(s, s', StepAnnounce(i, 1));
    } else if i < 514 {
      assert s'.threads == s.threads[i - 257 := Waiting(1, i - 257)];
      assert TakesStep(s, s', StepTicket(i - 257));
    } else if i == 514 {
      assert s'.threads == s.threads[0 := InTurn(1, 0)];
      assert TakesStep(s, s', StepEnter(0));
    } else {
      assert s'.threads == s.threads[256 := InTurn(1, 256)];
      assert TakesStep(s, s', StepEnter(256));
    }
  }

  /** With one thread more, a run from the start admits two threads at once. */
  lemma TwoInTurn(n: nat) returns (states: seq<Slot>)
    requires n > 256
    ensures FreeRun(states) && |states[0].threads| == n && !AtMostOneTurn(states[|states| - 1])
  {
    states := seq(517, (i: nat) => Crowd(i, n));
    forall i | 0 <= i < |states| - 1 ensures Next(states[i], states[i + 1]) {
      CrowdStep(i, n);
    }
    var last := states[516];
    assert last.threads[0].Turn() && last.threads[256].Turn();
  }

  /** One thread at a time is in its turn, in every run, exactly when at most 256 threads use the slot. */
  lemma ThreadsSafeIff(n: nat)
    ensures (forall states: seq<Slot> :: FreeRun(states) && |states[0].threads| == n ==> AtMostOneTurn(states[|states| - 1])) <==> n <= 256
  {
    hide AtMostOneTurn, Inv, GoodTickets;
    if n > 256 {
      var bad := TwoInTurn(n);
    } else {
      forall states: seq<Slot> | FreeRun(states) && |states[0].threads| == n ensures AtMostOneTurn(states[|states| - 1]) {
        LastSafe(states);
      }
    }
  }

  lemma LastSafe(states: seq<Slot>)
    requires FreeRun(states) && |states[0].threads| <= 256
    ensures AtMostOneTurn(states[|states| - 1])
  {
    hide AtMostOneTurn;
    FewThreadsSafe(states, |states| - 1);
    OneTurn(states[|states| - 1]);
  }
}
