/** The reply slot between a JS thread that makes a host call and the owner process that
    answers it: one mutex, one condition variable, one slot. Every step is one atomic
    action of either side; a run is any interleaving. */
module ReplySlot {
  import opened Common

  /** The thread inside `host_call_generic`. From `Checking` on it holds the mutex, except
      while it sleeps, wants the mutex back, or has left the critical section. */
  datatype Waiter =
    | Idle
    | Called(req: nat)
    | Checking(req: nat)
    | Sleeping(req: nat)
    | Woken(req: nat)
    | Reading(req: nat)
    | Clearing(req: nat, reply: int, env: nat)
    | Unlocking(req: nat, reply: int, env: nat)
    | Freeing(req: nat, reply: int, env: nat)

  /** The owner inside `nif_deliver_host_reply`. */
  datatype Owner =
    | Resting
    | Entering(reply: int)
    | Storing(reply: int)
    | Signalling
    | Leaving

  datatype Holder = Nobody | TheWaiter | TheOwner

  /** The slot, the mutex, both threads, the owner's mailbox; environments are numbered as
      they are allocated. `answers` records what the owner replied to each request, and
      `results` what each call returned. */
  datatype State = State(
    ready: bool, slotReply: int, slotEnv: Option<nat>, mutex: Holder,
    waiter: Waiter, owner: Owner, mail: seq<nat>,
    nextReq: nat, nextEnv: nat, freed: set<nat>,
    answers: map<nat, int>, results: map<nat, int>)

  datatype Step =
    | Send
    | SendFails
    | WaiterLocks
    | WaiterTests
    | WakesUp
    | WaiterRelocks
    | WaiterReads
    | WaiterClears
    | WaiterUnlocks
    | WaiterFrees
    | OwnerReceives(answer: int)
    | OwnerLocks
    | OwnerStores
    | OwnerSignals
    | OwnerUnlocks
    | OwnerVolunteers(answer: int)

  const INITIAL: State := State(false, 0, None, Nobody, Idle, Resting, [], 0, 0, {}, map[], map[])

  /** One step, if it is possible. `OwnerVolunteers` is a delivery that answers no request:
      the hypothesis of one reply per call rules it out. */
  function Next(s: State, a: Step): Option<State> {
    match a
    case Send =>
      if s.waiter == Idle then
        Some(s.(waiter := Called(s.nextReq), mail := s.mail + [s.nextReq], nextReq := s.nextReq + 1))
      else None
    case SendFails => if s.waiter == Idle then Some(s) else None
    case WaiterLocks =>
      if s.waiter.Called? && s.mutex == Nobody then Some(s.(waiter := Checking(s.waiter.req), mutex := TheWaiter))
        else None
    case WaiterTests =>
      if !s.waiter.Checking? then None
      else if s.ready then Some(s.(waiter := Reading(s.waiter.req)))
      else Some(s.(waiter := Sleeping(s.waiter.req), mutex := Nobody))
    case WakesUp => if s.waiter.Sleeping? then Some(s.(waiter := Woken(s.waiter.req))) else None
    case WaiterRelocks =>
      if s.waiter.Woken? && s.mutex == Nobody then Some(s.(waiter := Checking(s.waiter.req), mutex := TheWaiter))
        else None
    case WaiterReads =>
      if s.waiter.Reading? && s.slotEnv.Some? then
        Some(s.(waiter := Clearing(s.waiter.req, s.slotReply, s.slotEnv.value)))
      else None
    case WaiterClears =>
      if s.waiter.Clearing? then
        Some(s.(waiter := Unlocking(s.waiter.req, s.waiter.reply, s.waiter.env), ready := false, slotEnv := None))
      else None
    case WaiterUnlocks =>
      if s.waiter.Unlocking? then
        Some(s.(waiter := Freeing(s.waiter.req, s.waiter.reply, s.waiter.env), mutex := Nobody))
      else None
    case WaiterFrees =>
      if s.waiter.Freeing? then
        Some(s.(waiter := Idle, freed := s.freed + {s.waiter.env},
                results := s.results[s.waiter.req := s.waiter.reply]))
      else None
    case OwnerReceives(answer) =>
      if s.owner == Resting && s.mail != [] then
        Some(s.(owner := Entering(answer), answers := s.answers[s.mail[0] := answer], mail := s.mail[1..]))
      else None
    case OwnerVolunteers(answer) => if s.owner == Resting then Some(s.(owner := Entering(answer))) else None
    case OwnerLocks =>
      if s.owner.Entering? && s.mutex == Nobody then Some(s.(owner := Storing(s.owner.reply), mutex := TheOwner))
        else None
    case OwnerStores =>
      if s.owner.Storing? then
        Some(s.(owner := Signalling, ready := true, slotReply := s.owner.reply, slotEnv := Some(s.nextEnv),
                nextEnv := s.nextEnv + 1))
      else None
    case OwnerSignals =>
      if s.owner == Signalling then
        Some(s.(owner := Leaving, waiter := if s.waiter.Sleeping? then Woken(s.waiter.req) else s.waiter))
      else None
    case OwnerUnlocks => if s.owner == Leaving then Some(s.(owner := Resting, mutex := Nobody)) else None
  }

  /** The run of a sequence of steps, if all of them are possible. */
  function Run(s: State, steps: seq<Step>): Option<State>
    decreases |steps|
  {
    if steps == [] then Some(s)
    else match Next(s, steps[0]) case None => None case Some(t) => Run(t, steps[1..])
  }

  /** The hypothesis on the owner: every delivery answers a request. */
  predicate Solicited(steps: seq<Step>) {
    forall i :: 0 <= i < |steps| ==> !steps[i].OwnerVolunteers?
  }

  // ----- the invariant -----

  predicate WaiterHolds(w: Waiter) { w.Checking? || w.Reading? || w.Clearing? || w.Unlocking? }

  predicate OwnerHolds(o: Owner) { o.Storing? || o.Signalling? || o.Leaving? }

  /** The thread has made a call and has not yet seen its reply. */
  predicate Awaiting(w: Waiter) { w.Called? || w.Checking? || w.Sleeping? || w.Woken? }

  /** Where the one outstanding request is: in the mailbox, with the owner, or answered in
      the slot. */
  predicate InMailbox(s: State, r: nat) { s.mail == [r] && s.owner == Resting && !s.ready && s.slotEnv.None? }

  predicate WithOwner(s: State, r: nat) {
    s.mail == [] && (s.owner.Entering? || s.owner.Storing?) && !s.ready && s.slotEnv.None?
    && r in s.answers && s.answers[r] == s.owner.reply
  }

  predicate InSlot(s: State, r: nat) {
    s.mail == [] && (s.owner == Signalling || s.owner == Leaving || s.owner == Resting) && s.ready
    && r in s.answers && s.answers[r] == s.slotReply && s.slotEnv.Some?
  }

  predicate Quiet(s: State) { s.mail == [] && s.owner == Resting && !s.ready && s.slotEnv.None? }

  /** The environment in the hands of the reader. */
  function InHand(w: Waiter): set<nat> {
    match w
    case Clearing(_, _, e) => {e}
    case Unlocking(_, _, e) => {e}
    case Freeing(_, _, e) => {e}
    case _ => {}
  }

  /** The environments that are neither freed nor unallocated: in the slot or in the hands of
      the reader. */
  function Held(s: State): set<nat> {
    (if s.slotEnv.Some? then {s.slotEnv.value} else {}) + InHand(s.waiter)
  }

  /** Every environment that was allocated is freed or held, and none is both. */
  ghost predicate Conserved(s: State) {
    (forall e: nat :: e < s.nextEnv <==> e in s.freed || e in Held(s)) && s.freed !! Held(s) && |Held(s)| <= 1
  }

  /** Who holds the mutex, and where the outstanding request is. */
  predicate Protocol(s: State) {
    && (s.mutex == TheWaiter <==> WaiterHolds(s.waiter))
    && (s.mutex == TheOwner <==> OwnerHolds(s.owner))
    && (Awaiting(s.waiter) ==> InMailbox(s, s.waiter.req) || WithOwner(s, s.waiter.req) || InSlot(s, s.waiter.req))
    // no sleep through a delivered reply: the signal is still to come
    && (s.waiter.Sleeping? && s.ready ==> s.owner == Signalling)
    && (s.waiter.Reading? ==> InSlot(s, s.waiter.req))
    && (s.waiter.Clearing? ==>
      InSlot(s, s.waiter.req) && s.waiter.reply == s.slotReply && s.slotEnv == Some(s.waiter.env))
    && (s.waiter.Unlocking? || s.waiter.Freeing? ==>
      Quiet(s) && s.waiter.req in s.answers && s.answers[s.waiter.req] == s.waiter.reply)
    && (s.waiter == Idle ==> Quiet(s))
  }

  /** What happened to the earlier requests. */
  ghost predicate History(s: State) {
    && (s.waiter != Idle ==> s.waiter.req + 1 == s.nextReq)
    && (forall r :: r in s.answers ==> r < s.nextReq)
    && (forall r :: r in s.results ==>
      r in s.answers && s.results[r] == s.answers[r] && (s.waiter != Idle ==> r != s.waiter.req))
    && (forall r: nat :: r < s.nextReq && (s.waiter == Idle || r != s.waiter.req) ==> r in s.results)
  }

  ghost predicate Inv(s: State) {
    Protocol(s) && Conserved(s) && History(s)
  }

  lemma InitialInv()
    ensures Inv(INITIAL)
  {
  }

  lemma ProtocolKept(s: State, a: Step)
    requires Protocol(s) && Next(s, a).Some? && !a.OwnerVolunteers?
    ensures Protocol(Next(s, a).value)
  {
  }

  lemma SameConserves(s: State, t: State)
    requires Conserved(s) && Held(t) == Held(s) && t.nextEnv == s.nextEnv && t.freed == s.freed
    ensures Conserved(t)
  {
  }

  /** The steps that neither allocate, hand over nor free. */
  lemma OtherHolds(s: State, a: Step)
    requires Next(s, a).Some? && !a.OwnerStores? && !a.WaiterFrees? && !a.WaiterReads? && !a.WaiterClears?
    ensures var t := Next(s, a).value;
            t.slotEnv == s.slotEnv && InHand(t.waiter) == InHand(s.waiter) && t.nextEnv == s.nextEnv
              && t.freed == s.freed
  {
  }

  lemma ConservedKept(s: State, a: Step)
    requires Protocol(s) && Conserved(s) && Next(s, a).Some? && !a.OwnerVolunteers?
    ensures Conserved(Next(s, a).value)
  {
    hide Conserved;
    hide Held;
    hide Protocol;
    var t := Next(s, a).value;
    if a == OwnerStores {
      StoreConserves(s);
    } else if a == WaiterFrees {
      FreeConserves(s);
    } else if a == WaiterReads {
      ReadHolds(s);
      SameConserves(s, t);
    } else if a == WaiterClears {
      ClearHolds(s);
      SameConserves(s, t);
    } else {
      OtherHolds(s, a);
      SameHeld(s, t);
      SameConserves(s, t);
    }
  }

  lemma SameHeld(s: State, t: State)
    requires t.slotEnv == s.slotEnv && InHand(t.waiter) == InHand(s.waiter)
    ensures Held(t) == Held(s)
  {
    hide InHand;
  }

  lemma ReadHolds(s: State)
    requires Protocol(s) && s.waiter.Reading? && s.slotEnv.Some?
    ensures Held(Next(s, WaiterReads).value) == Held(s)
  {
  }

  lemma ClearHolds(s: State)
    requires Protocol(s) && s.waiter.Clearing?
    ensures Held(Next(s, WaiterClears).value) == Held(s)
  {
  }

  lemma StoreHolds(s: State)
    requires Protocol(s) && s.owner.Storing?
    ensures Held(s) == {} && Held(Next(s, OwnerStores).value) == {s.nextEnv}
  {
  }

  lemma StoreConserves(s: State)
    requires Protocol(s) && Conserved(s) && s.owner.Storing?
    ensures Conserved(Next(s, OwnerStores).value)
  {
    hide Held;
    hide Protocol;
    StoreHolds(s);
  }

  lemma FreeConserves(s: State)
    requires Protocol(s) && Conserved(s) && s.waiter.Freeing?
    ensures Conserved(Next(s, WaiterFrees).value)
  {
    var t := Next(s, WaiterFrees).value;
    assert Held(s) == {s.waiter.env} && Held(t) == {};
  }

  lemma HistoryKept(s: State, a: Step)
    requires Protocol(s) && History(s) && Next(s, a).Some? && !a.OwnerVolunteers?
    ensures History(Next(s, a).value)
  {
    var t := Next(s, a).value;
    if a.OwnerReceives? {
      assert s.waiter != Idle && s.mail == [s.waiter.req];
    }
  }

  lemma StepKeeps(s: State, a: Step)
    requires Inv(s) && Next(s, a).Some? && !a.OwnerVolunteers?
    ensures Inv(Next(s, a).value)
  {
    hide Next;
    hide Protocol;
    hide Conserved;
    hide History;
    ProtocolKept(s, a);
    ConservedKept(s, a);
    HistoryKept(s, a);
  }

  lemma {:induction false} RunKeeps(s: State, steps: seq<Step>)
    requires Inv(s) && Solicited(steps) && Run(s, steps).Some?
    ensures Inv(Run(s, steps).value)
    decreases |steps|
  {
    hide Inv;
    hide Next;
    if steps != [] {
      StepKeeps(s, steps[0]);
      RunKeeps(Next(s, steps[0]).value, steps[1..]);
    }
  }

  // ----- what follows for every run -----

  /** A full slot is never overwritten. */
  lemma NeverOverwritten(steps: seq<Step>)
    requires Solicited(steps) && Run(INITIAL, steps).Some?
    ensures var s := Run(INITIAL, steps).value; s.owner.Storing? ==> !s.ready && s.slotEnv.None?
  {
    hide Run;
    InitialInv();
    RunKeeps(INITIAL, steps);
  }

  /** Every call that has returned, returned the reply to its own request; all calls before
      the one at hand have returned. */
  lemma OwnReply(steps: seq<Step>, r: nat)
    requires Solicited(steps) && Run(INITIAL, steps).Some?
    ensures var s := Run(INITIAL, steps).value;
            (r in s.results ==> r in s.answers && s.results[r] == s.answers[r])
            && (r < s.nextReq && (s.waiter == Idle || r + 1 < s.nextReq) ==> r in s.results)
  {
    hide Run;
    InitialInv();
    RunKeeps(INITIAL, steps);
  }

  /** The waiter never sleeps through a delivered reply: once the owner has left, a thread
      whose reply is in the slot is awake, and can go on as soon as the mutex is free. */
  lemma NoLostWakeUp(steps: seq<Step>)
    requires Solicited(steps) && Run(INITIAL, steps).Some?
    ensures var s := Run(INITIAL, steps).value;
            s.ready && s.owner == Resting && s.mutex == Nobody ==>
              !s.waiter.Sleeping? && (Next(s, WaiterLocks).Some? || Next(s, WaiterRelocks).Some?)
  {
    hide Run;
    InitialInv();
    RunKeeps(INITIAL, steps);
  }

  /** Allocated environments are the freed ones and the one in the slot or in the reader's
      hands; between calls all of them are freed. */
  lemma EnvironmentsConserved(steps: seq<Step>)
    requires Solicited(steps) && Run(INITIAL, steps).Some?
    ensures var s := Run(INITIAL, steps).value;
            Conserved(s) && (s.waiter == Idle ==> forall e: nat :: e < s.nextEnv <==> e in s.freed)
  {
    hide Run;
    InitialInv();
    RunKeeps(INITIAL, steps);
  }

  function Volunteer(x: int): seq<Step> {
    [OwnerVolunteers(x)] + ([OwnerLocks] + ([OwnerStores] + ([OwnerSignals] + ([OwnerUnlocks] + []))))
  }

  const CALL: seq<Step> :=
    [Send] + ([WaiterLocks] + ([WaiterTests] + ([WaiterReads]
    + ([WaiterClears] + ([WaiterUnlocks] + ([WaiterFrees] + []))))))

  lemma {:induction false} RunJoins(s: State, front: seq<Step>, back: seq<Step>)
    requires Run(s, front).Some?
    ensures Run(s, front + back) == Run(Run(s, front).value, back)
    decreases |front|
  {
    hide Next;
    if front == [] {
      assert front + back == back;
    } else {
      assert (front + back)[1..] == front[1..] + back;
      RunJoins(Next(s, front[0]).value, front[1..], back);
    }
  }

  lemma RunCons(s: State, a: Step, rest: seq<Step>)
    requires Next(s, a).Some?
    ensures Run(s, [a] + rest) == Run(Next(s, a).value, rest)
  {
    hide Next;
    assert ([a] + rest)[1..] == rest;
  }

  /** Nobody is at work. */
  predicate AtRest(s: State) { s.waiter == Idle && s.mutex == Nobody && Quiet(s) }

  lemma AfterVolunteer(s: State, x: int)
    requires AtRest(s)
    ensures Run(s, Volunteer(x))
      == Some(s.(ready := true, slotReply := x, slotEnv := Some(s.nextEnv), nextEnv := s.nextEnv + 1))
  {
    hide Run;
    var s1 := s.(owner := Entering(x));
    var s2 := s1.(owner := Storing(x), mutex := TheOwner);
    var s3 := s2.(owner := Signalling, ready := true, slotReply := x, slotEnv := Some(s.nextEnv),
                  nextEnv := s.nextEnv + 1);
    var s4 := s3.(owner := Leaving);
    var l4: seq<Step> := [OwnerUnlocks] + [];
    var l3 := [OwnerSignals] + l4;
    var l2 := [OwnerStores] + l3;
    RunCons(s, OwnerVolunteers(x), [OwnerLocks] + l2);
    RunCons(s1, OwnerLocks, l2);
    RunCons(s2, OwnerStores, l3);
    RunCons(s3, OwnerSignals, l4);
    RunCons(s4, OwnerUnlocks, []);
    RunEmpty(s4.(owner := Resting, mutex := Nobody));
  }

  lemma RunEmpty(s: State)
    ensures Run(s, []) == Some(s)
  {
  }

  lemma AfterCall(s: State, e: nat)
    requires s.waiter == Idle && s.mutex == Nobody && s.owner == Resting && s.ready && s.slotEnv == Some(e)
    ensures Run(s, CALL).Some?
    ensures var end := Run(s, CALL).value;
            end == s.(ready := false, slotEnv := None, mail := s.mail + [s.nextReq], nextReq := s.nextReq + 1,
                      freed := s.freed + {e}, results := s.results[s.nextReq := s.slotReply])
  {
    hide Run;
    var r, x := s.nextReq, s.slotReply;
    var s1 := s.(waiter := Called(r), mail := s.mail + [r], nextReq := r + 1);
    var s2 := s1.(waiter := Checking(r), mutex := TheWaiter);
    var s3 := s2.(waiter := Reading(r));
    var s4 := s3.(waiter := Clearing(r, x, e));
    var s5 := s4.(waiter := Unlocking(r, x, e), ready := false, slotEnv := None);
    var s6 := s5.(waiter := Freeing(r, x, e), mutex := Nobody);
    var l6: seq<Step> := [WaiterFrees] + [];
    var l5 := [WaiterUnlocks] + l6;
    var l4 := [WaiterClears] + l5;
    var l3 := [WaiterReads] + l4;
    var l2 := [WaiterTests] + l3;
    RunCons(s, Send, [WaiterLocks] + l2);
    RunCons(s1, WaiterLocks, l2);
    RunCons(s2, WaiterTests, l3);
    RunCons(s3, WaiterReads, l4);
    RunCons(s4, WaiterClears, l5);
    RunCons(s5, WaiterUnlocks, l6);
    RunCons(s6, WaiterFrees, []);
    RunEmpty(s6.(waiter := Idle, freed := s6.freed + {e}, results := s6.results[r := x]));
  }

  /** Between calls nobody is at work. */
  lemma IdleAtRest(s: State)
    requires Inv(s) && s.waiter == Idle
    ensures AtRest(s) && s.nextReq !in s.answers
  {
    hide Conserved;
  }

  /** The hypothesis is needed, whatever has happened before: after any delivery between calls
      that no call asked for, the next call returns that reply, while its own request is
      still unanswered. */
  lemma UnsolicitedReplyMisleads(s: State, x: int)
    requires Inv(s) && s.waiter == Idle
    ensures var end := Run(s, Volunteer(x) + CALL);
            && end.Some? && end.value.waiter == Idle
            && s.nextReq in end.value.results && end.value.results[s.nextReq] == x
            && s.nextReq !in end.value.answers && end.value.mail == [s.nextReq]
  {
    hide Run;
    hide Next;
    hide Inv;
    IdleAtRest(s);
    AfterVolunteer(s, x);
    RunJoins(s, Volunteer(x), CALL);
    AfterCall(Run(s, Volunteer(x)).value, s.nextEnv);
  }

  // ----- progress -----

  /** Steps still to go before the call returns. */
  function Rank(s: State): nat {
    match s.waiter
    case Idle => 0
    case Freeing(_, _, _) => 1
    case Unlocking(_, _, _) => 2
    case Clearing(_, _, _) => 3
    case Reading(_) => 4
    case _ =>
      5 + (match s.waiter
           case Called(_) => 3
           case Checking(_) => if s.ready then 1 else 2
           case Woken(_) => 3
           case Sleeping(_) => 1
           case _ => 0)
      + OwnerRank(s)
  }

  /** The owner's part; each of its steps may wake the waiter once. */
  function OwnerRank(s: State): nat {
    if s.mail != [] then 12
    else match s.owner
      case Entering(_) => 10
      case Storing(_) => 8
      case Signalling => 5
      case Leaving => 2
      case Resting => 0
  }

  /** Every step but a wake-up brings the call closer to its return. */
  lemma StepAdvances(s: State, a: Step)
    requires Inv(s) && s.waiter != Idle && Next(s, a).Some? && !a.OwnerVolunteers?
    ensures Rank(Next(s, a).value) + (if a.WakesUp? then 0 else 1) <= Rank(s) + (if a.WakesUp? then 2 else 0)
  {
    hide Conserved;
    hide History;
  }

  /** While a call is outstanding, a step other than a wake-up is possible: no deadlock. */
  lemma CanAdvance(s: State) returns (a: Step)
    requires Inv(s) && s.waiter != Idle
    ensures Next(s, a).Some? && !a.OwnerVolunteers? && !a.WakesUp?
  {
    hide Conserved;
    hide History;
    a := match s.waiter
      case Checking(_) => WaiterTests
      case Reading(_) => WaiterReads
      case Clearing(_, _, _) => WaiterClears
      case Unlocking(_, _, _) => WaiterUnlocks
      case Freeing(_, _, _) => WaiterFrees
      case _ =>
        if s.owner.Entering? then OwnerLocks
        else if s.owner.Storing? then OwnerStores
        else if s.owner.Signalling? then OwnerSignals
        else if s.owner.Leaving? then OwnerUnlocks
        else if s.mail != [] then OwnerReceives(0)
        else if s.waiter.Called? then WaiterLocks
        else WaiterRelocks;
  }

  function WakeUps(steps: seq<Step>): nat {
    if steps == [] then 0 else (if steps[0].WakesUp? then 1 else 0) + WakeUps(steps[1..])
  }

  /** With finitely many spurious wake-ups the call returns: a run during one call has at
      most as many steps as its rank allows, and three more for every wake-up. */
  lemma {:induction false} CallReturns(s: State, steps: seq<Step>)
    requires Inv(s) && s.waiter != Idle && Solicited(steps) && Run(s, steps).Some?
    requires forall i :: 0 <= i < |steps| ==> !steps[i].Send? && !steps[i].SendFails?
    ensures |steps| <= Rank(s) + 3 * WakeUps(steps)
    decreases |steps|
  {
    hide Inv;
    hide Rank;
    hide Next;
    if steps != [] {
      var t := Next(s, steps[0]).value;
      StepKeeps(s, steps[0]);
      StepAdvances(s, steps[0]);
      if t.waiter == Idle {
        if |steps| > 1 { NothingAfter(t, steps[1]); }
      } else {
        CallReturns(t, steps[1..]);
      }
    }
  }

  /** Between calls nothing happens by itself. */
  lemma NothingAfter(s: State, a: Step)
    requires Inv(s) && s.waiter == Idle && !a.Send? && !a.SendFails? && !a.OwnerVolunteers?
    ensures Next(s, a).None?
  {
    hide Conserved;
    hide History;
  }
}
