/** The lock of the signal library (omrsig_internal.hpp) as any number of threads take and
    release it, one step at a time. */
module SigMutex {

  type Thread = nat

  // Where a thread is: in the loop before it reads `locked`, before it tries to exchange
  // the value it has read, or past the loop.
  datatype Phase = Outside | Reading | Exchanging(oldLocked: nat) | Holding

  datatype State = State(locked: nat, phases: map<Thread, Phase>) {
    function PhaseOf(t: Thread): Phase {
      if t in phases then phases[t] else Outside
    }

    function Holders(): set<Thread> {
      set t | t in phases && phases[t] == Holding
    }
  }

  datatype Action = Lock | Read | CompareExchange | Unlock

  datatype Event = Event(thread: Thread, action: Action)

  const UNLOCKED := State(0, map[])

  // The loop is left as soon as the exchange finds a zero, whether it has stored or not.
  // An action that the thread cannot take in its phase does nothing.
  function Next(s: State, e: Event): State {
    var t := e.thread;
    match s.PhaseOf(t)
    case Outside => if e.action == Lock then s.(phases := s.phases[t := Reading]) else s
    case Reading => if e.action == Read then s.(phases := s.phases[t := Exchanging(s.locked)]) else s
    case Exchanging(oldLocked) =>
      if e.action != CompareExchange then s
      else
        State(if s.locked == oldLocked then 1 else s.locked,
              s.phases[t := if s.locked == 0 then Holding else Reading])
    case Holding => if e.action == Unlock then State(0, s.phases[t := Outside]) else s
  }

  function Run(events: seq<Event>): State {
    if events == [] then UNLOCKED
    else Next(Run(events[..|events| - 1]), events[|events| - 1])
  }

  // A thread has read a one, and its exchange, which cannot store, finds a zero.
  predicate StaleExit(s: State, e: Event) {
    s.PhaseOf(e.thread) == Exchanging(1) && e.action == CompareExchange && s.locked == 0
  }

  // `locked` is one exactly when one thread is past the loop; otherwise none is.
  predicate Exclusive(s: State) {
    && s.locked <= 1
    && |s.Holders()| == s.locked
  }

  predicate ReadsBits(s: State) {
    s.locked <= 1 && forall t <- s.phases :: s.phases[t].Exchanging? ==> s.phases[t].oldLocked <= 1
  }

  lemma {:induction false} RunsReadBits(events: seq<Event>)
    ensures ReadsBits(Run(events))
  {
    if events != [] {
      RunsReadBits(events[..|events| - 1]);
    }
  }

  lemma HoldersNext(s: State, e: Event)
    ensures var t, s' := e.thread, Next(s, e);
            s'.Holders() == if s'.PhaseOf(t) == Holding then s.Holders() + {t} else s.Holders() - {t}
  {
    var t, s' := e.thread, Next(s, e);
    forall u | u != t ensures u in s.Holders() <==> u in s'.Holders() {
      assert u in s.phases <==> u in s'.phases;
    }
    assert t in s'.Holders() <==> s'.PhaseOf(t) == Holding;
  }

  // How many threads hold the lock after a step, for each way a thread can go.
  lemma HoldersCounted(s: State, e: Event)
    ensures var t, s' := e.thread, Next(s, e);
            |s'.Holders()| == |s.Holders()|
                              - (if s.PhaseOf(t) == Holding then 1 else 0)
                              + (if s'.PhaseOf(t) == Holding then 1 else 0)
  {
    var t, s' := e.thread, Next(s, e);
    HoldersNext(s, e);
    HolderIsHolding(s, t);
    CountedWithout(s.Holders(), t);
    CountedWith(s.Holders(), t);
  }

  lemma HolderIsHolding(s: State, t: Thread)
    ensures t in s.Holders() <==> s.PhaseOf(t) == Holding
  {
  }

  lemma CountedWithout(s: set<Thread>, t: Thread)
    ensures |s - {t}| == |s| - if t in s then 1 else 0
  {
    if t !in s {
      assert s - {t} == s;
    }
  }

  lemma CountedWith(s: set<Thread>, t: Thread)
    ensures |s + {t}| == |s| + if t in s then 0 else 1
  {
    if t in s {
      assert s + {t} == s;
    }
  }

  // A step keeps the lock exclusive exactly when it is not a stale exit.
  lemma StepKeepsExclusive(s: State, e: Event)
    requires Exclusive(s) && ReadsBits(s)
    ensures Exclusive(Next(s, e)) <==> !StaleExit(s, e)
  {
    HoldersCounted(s, e);
  }

  // In every state of the run.
  predicate AlwaysExclusive(events: seq<Event>) {
    && Exclusive(Run(events))
    && (events != [] ==> AlwaysExclusive(events[..|events| - 1]))
  }

  // In no step of the run.
  predicate NeverStale(events: seq<Event>) {
    events != [] ==>
      var before := events[..|events| - 1];
      NeverStale(before) && !StaleExit(Run(before), events[|events| - 1])
  }

  // The lock is exclusive throughout a run exactly when there is no stale exit in it.
  lemma {:induction false} ExclusiveExactly(events: seq<Event>)
    ensures AlwaysExclusive(events) <==> NeverStale(events)
  {
    if events == [] {
      assert UNLOCKED.Holders() == {};
    } else {
      var before := events[..|events| - 1];
      ExclusiveExactly(before);
      RunsReadBits(before);
      if Exclusive(Run(before)) {
        StepKeepsExclusive(Run(before), events[|before|]);
      }
    }
  }

  // Two threads are enough for two holders: one of them reads a one while the other holds
  // the lock, and leaves the loop when the lock has been released, without storing.
  lemma TwoHolders(a: Thread, b: Thread)
    requires a != b
    ensures exists events: seq<Event> :: Run(events).Holders() == {a, b}
  {
    var events := PassedOver(a, b) + Acquire(a);
    LockPassedOver(a, b);
    RunAcquire(PassedOver(a, b), a);
    assert Run(events) == State(1, map[a := Holding, b := Holding]);
    assert Run(events).Holders() == {a, b};
  }

  // `a` takes and releases the lock; `b` reads a one before that, and exchanges after it.
  function PassedOver(a: Thread, b: Thread): seq<Event> {
    Acquire(a) + [Event(b, Lock), Event(b, Read)] + [Event(a, Unlock), Event(b, CompareExchange)]
  }

  // Then `b` holds the lock although `locked` is zero.
  lemma LockPassedOver(a: Thread, b: Thread)
    requires a != b
    ensures Run(PassedOver(a, b)) == State(0, map[a := Outside, b := Holding])
  {
    var e1 := Acquire(a);
    var e2 := e1 + [Event(b, Lock), Event(b, Read)];
    RunAcquire([], a);
    assert [] + e1 == e1;
    RunTwo(e1, Event(b, Lock), Event(b, Read));
    assert Run(e2) == State(1, map[a := Holding, b := Exchanging(1)]);
    RunTwo(e2, Event(a, Unlock), Event(b, CompareExchange));
  }

  function Acquire(t: Thread): seq<Event> {
    [Event(t, Lock), Event(t, Read), Event(t, CompareExchange)]
  }

  lemma RunTwo(before: seq<Event>, x: Event, y: Event)
    ensures Run(before + [x, y]) == Next(Next(Run(before), x), y)
  {
    assert (before + [x, y])[..|before| + 1] == before + [x];
    assert (before + [x])[..|before|] == before;
  }

  // A thread that finds the lock free takes it.
  lemma RunAcquire(before: seq<Event>, t: Thread)
    requires Run(before).locked == 0 && Run(before).PhaseOf(t) == Outside
    ensures Run(before + Acquire(t)) == State(1, Run(before).phases[t := Holding])
  {
    RunTwo(before, Event(t, Lock), Event(t, Read));
    assert (before + Acquire(t))[..|before| + 2] == before + [Event(t, Lock), Event(t, Read)];
  }

  predicate InLoop(phase: Phase) {
    phase == Reading || phase.Exchanging?
  }

  // A thread that has called the lock stays in the loop until it holds the lock, and only
  // its own unlock takes the lock from it.
  lemma LockIsLeftHolding(s: State, e: Event, t: Thread)
    ensures InLoop(s.PhaseOf(t)) ==> InLoop(Next(s, e).PhaseOf(t)) || Next(s, e).PhaseOf(t) == Holding
    ensures s.PhaseOf(t) == Holding ==>
              Next(s, e).PhaseOf(t) == if e == Event(t, Unlock) then Outside else Holding
    ensures s.PhaseOf(t) == Outside ==>
              Next(s, e).PhaseOf(t) == if e == Event(t, Lock) then Reading else Outside
  {
  }
}
