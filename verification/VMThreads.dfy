/** Which threads are attached to a VM (OMR_VM.cpp, OMR_VMThread.cpp), stated on values:
    what attaching and detaching do to the list of threads, to the two counts, to the
    thread-local slots and to a thread's attach count, and what every run keeps. */
module VMThreads {
  import opened Wrappers

  type OSThread = int

  // A thread of the VM, linked into the VM's circular list while it is attached.
  class VMThread {
    const osThread: OSThread
    const isInternal: bool
    var linkNext: VMThread?
    var linkPrevious: VMThread?
    var attachCount: nat
    ghost var freed: bool

    constructor (osThread: OSThread, isInternal: bool)
      ensures this.osThread == osThread && this.isInternal == isInternal
      ensures attachCount == 0 && !freed
    {
      this.osThread, this.isInternal := osThread, isInternal;
      linkNext, linkPrevious := null, null;
      attachCount, freed := 0, false;
    }
  }

  datatype Code =
    | NoError
    | MaximumThreadCountExceeded
    | FailedToAttachNativeThread
    | ThreadNotAttached
    | FailedToAllocateMonitor
    | OutOfNativeMemory

  // `tls` has the slots that are not NULL.
  datatype Attached = Attached(
    threads: seq<VMThread>,
    internalCount: int,
    languageCount: int,
    tls: map<OSThread, VMThread>)

  const NOBODY := Attached([], 0, 0, map[])

  predicate NoRepeats(s: seq<VMThread>) {
    forall i, j :: 0 <= i < j < |s| ==> s[i] != s[j]
  }

  function Counted(s: seq<VMThread>, isInternal: bool): nat {
    if s == [] then 0
    else Counted(s[..|s| - 1], isInternal) + if s[|s| - 1].isInternal == isInternal then 1 else 0
  }

  function Without(s: seq<VMThread>, t: VMThread): seq<VMThread> {
    if s == [] then []
    else Without(s[..|s| - 1], t) + if s[|s| - 1] == t then [] else [s[|s| - 1]]
  }

  // No thread is attached twice, the counts are those of the threads in the list, and the
  // maximum, unless it is zero, bounds the language threads.
  predicate WellFormed(a: Attached, maximum: nat) {
    && NoRepeats(a.threads)
    && a.internalCount == Counted(a.threads, true)
    && a.languageCount == Counted(a.threads, false)
    && (maximum != 0 ==> a.languageCount <= maximum)
  }

  predicate Accepts(a: Attached, t: VMThread, maximum: nat) {
    t.isInternal || maximum == 0 || a.languageCount < maximum
  }

  function Attach(a: Attached, t: VMThread, maximum: nat): Attached {
    var tls := a.tls[t.osThread := t];
    if !Accepts(a, t, maximum) then a.(tls := tls)
    else if t.isInternal then Attached(a.threads + [t], a.internalCount + 1, a.languageCount, tls)
    else Attached(a.threads + [t], a.internalCount, a.languageCount + 1, tls)
  }

  function Detach(a: Attached, t: VMThread): Attached {
    var tls := a.tls - {t.osThread};
    if t.isInternal then Attached(Without(a.threads, t), a.internalCount - 1, a.languageCount, tls)
    else Attached(Without(a.threads, t), a.internalCount, a.languageCount - 1, tls)
  }

  // ---------- The list and the counts ----------

  lemma {:induction false} CountedTotal(s: seq<VMThread>)
    ensures Counted(s, true) + Counted(s, false) == |s|
  {
    if s != [] {
      CountedTotal(s[..|s| - 1]);
    }
  }

  lemma CountedAppend(s: seq<VMThread>, t: VMThread, isInternal: bool)
    ensures Counted(s + [t], isInternal) == Counted(s, isInternal) + if t.isInternal == isInternal then 1 else 0
  {
    assert (s + [t])[..|s|] == s;
  }

  // Removing a thread keeps the others, in their order.
  lemma {:induction false} WithoutIs(s: seq<VMThread>, k: nat)
    requires k < |s| && NoRepeats(s)
    ensures Without(s, s[k]) == s[..k] + s[k + 1..]
  {
    var n := |s| - 1;
    if k < n {
      WithoutIs(s[..n], k);
      assert s[..n][..k] == s[..k];
      assert s[k + 1..] == s[..n][k + 1..] + [s[n]];
    } else {
      WithoutAbsent(s[..n], s[n]);
    }
  }

  lemma {:induction false} WithoutAbsent(s: seq<VMThread>, t: VMThread)
    requires t !in s
    ensures Without(s, t) == s
  {
    if s != [] {
      WithoutAbsent(s[..|s| - 1], t);
    }
  }

  lemma {:induction false} WithoutCounted(s: seq<VMThread>, t: VMThread, isInternal: bool)
    requires t in s && NoRepeats(s)
    ensures Counted(s, isInternal) == Counted(Without(s, t), isInternal) + if t.isInternal == isInternal then 1 else 0
  {
    var n := |s| - 1;
    if s[n] == t {
      WithoutAbsent(s[..n], t);
      assert Without(s, t) == s[..n];
    } else {
      WithoutCounted(s[..n], t, isInternal);
      CountedAppend(Without(s[..n], t), s[n], isInternal);
    }
  }

  lemma {:induction false} WithoutMembers(s: seq<VMThread>, t: VMThread, u: VMThread)
    ensures u in Without(s, t) <==> u in s && u != t
  {
    if s != [] {
      WithoutMembers(s[..|s| - 1], t, u);
    }
  }

  lemma AttachKeepsWellFormed(a: Attached, t: VMThread, maximum: nat)
    requires WellFormed(a, maximum) && t !in a.threads
    ensures WellFormed(Attach(a, t, maximum), maximum)
  {
    CountedAppend(a.threads, t, true);
    CountedAppend(a.threads, t, false);
    NoRepeatsAppend(a.threads, t);
  }

  lemma NoRepeatsAppend(s: seq<VMThread>, t: VMThread)
    requires NoRepeats(s) && t !in s
    ensures NoRepeats(s + [t])
  {
  }

  lemma DetachKeepsWellFormed(a: Attached, t: VMThread, maximum: nat)
    requires WellFormed(a, maximum) && t in a.threads
    ensures WellFormed(Detach(a, t), maximum)
  {
    WithoutCounted(a.threads, t, true);
    WithoutCounted(a.threads, t, false);
    WithoutNoRepeats(a.threads, t);
  }

  lemma WithoutNoRepeats(s: seq<VMThread>, t: VMThread)
    requires NoRepeats(s) && t in s
    ensures NoRepeats(Without(s, t))
  {
    var k :| 0 <= k < |s| && s[k] == t;
    WithoutIs(s, k);
  }

  // ---------- Runs of attachThread and detachThread ----------

  datatype Call = AttachThread(thread: VMThread) | DetachThread(thread: VMThread)

  function After(calls: seq<Call>, maximum: nat): Attached {
    if calls == [] then NOBODY
    else
      var a, last := After(calls[..|calls| - 1], maximum), calls[|calls| - 1];
      if last.AttachThread? then Attach(a, last.thread, maximum) else Detach(a, last.thread)
  }

  // Only detached threads are attached and only attached threads are detached.
  predicate Proper(calls: seq<Call>, maximum: nat) {
    calls != [] ==>
      var a, last := After(calls[..|calls| - 1], maximum), calls[|calls| - 1];
      Proper(calls[..|calls| - 1], maximum) && (last.AttachThread? <==> last.thread !in a.threads)
  }

  lemma {:induction false} RunsAreWellFormed(calls: seq<Call>, maximum: nat)
    requires Proper(calls, maximum)
    ensures WellFormed(After(calls, maximum), maximum)
    ensures var a := After(calls, maximum); |a.threads| == a.internalCount + a.languageCount
  {
    if calls != [] {
      var before, last := calls[..|calls| - 1], calls[|calls| - 1];
      RunsAreWellFormed(before, maximum);
      if last.AttachThread? {
        AttachKeepsWellFormed(After(before, maximum), last.thread, maximum);
      } else {
        DetachKeepsWellFormed(After(before, maximum), last.thread, maximum);
      }
    }
    CountedTotal(After(calls, maximum).threads);
  }

  // One more than the index of the call that attached `t` and is still in effect; zero if
  // there is none.
  function Joined(calls: seq<Call>, maximum: nat, t: VMThread): (j: nat)
    ensures j <= |calls|
  {
    if calls == [] then 0
    else
      var before, last := calls[..|calls| - 1], calls[|calls| - 1];
      if last.thread != t then Joined(before, maximum, t)
      else if last.DetachThread? then 0
      else if Accepts(After(before, maximum), t, maximum) then |calls|
      else Joined(before, maximum, t)
  }

  predicate InAttachOrder(threads: seq<VMThread>, calls: seq<Call>, maximum: nat) {
    forall i, j :: 0 <= i < j < |threads| ==>
      Joined(calls, maximum, threads[i]) < Joined(calls, maximum, threads[j])
  }

  // The list has the attached threads,
  lemma {:induction false} ListIsJoined(calls: seq<Call>, maximum: nat, t: VMThread)
    requires Proper(calls, maximum)
    ensures t in After(calls, maximum).threads <==> Joined(calls, maximum, t) > 0
  {
    if calls != [] {
      var before, last := calls[..|calls| - 1], calls[|calls| - 1];
      ListIsJoined(before, maximum, t);
      WithoutMembers(After(before, maximum).threads, last.thread, t);
    }
  }

  // in the order in which they were attached.
  lemma {:induction false} ListIsInAttachOrder(calls: seq<Call>, maximum: nat)
    requires Proper(calls, maximum)
    ensures InAttachOrder(After(calls, maximum).threads, calls, maximum)
  {
    if calls != [] {
      var before, last := calls[..|calls| - 1], calls[|calls| - 1];
      ListIsInAttachOrder(before, maximum);
      RunsAreWellFormed(before, maximum);
      assert calls == before + [last];
      if last.AttachThread? {
        AttachKeepsOrder(before, last.thread, maximum);
      } else {
        DetachKeepsOrder(before, last.thread, maximum);
      }
    }
  }

  lemma JoinedNext(before: seq<Call>, last: Call, maximum: nat, t: VMThread)
    requires last.thread != t
    ensures Joined(before + [last], maximum, t) == Joined(before, maximum, t)
  {
    assert (before + [last])[..|before|] == before;
  }

  lemma AttachKeepsOrder(before: seq<Call>, t: VMThread, maximum: nat)
    requires var threads := After(before, maximum).threads; t !in threads && InAttachOrder(threads, before, maximum)
    ensures var calls := before + [AttachThread(t)]; InAttachOrder(After(calls, maximum).threads, calls, maximum)
  {
    var a, calls := After(before, maximum), before + [AttachThread(t)];
    assert calls[..|calls| - 1] == before;
    forall i | 0 <= i < |a.threads|
      ensures Joined(calls, maximum, a.threads[i]) == Joined(before, maximum, a.threads[i])
    {
      JoinedNext(before, AttachThread(t), maximum, a.threads[i]);
    }
    assert Accepts(a, t, maximum) ==> Joined(calls, maximum, t) == |calls|;
  }

  lemma DetachKeepsOrder(before: seq<Call>, t: VMThread, maximum: nat)
    requires var threads := After(before, maximum).threads;
             t in threads && NoRepeats(threads) && InAttachOrder(threads, before, maximum)
    ensures var calls := before + [DetachThread(t)]; InAttachOrder(After(calls, maximum).threads, calls, maximum)
  {
    var threads, calls := After(before, maximum).threads, before + [DetachThread(t)];
    assert calls[..|calls| - 1] == before;
    var k :| 0 <= k < |threads| && threads[k] == t;
    WithoutIs(threads, k);
    assert After(calls, maximum).threads == threads[..k] + threads[k + 1..];
    RestIsInOrder(threads, k, before, maximum);
  }

  lemma RestIsInOrder(threads: seq<VMThread>, k: nat, before: seq<Call>, maximum: nat)
    requires k < |threads| && NoRepeats(threads) && InAttachOrder(threads, before, maximum)
    ensures InAttachOrder(threads[..k] + threads[k + 1..], before + [DetachThread(threads[k])], maximum)
  {
    var rest, calls := threads[..k] + threads[k + 1..], before + [DetachThread(threads[k])];
    forall i | 0 <= i < |rest| ensures Joined(calls, maximum, rest[i]) == Joined(before, maximum, rest[i]) {
      assert rest[i] == threads[if i < k then i else i + 1];
      JoinedNext(before, DetachThread(threads[k]), maximum, rest[i]);
    }
  }

  // ---------- Thread-local slots ----------

  // The slot of an OS thread holds the thread that is attached for it.
  predicate SlotsAgree(a: Attached) {
    && (forall o <- a.tls :: a.tls[o] in a.threads && a.tls[o].osThread == o)
    && (forall t <- a.threads :: t.osThread in a.tls && a.tls[t.osThread] == t)
  }

  // Attaching keeps the slots in agreement exactly when it is not refused and no other
  // thread is attached for the same OS thread: the slot is set in any case.
  lemma AttachKeepsSlots(a: Attached, t: VMThread, maximum: nat)
    requires SlotsAgree(a) && t !in a.threads
    ensures SlotsAgree(Attach(a, t, maximum)) <==>
            Accepts(a, t, maximum) && forall u <- a.threads :: u.osThread != t.osThread
  {
    var b := Attach(a, t, maximum);
    if !Accepts(a, t, maximum) {
      assert t.osThread in b.tls && b.tls[t.osThread] == t;
    } else if u :| u in a.threads && u.osThread == t.osThread {
      assert b.tls[u.osThread] != u && u in b.threads;
    }
  }

  lemma DetachKeepsSlots(a: Attached, t: VMThread)
    requires SlotsAgree(a) && t in a.threads
    ensures SlotsAgree(Detach(a, t))
  {
    var b := Detach(a, t);
    forall u ensures u in b.threads <==> u in a.threads && u != t {
      WithoutMembers(a.threads, t, u);
    }
    forall u <- b.threads ensures u.osThread in b.tls && b.tls[u.osThread] == u {
      WithoutMembers(a.threads, t, u);
      assert a.tls[t.osThread] == t;
    }
  }

  // ---------- Attach counts ----------

  datatype Outcome = Outcome(vm: Attached, count: nat, code: Code)

  // omr_attach_vmthread_to_vm; `native` tells whether the calling thread can be attached
  // to the thread library. The count goes up even when the thread is refused.
  function AttachToVM(a: Attached, t: VMThread, count: nat, native: bool, maximum: nat): Outcome {
    if count > 0 then Outcome(a, count + 1, NoError)
    else if !native then Outcome(a, count, FailedToAttachNativeThread)
    else Outcome(Attach(a, t, maximum), count + 1,
                 if Accepts(a, t, maximum) then NoError else MaximumThreadCountExceeded)
  }

  // omr_detach_vmthread_from_vm.
  function DetachFromVM(a: Attached, t: VMThread, count: nat, native: bool): Outcome {
    if count > 1 then Outcome(a, count - 1, NoError)
    else if count == 0 then Outcome(a, count, ThreadNotAttached)
    else if !native then Outcome(a, count, FailedToAttachNativeThread)
    else Outcome(Detach(a, t), count - 1, NoError)
  }

  datatype System = System(vm: Attached, counts: map<VMThread, nat>) {
    function Count(t: VMThread): nat {
      if t in counts then counts[t] else 0
    }
  }

  // What threads do; a thread that `First` attaches has just been allocated, and one that
  // `Last` detaches is freed.
  datatype Event =
    | Enter(thread: VMThread, native: bool)
    | Leave(thread: VMThread, native: bool)
    | First(thread: VMThread)
    | Last(thread: VMThread)

  function Step(s: System, e: Event, maximum: nat): System {
    match e
    case Enter(t, native) =>
      var o := AttachToVM(s.vm, t, s.Count(t), native, maximum);
      System(o.vm, s.counts[t := o.count])
    case Leave(t, native) =>
      var o := DetachFromVM(s.vm, t, s.Count(t), native);
      System(o.vm, s.counts[t := o.count])
    case First(t) => System(Attach(s.vm, t, maximum), s.counts[t := 1])
    case Last(t) => System(Detach(s.vm, t), s.counts - {t})
  }

  // The last detach is for attached threads and the first attach for new, internal ones.
  predicate Allowed(s: System, e: Event) {
    match e
    case Enter(_, _) => true
    case Leave(_, _) => true
    case First(t) => t.isInternal && s.Count(t) == 0
    case Last(t) => s.Count(t) > 0
  }

  predicate Joins(s: System, e: Event) {
    e.First? || (e.Enter? && e.native && s.Count(e.thread) == 0)
  }

  // The thread is accepted, and it is the only one for its OS thread.
  predicate Welcome(s: System, e: Event, maximum: nat) {
    Joins(s, e) ==>
      Accepts(s.vm, e.thread, maximum) && forall u <- s.vm.threads :: u.osThread != e.thread.osThread
  }

  predicate Counting(s: System) {
    && (forall t <- s.vm.threads :: s.Count(t) > 0)
    && (forall t <- s.counts :: s.Count(t) > 0 ==> t in s.vm.threads)
  }

  // The list, the attach counts and the thread-local slots tell the same.
  predicate Agreement(s: System, maximum: nat) {
    WellFormed(s.vm, maximum) && Counting(s) && SlotsAgree(s.vm)
  }

  // A step keeps the agreement exactly when whoever joins is welcome.
  lemma StepKeepsAgreement(s: System, e: Event, maximum: nat)
    requires Agreement(s, maximum) && Allowed(s, e)
    ensures Agreement(Step(s, e, maximum), maximum) <==> Welcome(s, e, maximum)
  {
    var t, s' := e.thread, Step(s, e, maximum);
    if Joins(s, e) {
      AttachKeepsWellFormed(s.vm, t, maximum);
      AttachKeepsSlots(s.vm, t, maximum);
      if Welcome(s, e, maximum) {
        JoinKeepsCounting(s, e, maximum);
      }
    } else if e.Last? || (e.Leave? && e.native && s.Count(t) == 1) {
      DetachKeepsWellFormed(s.vm, t, maximum);
      DetachKeepsSlots(s.vm, t);
      LeaveKeepsCounting(s, e, maximum);
    } else {
      StayKeepsCounting(s, e, maximum);
    }
  }

  lemma LeaveKeepsCounting(s: System, e: Event, maximum: nat)
    requires Counting(s) && s.Count(e.thread) > 0
    requires e.Last? || (e.Leave? && e.native && s.Count(e.thread) == 1)
    ensures Counting(Step(s, e, maximum))
  {
    var s' := Step(s, e, maximum);
    assert s'.vm == Detach(s.vm, e.thread);
    forall u <- s'.vm.threads ensures s'.Count(u) > 0 {
      WithoutMembers(s.vm.threads, e.thread, u);
      assert s.Count(u) > 0;
    }
    forall u <- s'.counts | s'.Count(u) > 0 ensures u in s'.vm.threads {
      WithoutMembers(s.vm.threads, e.thread, u);
      assert u != e.thread && u in s.counts;
    }
  }

  lemma StayKeepsCounting(s: System, e: Event, maximum: nat)
    requires Counting(s) && !Joins(s, e) && !e.Last?
    requires e.Leave? ==> !e.native || s.Count(e.thread) != 1
    ensures Counting(Step(s, e, maximum)) && Step(s, e, maximum).vm == s.vm
  {
    var s' := Step(s, e, maximum);
    assert forall u :: s'.Count(u) > 0 <==> s.Count(u) > 0;
  }

  lemma JoinKeepsCounting(s: System, e: Event, maximum: nat)
    requires Counting(s) && Allowed(s, e) && Joins(s, e) && Accepts(s.vm, e.thread, maximum)
    ensures Counting(Step(s, e, maximum))
  {
    var s' := Step(s, e, maximum);
    forall u ensures u in s'.vm.threads <==> s'.Count(u) > 0 {
      assert u in s.vm.threads <==> s.Count(u) > 0;
    }
  }

  function Running(events: seq<Event>, maximum: nat): System {
    if events == [] then System(NOBODY, map[])
    else Step(Running(events[..|events| - 1], maximum), events[|events| - 1], maximum)
  }

  // Nobody is refused and no OS thread is attached twice at the same time.
  predicate Orderly(events: seq<Event>, maximum: nat) {
    events != [] ==>
      var s, last := Running(events[..|events| - 1], maximum), events[|events| - 1];
      Orderly(events[..|events| - 1], maximum) && Allowed(s, last) && Welcome(s, last, maximum)
  }

  lemma {:induction false} OrderlyRunsAgree(events: seq<Event>, maximum: nat)
    requires Orderly(events, maximum)
    ensures Agreement(Running(events, maximum), maximum)
  {
    if events != [] {
      var before, last := events[..|events| - 1], events[|events| - 1];
      OrderlyRunsAgree(before, maximum);
      StepKeepsAgreement(Running(before, maximum), last, maximum);
    }
  }

  // ---------- Nested attaches ----------

  // How often a thread has been attached and not detached again: an attach or a detach that
  // has to go to the list fails if the calling thread cannot be attached to the library.
  function Depth(events: seq<Event>, t: VMThread): nat {
    if events == [] then 0
    else
      var depth, last := Depth(events[..|events| - 1], t), events[|events| - 1];
      if last.thread != t then depth
      else
        match last
        case Enter(_, native) => if native || depth > 0 then depth + 1 else 0
        case Leave(_, native) => if depth > 1 || native then (if depth == 0 then 0 else depth - 1) else depth
        case First(_) => 1
        case Last(_) => 0
  }

  lemma {:induction false} CountIsDepth(events: seq<Event>, maximum: nat, t: VMThread)
    ensures Running(events, maximum).Count(t) == Depth(events, t)
  {
    if events != [] {
      CountIsDepth(events[..|events| - 1], maximum, t);
    }
  }

  function Enters(events: seq<Event>, t: VMThread): nat {
    if events == [] then 0
    else Enters(events[..|events| - 1], t) + if events[|events| - 1] == Enter(t, true) then 1 else 0
  }

  function Leaves(events: seq<Event>, t: VMThread): nat {
    if events == [] then 0
    else Leaves(events[..|events| - 1], t) + if events[|events| - 1] == Leave(t, true) then 1 else 0
  }

  // A thread never leaves more often than it has entered.
  predicate Balanced(events: seq<Event>, t: VMThread) {
    && Leaves(events, t) <= Enters(events, t)
    && (events != [] ==>
          var last := events[|events| - 1];
          && Balanced(events[..|events| - 1], t)
          && (last.thread == t ==> (last.Enter? || last.Leave?) && last.native))
  }

  // In a run in which nobody is refused, a thread is in the list if and only if it has
  // entered more often than it has left, and its count is the difference.
  lemma BalanceDecides(events: seq<Event>, maximum: nat, t: VMThread)
    requires Orderly(events, maximum) && Balanced(events, t)
    ensures Running(events, maximum).Count(t) == Enters(events, t) - Leaves(events, t)
    ensures t in Running(events, maximum).vm.threads <==> Enters(events, t) > Leaves(events, t)
  {
    OrderlyRunsAgree(events, maximum);
    CountIsDepth(events, maximum, t);
    BalanceIsDepth(events, t);
    var s := Running(events, maximum);
    assert t in s.vm.threads <==> s.Count(t) > 0;
  }

  lemma {:induction false} BalanceIsDepth(events: seq<Event>, t: VMThread)
    requires Balanced(events, t)
    ensures Depth(events, t) == Enters(events, t) - Leaves(events, t)
  {
    if events != [] {
      BalanceIsDepth(events[..|events| - 1], t);
    }
  }

  // The codes tell what has become of the count, and of the thread.
  lemma CodesTellOutcome(a: Attached, t: VMThread, count: nat, native: bool, maximum: nat)
    ensures var o := AttachToVM(a, t, count, native, maximum);
            && (o.code == FailedToAttachNativeThread <==> o.count != count + 1)
            && (o.code == FailedToAttachNativeThread ==> o.vm == a && o.count == count == 0 && !native)
            && (o.code == MaximumThreadCountExceeded ==> o.vm.threads == a.threads && maximum > 0 && a.languageCount >= maximum)
            && (o.code == NoError && count == 0 ==> o.vm.threads == a.threads + [t])
    ensures var o := DetachFromVM(a, t, count, native);
            && (o.code == NoError <==> o.count == count - 1)
            && (o.code != NoError ==> o.vm == a && o.count == count)
            && (o.code == ThreadNotAttached <==> count == 0)
            && (o.code == NoError && count > 1 ==> o.vm == a)
            && (o.code == NoError && count == 1 ==> t !in o.vm.threads)
  {
    WithoutMembers(a.threads, t, t);
  }

  // A refused thread looks attached to its count and to its slot, and is not in the list.
  lemma RefusedLooksAttached(s: System, t: VMThread, maximum: nat)
    requires Agreement(s, maximum) && s.Count(t) == 0 && !Accepts(s.vm, t, maximum)
    ensures var s' := Step(s, Enter(t, true), maximum);
            && s'.Count(t) == 1 && t.osThread in s'.vm.tls && s'.vm.tls[t.osThread] == t
            && t !in s'.vm.threads
            && s'.vm.threads == s.vm.threads
  {
    assert t in s.vm.threads <==> s.Count(t) > 0;
  }

  // When it leaves again, it is counted out of a list in which it has never been: the
  // language count is one too low from then on.
  lemma RefusedLeavesMiscount(s: System, t: VMThread, maximum: nat)
    requires Agreement(s, maximum) && s.Count(t) == 0 && !Accepts(s.vm, t, maximum)
    ensures var s' := Step(Step(s, Enter(t, true), maximum), Leave(t, true), maximum);
            && s'.vm.threads == s.vm.threads
            && s'.vm.languageCount == Counted(s'.vm.threads, false) - 1
            && !WellFormed(s'.vm, maximum)
  {
    RefusedLooksAttached(s, t, maximum);
    WithoutAbsent(s.vm.threads, t);
  }

  // ---------- Forking ----------

  function LastOn(s: seq<VMThread>, self: OSThread): Option<VMThread> {
    if s == [] then None
    else if s[|s| - 1].osThread == self then Some(s[|s| - 1])
    else LastOn(s[..|s| - 1], self)
  }

  lemma {:induction false} LastOnFound(s: seq<VMThread>, self: OSThread)
    requires exists t <- s :: t.osThread == self
    ensures LastOn(s, self).Some? && LastOn(s, self).value in s && LastOn(s, self).value.osThread == self
    ensures exists k :: && 0 <= k < |s| && s[k] == LastOn(s, self).value
                        && forall j :: k < j < |s| ==> s[j].osThread != self
  {
    var n := |s| - 1;
    if s[n].osThread != self {
      var t :| t in s && t.osThread == self;
      assert t in s[..n];
      LastOnFound(s[..n], self);
      var k :| && 0 <= k < n && s[..n][k] == LastOn(s[..n], self).value
               && forall j :: k < j < n ==> s[..n][j].osThread != self;
      forall j | k < j < |s| ensures s[j].osThread != self {
        assert j < n ==> s[j] == s[..n][j];
      }
    }
  }

  // What the child of a fork has: one thread, and the counts that go with it.
  function Kept(a: Attached, self: OSThread): Attached {
    match LastOn(a.threads, self)
    case None => a
    case Some(t) =>
      if t.isInternal then Attached([t], 1, 0, a.tls) else Attached([t], 0, 1, a.tls)
  }

  lemma KeptIsWellFormed(a: Attached, self: OSThread, maximum: nat)
    requires WellFormed(a, maximum) && exists t <- a.threads :: t.osThread == self
    ensures WellFormed(Kept(a, self), maximum)
  {
    LastOnFound(a.threads, self);
    var t := LastOn(a.threads, self).value;
    assert [] + [t] == [t];
    CountedAppend([], t, true);
    CountedAppend([], t, false);
  }

  // The thread that is kept is the one in the slot of the OS thread that forked. Once the
  // slots of the other OS threads are gone with these, the slots agree with the list.
  lemma KeptIsCurrent(a: Attached, self: OSThread)
    requires SlotsAgree(a) && exists t <- a.threads :: t.osThread == self
    ensures self in a.tls && Kept(a, self).threads == [a.tls[self]]
    ensures SlotsAgree(Kept(a, self).(tls := map[self := a.tls[self]]))
  {
    LastOnFound(a.threads, self);
  }
}
