/** The read-modify-write operations of AtomicSupport.hpp, run by any number of threads on
    one word: each loads the word, computes a new value, and tries a compare-and-exchange
    until that finds the value it loaded. */
module AtomicSupport {

  type Thread = nat

  // What an operation does to the word, and whether it returns the new value or the old.
  datatype Operation<!W> = Operation(update: W -> W, returnsNew: bool) {
    function Result(old': W): W {
      if returnsNew then update(old') else old'
    }
  }

  // `called` is the time of the call; `seen` is the number of operations that had been
  // completed when the word was loaded.
  datatype Phase<!W> =
    | Idle
    | Called(op: Operation<W>, called: nat)
    | Loaded(op: Operation<W>, called: nat, value: W, seen: nat)
    | Finished(op: Operation<W>, result: W)

  datatype Completed<!W> = Completed(thread: Thread, op: Operation<W>, result: W, called: nat, done: nat)

  // `history` is in the order of the successful exchanges.
  datatype State<!W> = State(memory: W, phases: map<Thread, Phase<W>>, history: seq<Completed<W>>, clock: nat) {
    function PhaseOf(t: Thread): Phase<W> {
      if t in phases then phases[t] else Idle
    }
  }

  datatype Action<!W> = Call(op: Operation<W>) | Load | CompareExchange | Return

  datatype Event<!W> = Event(thread: Thread, action: Action<W>)

  // An action that the thread cannot take in its phase does nothing, so that every
  // sequence of events is a run.
  function Next<W(==)>(s: State<W>, e: Event<W>): State<W> {
    var t, now := e.thread, s.(clock := s.clock + 1);
    match s.PhaseOf(t)
    case Idle =>
      if e.action.Call? then now.(phases := s.phases[t := Called(e.action.op, s.clock)]) else now
    case Called(op, called) =>
      if e.action.Load? then now.(phases := s.phases[t := Loaded(op, called, s.memory, |s.history|)]) else now
    case Loaded(op, called, value, _) =>
      if !e.action.CompareExchange? then now
      else if s.memory != value then now.(phases := s.phases[t := Called(op, called)])
      else
        var result := op.Result(value);
        State(op.update(value), s.phases[t := Finished(op, result)],
              s.history + [Completed(t, op, result, called, s.clock)], s.clock + 1)
    case Finished(_, _) =>
      if e.action.Return? then now.(phases := s.phases[t := Idle]) else now
  }

  function Run<W(==)>(initial: W, events: seq<Event<W>>): State<W> {
    if events == [] then State(initial, map[], [], 0)
    else Next(Run(initial, events[..|events| - 1]), events[|events| - 1])
  }

  // ---------- The sequential meaning ----------

  // The word after the completed operations, one after the other.
  function Fold<W>(initial: W, history: seq<Completed<W>>): W {
    if history == [] then initial
    else history[|history| - 1].op.update(Fold(initial, history[..|history| - 1]))
  }

  // Every operation returned what it returns when they are run one after the other.
  ghost predicate Legal<W(!new)>(initial: W, history: seq<Completed<W>>) {
    forall k :: 0 <= k < |history| ==> LegalAt(initial, history, k)
  }

  ghost predicate LegalAt<W>(initial: W, history: seq<Completed<W>>, k: nat)
    requires k < |history|
  {
    history[k].result == history[k].op.Result(Fold(initial, history[..k]))
  }

  // Whatever happened to the word between the load and the exchange, the operation takes
  // effect on the value that all the completed operations have left.
  lemma {:induction false} MemoryIsFold<W(!new)>(initial: W, events: seq<Event<W>>)
    ensures var s := Run(initial, events); s.memory == Fold(initial, s.history) && Legal(initial, s.history)
  {
    if events != [] {
      MemoryIsFold(initial, events[..|events| - 1]);
      var before, s := Run(initial, events[..|events| - 1]), Run(initial, events);
      if s.history != before.history {
        var n := |before.history|;
        assert s.history[..n] == before.history;
        forall k | 0 <= k < |s.history| ensures LegalAt(initial, s.history, k) {
          if k < n {
            assert LegalAt(initial, before.history, k);
            assert s.history[..k] == before.history[..k];
          }
        }
      }
    }
  }

  // ---------- What each thread sees ----------

  datatype Answer<!W> = Answer(op: Operation<W>, result: W)

  // What the calls of a thread have returned, in order.
  function Answers<W(==)>(initial: W, events: seq<Event<W>>, t: Thread): seq<Answer<W>> {
    if events == [] then []
    else
      var before := events[..|events| - 1];
      Answers(initial, before, t) + Returned(Run(initial, before), events[|events| - 1], t)
  }

  function Returned<W>(s: State<W>, e: Event<W>, t: Thread): seq<Answer<W>> {
    if e.thread == t && e.action.Return? then Pending(s.PhaseOf(t)) else []
  }

  // What it has called, in order.
  function Calls<W(==)>(initial: W, events: seq<Event<W>>, t: Thread): seq<Operation<W>> {
    if events == [] then []
    else
      var before := events[..|events| - 1];
      Calls(initial, before, t) + CalledNow(Run(initial, before), events[|events| - 1], t)
  }

  function CalledNow<W>(s: State<W>, e: Event<W>, t: Thread): seq<Operation<W>> {
    if e.thread == t && e.action.Call? && s.PhaseOf(t).Idle? then [e.action.op] else []
  }

  function Started<W>(phase: Phase<W>): seq<Operation<W>> {
    if phase.Called? || phase.Loaded? then [phase.op] else []
  }

  function Of<W>(history: seq<Completed<W>>, t: Thread): seq<Answer<W>> {
    if history == [] then []
    else
      var last := history[|history| - 1];
      Of(history[..|history| - 1], t) + if last.thread == t then [Answer(last.op, last.result)] else []
  }

  function Pending<W>(phase: Phase<W>): seq<Answer<W>> {
    if phase.Finished? then [Answer(phase.op, phase.result)] else []
  }

  // A thread has been told exactly what its operations in the history returned, in their
  // order; at most the last of them has not returned yet.
  lemma {:induction false} ThreadsAgree<W>(initial: W, events: seq<Event<W>>, t: Thread)
    ensures var s := Run(initial, events); Of(s.history, t) == Answers(initial, events, t) + Pending(s.PhaseOf(t))
  {
    if events != [] {
      var before, e := events[..|events| - 1], events[|events| - 1];
      ThreadsAgree(initial, before, t);
      OfNext(Run(initial, before), e, t);
      PendingNext(Run(initial, before), e, t);
      var s := Run(initial, before);
      Regroup(Answers(initial, before, t), Pending(s.PhaseOf(t)), Effect(s, e, t),
              Returned(s, e, t), Pending(Next(s, e).PhaseOf(t)));
    }
  }

  // The exchange by which the operation of a thread takes effect.
  predicate Succeeds<W(==)>(s: State<W>, e: Event<W>) {
    var phase := s.PhaseOf(e.thread);
    e.action.CompareExchange? && phase.Loaded? && s.memory == phase.value
  }

  function Effect<W(==)>(s: State<W>, e: Event<W>, t: Thread): seq<Answer<W>> {
    var phase := s.PhaseOf(t);
    if e.thread == t && Succeeds(s, e) then [Answer(phase.op, phase.op.Result(phase.value))] else []
  }

  lemma OfNext<W>(s: State<W>, e: Event<W>, t: Thread)
    ensures Of(Next(s, e).history, t) == Of(s.history, t) + Effect(s, e, t)
  {
    if Succeeds(s, e) {
      assert Next(s, e).history[..|s.history|] == s.history;
    } else {
      assert Next(s, e).history == s.history;
    }
  }

  lemma PendingNext<W>(s: State<W>, e: Event<W>, t: Thread)
    ensures Pending(s.PhaseOf(t)) + Effect(s, e, t) == Returned(s, e, t) + Pending(Next(s, e).PhaseOf(t))
  {
  }

  function Ops<W>(answers: seq<Answer<W>>): (ops: seq<Operation<W>>) {
    seq(|answers|, i requires 0 <= i < |answers| => answers[i].op)
  }

  lemma StartedNext<W>(s: State<W>, e: Event<W>, t: Thread)
    ensures Started(s.PhaseOf(t)) + CalledNow(s, e, t) == Ops(Effect(s, e, t)) + Started(Next(s, e).PhaseOf(t))
  {
  }

  // Every operation that a thread has called is in the history once, in the order of the
  // calls; at most the last of them has not taken effect yet.
  lemma {:induction false} CallsTakeEffectOnce<W>(initial: W, events: seq<Event<W>>, t: Thread)
    ensures var s := Run(initial, events);
            Calls(initial, events, t) == Ops(Of(s.history, t)) + Started(s.PhaseOf(t))
  {
    if events != [] {
      var before, e := events[..|events| - 1], events[|events| - 1];
      var s := Run(initial, before);
      CallsTakeEffectOnce(initial, before, t);
      OfNext(s, e, t);
      StartedNext(s, e, t);
      OpsConcat(Of(s.history, t), Effect(s, e, t));
      Regroup(Ops(Of(s.history, t)), Started(s.PhaseOf(t)), CalledNow(s, e, t),
              Ops(Effect(s, e, t)), Started(Next(s, e).PhaseOf(t)));
    }
  }

  lemma OpsConcat<W>(a: seq<Answer<W>>, b: seq<Answer<W>>)
    ensures Ops(a + b) == Ops(a) + Ops(b)
  {
  }

  lemma Regroup<T>(a: seq<T>, b: seq<T>, c: seq<T>, d: seq<T>, e: seq<T>)
    requires b + c == d + e
    ensures (a + b) + c == (a + d) + e
  {
    assert (a + b) + c == a + (b + c);
    assert (a + d) + e == a + (d + e);
  }

  // ---------- Real time ----------

  // The operation took effect between its call and now, by an exchange of its thread.
  ghost predicate TakesEffectInTime<W>(events: seq<Event<W>>, c: Completed<W>) {
    && c.called < c.done < |events|
    && events[c.called] == Event(c.thread, Call(c.op))
    && events[c.done] == Event(c.thread, CompareExchange)
  }

  ghost predicate InTime<W(!new)>(events: seq<Event<W>>, s: State<W>) {
    && s.clock == |events|
    && (forall k :: 0 <= k < |s.history| ==> TakesEffectInTime(events, s.history[k]))
    && (forall i, j :: 0 <= i < j < |s.history| ==> s.history[i].done < s.history[j].done)
    && forall t <- s.phases :: CalledInTime(events, t, s.phases[t])
  }

  ghost predicate CalledInTime<W>(events: seq<Event<W>>, t: Thread, phase: Phase<W>) {
    phase.Called? || phase.Loaded? ==>
      phase.called < |events| && events[phase.called] == Event(t, Call(phase.op))
  }

  lemma {:induction false} RunsAreInTime<W(!new)>(initial: W, events: seq<Event<W>>)
    ensures InTime(events, Run(initial, events))
  {
    if events != [] {
      var n := |events| - 1;
      RunsAreInTime(initial, events[..n]);
      var before, s := Run(initial, events[..n]), Run(initial, events);
      forall t <- s.phases ensures CalledInTime(events, t, s.phases[t]) {
        if t != events[n].thread {
          assert t in before.phases && CalledInTime(events[..n], t, before.phases[t]);
        } else if t in before.phases {
          assert CalledInTime(events[..n], t, before.phases[t]);
        }
      }
      forall k | 0 <= k < |s.history| ensures TakesEffectInTime(events, s.history[k]) {
        if k < |before.history| {
          assert TakesEffectInTime(events[..n], before.history[k]);
        } else {
          assert CalledInTime(events[..n], events[n].thread, before.PhaseOf(events[n].thread));
        }
      }
    }
  }

  // An operation that took effect before another was called precedes it in the history.
  lemma RealTimeOrder<W(!new)>(initial: W, events: seq<Event<W>>, i: nat, j: nat)
    requires var h := Run(initial, events).history;
             i < |h| && j < |h| && h[i].done < h[j].called
    ensures i < j
  {
    RunsAreInTime(initial, events);
    var s := Run(initial, events);
    assert TakesEffectInTime(events, s.history[j]);
  }

  // ---------- Progress ----------

  // The failed exchanges of a thread.
  function Failures<W(==)>(initial: W, events: seq<Event<W>>, t: Thread): nat {
    if events == [] then 0
    else
      var before, e := events[..|events| - 1], events[|events| - 1];
      Failures(initial, before, t) + if e.thread == t && Fails(Run(initial, before), e) then 1 else 0
  }

  predicate Fails<W(==)>(s: State<W>, e: Event<W>) {
    var phase := s.PhaseOf(e.thread);
    e.action.CompareExchange? && phase.Loaded? && s.memory != phase.value
  }

  function Others<W>(history: seq<Completed<W>>, t: Thread): nat {
    if history == [] then 0
    else Others(history[..|history| - 1], t) + if history[|history| - 1].thread == t then 0 else 1
  }

  lemma {:induction false} OthersConcat<W>(a: seq<Completed<W>>, b: seq<Completed<W>>, t: Thread)
    ensures Others(a + b, t) == Others(a, t) + Others(b, t)
  {
    if b == [] {
      assert a + b == a;
    } else {
      OthersConcat(a, b[..|b| - 1], t);
      assert (a + b)[..|a + b| - 1] == a + b[..|b| - 1];
    }
  }

  // What a thread has loaded is what the operations completed by then had left; since then
  // only others have completed operations.
  ghost predicate LoadIsPast<W>(initial: W, s: State<W>, t: Thread) {
    var phase := s.PhaseOf(t);
    phase.Loaded? ==>
      && phase.seen <= |s.history|
      && phase.value == Fold(initial, s.history[..phase.seen])
      && Others(s.history[phase.seen..], t) == |s.history| - phase.seen
  }

  lemma {:induction false} LoadsArePast<W(!new)>(initial: W, events: seq<Event<W>>, t: Thread)
    ensures LoadIsPast(initial, Run(initial, events), t)
  {
    if events != [] {
      var n := |events| - 1;
      LoadsArePast(initial, events[..n], t);
      MemoryIsFold(initial, events[..n]);
      LoadStaysPast(initial, Run(initial, events[..n]), events[n], t);
    }
  }

  lemma LoadStaysPast<W(!new)>(initial: W, s: State<W>, e: Event<W>, t: Thread)
    requires LoadIsPast(initial, s, t) && s.memory == Fold(initial, s.history)
    ensures LoadIsPast(initial, Next(s, e), t)
  {
    var s' := Next(s, e);
    if s'.PhaseOf(t).Loaded? {
      var seen := s'.PhaseOf(t).seen;
      if e.thread == t && s.PhaseOf(t).Called? {
        assert s'.history[..seen] == s.history && s'.history[seen..] == [];
      } else {
        assert s'.history[..seen] == s.history[..seen];
        var more := s'.history[|s.history|..];
        assert s'.history[seen..] == s.history[seen..] + more;
        OthersConcat(s.history[seen..], more, t);
        assert |more| > 0 ==> more[..0] == [] && more[0].thread == e.thread;
      }
    }
  }

  // How many operations of others can have made a thread's exchanges fail so far.
  function Known<W>(s: State<W>, t: Thread): nat {
    var phase := s.PhaseOf(t);
    Others(if phase.Loaded? && phase.seen <= |s.history| then s.history[..phase.seen] else s.history, t)
  }

  // An exchange fails only because another thread has completed an operation since the
  // load: every thread fails at most as often as the others succeed.
  lemma {:induction false} FailuresAreProgress<W(!new)>(initial: W, events: seq<Event<W>>, t: Thread)
    ensures var s := Run(initial, events);
            Failures(initial, events, t) <= Known(s, t) <= Others(s.history, t)
  {
    if events != [] {
      var before, e := events[..|events| - 1], events[|events| - 1];
      FailuresAreProgress(initial, before, t);
      LoadsArePast(initial, before, t);
      MemoryIsFold(initial, before);
      var s := Run(initial, before);
      if e.thread == t {
        OwnStepIsKnown(initial, s, e);
      } else {
        OtherStepIsKnown(s, e, t);
      }
    }
    var s := Run(initial, events);
    LoadsArePast(initial, events, t);
    KnownAtMost(initial, s, t);
  }

  lemma KnownAtMost<W>(initial: W, s: State<W>, t: Thread)
    requires LoadIsPast(initial, s, t)
    ensures var phase := s.PhaseOf(t);
            Others(s.history, t) == Known(s, t) + if phase.Loaded? then |s.history| - phase.seen else 0
  {
    var phase := s.PhaseOf(t);
    if phase.Loaded? {
      assert s.history == s.history[..phase.seen] + s.history[phase.seen..];
      OthersConcat(s.history[..phase.seen], s.history[phase.seen..], t);
    }
  }

  lemma OwnStepIsKnown<W>(initial: W, s: State<W>, e: Event<W>)
    requires LoadIsPast(initial, s, e.thread) && s.memory == Fold(initial, s.history)
    ensures Known(s, e.thread) + (if Fails(s, e) then 1 else 0) <= Known(Next(s, e), e.thread)
  {
    var t := e.thread;
    KnownAtMost(initial, s, t);
    if Fails(s, e) {
      assert s.PhaseOf(t).seen != |s.history| by {
        assert s.history[..|s.history|] == s.history;
      }
    } else if Succeeds(s, e) {
      assert Next(s, e).history[..|s.history|] == s.history;
    } else {
      assert s.history[..|s.history|] == s.history;
    }
  }

  lemma OtherStepIsKnown<W>(s: State<W>, e: Event<W>, t: Thread)
    requires e.thread != t
    requires s.PhaseOf(t).Loaded? ==> s.PhaseOf(t).seen <= |s.history|
    ensures Known(s, t) <= Known(Next(s, e), t)
  {
    var phase, s' := s.PhaseOf(t), Next(s, e);
    assert s'.history[..|s.history|] == s.history;
    if phase.Loaded? {
      assert s'.history[..phase.seen] == s.history[..phase.seen];
    } else if Succeeds(s, e) {
      assert |s'.history| == |s.history| + 1;
    }
  }

  // ---------- The operations on words of 32 and 64 bits ----------

  datatype Size = Bits32 | Bits64

  function Modulus(size: Size): int {
    match size
    case Bits32 => 0x1_0000_0000
    case Bits64 => 0x1_0000_0000_0000_0000
  }

  function Wrap(size: Size, x: int): (w: int)
    ensures 0 <= w < Modulus(size)
  {
    x % Modulus(size)
  }

  function Add(size: Size, addend: int): Operation<int> {
    Operation(w => Wrap(size, w + addend), true)
  }

  function Subtract(size: Size, value: int): Operation<int> {
    Operation(w => Wrap(size, w - value), true)
  }

  ghost predicate Adds(op: Operation<int>, size: Size, delta: int) {
    forall w :: op.update(w) == Wrap(size, w + delta)
  }

  lemma AddAdds(size: Size, v: int)
    ensures Adds(Add(size, v), size, v) && Adds(Subtract(size, v), size, -v)
  {
    assert forall w :: Subtract(size, v).update(w) == Wrap(size, w + -v);
  }

  function Sum(deltas: seq<int>): int {
    if deltas == [] then 0 else Sum(deltas[..|deltas| - 1]) + deltas[|deltas| - 1]
  }

  // Every operation that is called adds or subtracts; `amount` is what it adds.
  ghost predicate OnlyAdds(events: seq<Event<int>>, size: Size, amount: Operation<int> -> int) {
    forall e <- events :: e.action.Call? ==>
      e.action.op == Add(size, amount(e.action.op)) || e.action.op == Subtract(size, -amount(e.action.op))
  }

  function Amounts(history: seq<Completed<int>>, amount: Operation<int> -> int): seq<int> {
    seq(|history|, k requires 0 <= k < |history| => amount(history[k].op))
  }

  // Nothing that is added or subtracted is lost, in any interleaving.
  lemma NothingIsLost(size: Size, initial: int, events: seq<Event<int>>, amount: Operation<int> -> int)
    requires 0 <= initial < Modulus(size) && OnlyAdds(events, size, amount)
    ensures var s := Run(initial, events); s.memory == Wrap(size, initial + Sum(Amounts(s.history, amount)))
  {
    var history := Run(initial, events).history;
    MemoryIsFold(initial, events);
    AllCompletedAdd(size, initial, events, amount);
    FoldIsSum(size, initial, history, Amounts(history, amount));
  }

  ghost predicate AllAdd(history: seq<Completed<int>>, size: Size, deltas: seq<int>) {
    |deltas| == |history| && forall k :: 0 <= k < |history| ==> Adds(history[k].op, size, deltas[k])
  }

  lemma AllCompletedAdd(size: Size, initial: int, events: seq<Event<int>>, amount: Operation<int> -> int)
    requires OnlyAdds(events, size, amount)
    ensures var history := Run(initial, events).history; AllAdd(history, size, Amounts(history, amount))
  {
    var history := Run(initial, events).history;
    forall k | 0 <= k < |history| ensures Adds(history[k].op, size, Amounts(history, amount)[k]) {
      CompletedAdds(size, initial, events, amount, k);
    }
  }

  lemma CompletedAdds(size: Size, initial: int, events: seq<Event<int>>, amount: Operation<int> -> int, k: nat)
    requires OnlyAdds(events, size, amount) && k < |Run(initial, events).history|
    ensures var op := Run(initial, events).history[k].op; Adds(op, size, amount(op))
  {
    RunsAreInTime(initial, events);
    var c := Run(initial, events).history[k];
    assert TakesEffectInTime(events, c);
    CalledAdds(events, events[c.called], size, amount);
  }

  lemma CalledAdds(events: seq<Event<int>>, e: Event<int>, size: Size, amount: Operation<int> -> int)
    requires OnlyAdds(events, size, amount) && e in events && e.action.Call?
    ensures Adds(e.action.op, size, amount(e.action.op))
  {
    AddAdds(size, amount(e.action.op));
    AddAdds(size, -amount(e.action.op));
  }

  lemma {:induction false} FoldIsSum(size: Size, initial: int, history: seq<Completed<int>>, deltas: seq<int>)
    requires 0 <= initial < Modulus(size) && AllAdd(history, size, deltas)
    ensures Fold(initial, history) == Wrap(size, initial + Sum(deltas))
  {
    if history != [] {
      var n := |history| - 1;
      FoldIsSum(size, initial, history[..n], deltas[..n]);
      assert Adds(history[n].op, size, deltas[n]);
      WrapOnce(size, initial + Sum(deltas[..n]), deltas[n]);
    }
  }

  lemma WrapOnce(size: Size, x: int, y: int)
    ensures Wrap(size, Wrap(size, x) + y) == Wrap(size, x + y)
  {
  }

  // Each addition and subtraction returns the sum as far as itself: the new value.
  lemma AddsReturnSums(size: Size, initial: int, events: seq<Event<int>>, amount: Operation<int> -> int, k: nat)
    requires 0 <= initial < Modulus(size) && OnlyAdds(events, size, amount)
    requires k < |Run(initial, events).history|
    ensures var history := Run(initial, events).history;
            history[k].result == Wrap(size, initial + Sum(Amounts(history, amount)[..k + 1]))
  {
    var history := Run(initial, events).history;
    AllCompletedAdd(size, initial, events, amount);
    CompletedReturnsNew(size, initial, events, amount, k);
    CompletedIsLegal(initial, events, k);
    ResultIsSum(size, initial, history, Amounts(history, amount), k);
  }

  lemma CompletedIsLegal<W(!new)>(initial: W, events: seq<Event<W>>, k: nat)
    requires k < |Run(initial, events).history|
    ensures LegalAt(initial, Run(initial, events).history, k)
  {
    MemoryIsFold(initial, events);
  }

  lemma ResultIsSum(size: Size, initial: int, history: seq<Completed<int>>, deltas: seq<int>, k: nat)
    requires 0 <= initial < Modulus(size) && AllAdd(history, size, deltas) && k < |history|
    requires LegalAt(initial, history, k) && history[k].op.returnsNew
    ensures history[k].result == Wrap(size, initial + Sum(deltas[..k + 1]))
  {
    AllAddUpTo(history, size, deltas, k + 1);
    FoldIsSum(size, initial, history[..k + 1], deltas[..k + 1]);
    FoldNext(initial, history, k);
  }

  lemma AllAddUpTo(history: seq<Completed<int>>, size: Size, deltas: seq<int>, n: nat)
    requires AllAdd(history, size, deltas) && n <= |history|
    ensures AllAdd(history[..n], size, deltas[..n])
  {
  }

  lemma FoldNext(initial: int, history: seq<Completed<int>>, k: nat)
    requires k < |history|
    ensures Fold(initial, history[..k + 1]) == history[k].op.update(Fold(initial, history[..k]))
  {
    assert history[..k + 1][..k] == history[..k];
  }

  lemma CompletedReturnsNew(size: Size, initial: int, events: seq<Event<int>>, amount: Operation<int> -> int, k: nat)
    requires OnlyAdds(events, size, amount) && k < |Run(initial, events).history|
    ensures Run(initial, events).history[k].op.returnsNew
  {
    RunsAreInTime(initial, events);
    var c := Run(initial, events).history[k];
    assert TakesEffectInTime(events, c) && events[c.called] in events;
  }

  // ---------- The operations on the bits of a word ----------

  // A word as the set of its bits that are one.
  type Bits = set<nat>

  function BitAnd(mask: Bits): Operation<Bits> {
    Operation((w: Bits) => w * mask, false)
  }

  function BitOr(mask: Bits): Operation<Bits> {
    Operation((w: Bits) => w + mask, false)
  }

  function Set(value: Bits): Operation<Bits> {
    Operation((w: Bits) => value, false)
  }

  // Whatever the word is, the operation makes the bit one, or zero, or leaves it alone.
  ghost predicate Makes(op: Operation<Bits>, bit: nat, one: bool) {
    forall w: Bits :: bit in op.update(w) <==> one
  }

  ghost predicate Leaves(op: Operation<Bits>, bit: nat) {
    forall w: Bits :: bit in op.update(w) <==> bit in w
  }

  lemma BitsOfOperations(mask: Bits, bit: nat)
    ensures if bit in mask then Makes(BitOr(mask), bit, true) else Leaves(BitOr(mask), bit)
    ensures if bit in mask then Leaves(BitAnd(mask), bit) else Makes(BitAnd(mask), bit, false)
    ensures Makes(Set(mask), bit, bit in mask)
  {
  }

  lemma {:induction false} BitIsLeft(initial: Bits, history: seq<Completed<Bits>>, k: nat, bit: nat)
    requires k <= |history| && forall j :: k <= j < |history| ==> Leaves(history[j].op, bit)
    ensures bit in Fold(initial, history) <==> bit in Fold(initial, history[..k])
    decreases |history|
  {
    var n := |history| - 1;
    if k <= n {
      assert history[..n][..k] == history[..k] && Leaves(history[n].op, bit);
      BitIsLeft(initial, history[..n], k, bit);
    } else {
      assert history[..k] == history;
    }
  }

  // The last operation that touches a bit decides it, whatever the others do to the rest of
  // the word at the same time.
  lemma LastTouchDecides(initial: Bits, events: seq<Event<Bits>>, k: nat, bit: nat, mask: Bits)
    requires var history := Run(initial, events).history;
             && k < |history|
             && forall j :: k < j < |history| ==> Leaves(history[j].op, bit)
    ensures var s := Run(initial, events);
            var op := s.history[k].op;
            && (op == BitOr(mask) && bit in mask ==> bit in s.memory)
            && (op == BitAnd(mask) && bit !in mask ==> bit !in s.memory)
            && (op == Set(mask) ==> (bit in s.memory <==> bit in mask))
  {
    var history := Run(initial, events).history;
    MemoryIsFold(initial, events);
    BitIsLeft(initial, history, k + 1, bit);
    BitsOfOperations(mask, bit);
    assert history[..k + 1][..k] == history[..k];
    assert Fold(initial, history[..k + 1]) == history[k].op.update(Fold(initial, history[..k]));
  }

  // They return the word as it was before.
  lemma BitOperationsReturnOld(initial: Bits, events: seq<Event<Bits>>, k: nat, mask: Bits)
    requires k < |Run(initial, events).history|
    ensures var history := Run(initial, events).history;
            history[k].op == BitAnd(mask) || history[k].op == BitOr(mask) || history[k].op == Set(mask) ==>
              history[k].result == Fold(initial, history[..k])
  {
    CompletedIsLegal(initial, events, k);
  }
}
