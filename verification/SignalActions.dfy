/** Two roles share the signal actions of one process (omrsig.cpp): a primary and a
    secondary. This is what registering, ignoring and delivering signals mean, on values. */
module SignalActions {
  import opened Wrappers

  type Signal = int

  // The values of these are those of Linux.
  const SIGNAL_COUNT: int := 65
  const SIGKILL: Signal := 9
  const SIGSTOP: Signal := 19

  // No handler at all is the default handler.
  datatype Handler = Default | Ignore | Function(id: nat)

  datatype Flag = OnStack | NoChildStop | NoChildWait | NoDefer | ResetHand | SigInfo | Restart

  datatype Action = Action(handler: Handler, mask: set<Signal>, flags: set<Flag>)

  const NO_ACTION := Action(Default, {}, {})
  const SECONDARY_FLAGS_WHITELIST: set<Flag> := {OnStack, NoChildStop, NoChildWait}

  datatype Role = Primary | Secondary

  // What each role has registered, and what the operating system does.
  datatype Actions = Actions(primary: seq<Action>, secondary: seq<Action>, os: seq<Action>) {
    predicate Valid() {
      |primary| == SIGNAL_COUNT && |secondary| == SIGNAL_COUNT && |os| == SIGNAL_COUNT
    }

    function Of(role: Role): seq<Action> {
      match role
      case Primary => primary
      case Secondary => secondary
    }
  }

  predicate ValidSignal(n: Signal, nullAction: bool) {
    0 <= n < SIGNAL_COUNT && ((n != SIGKILL && n != SIGSTOP) || nullAction)
  }

  // Whether a request is not refused with EINVAL.
  predicate ValidRequest(n: Signal, act: Option<Action>) {
    ValidSignal(n, act.None? || !act.value.handler.Function?)
  }

  // The action that serves both roles.
  function Effective(primary: Action, secondary: Action): Action {
    if primary.handler.Function? then primary.(flags := primary.flags + secondary.flags * SECONDARY_FLAGS_WHITELIST)
    else secondary
  }

  // A primary action is kept without SA_RESETHAND.
  function Supported(role: Role, act: Action): Action {
    if role == Primary then act.(flags := act.flags - {ResetHand}) else act
  }

  // `accepted` tells whether the operating system accepts the action that it is given; the
  // slots are changed in any case.
  function Register(a: Actions, n: Signal, act: Option<Action>, role: Role, accepted: bool): (b: Actions)
    requires a.Valid()
    ensures b.Valid()
  {
    if !ValidRequest(n, act) || act.None? then a
    else
      var saved := Supported(role, act.value);
      var p := if role == Primary then a.primary[n := saved] else a.primary;
      var s := if role == Secondary then a.secondary[n := saved] else a.secondary;
      Actions(p, s, if accepted then a.os[n := Effective(p[n], s[n])] else a.os)
  }

  function SigIgnore(a: Actions, n: Signal): (b: Actions)
    requires a.Valid() && 0 <= n < SIGNAL_COUNT
    ensures b.Valid()
  {
    a.(secondary := a.secondary[n := a.secondary[n].(handler := Ignore)])
  }

  // ---------- The reset of the secondary ----------

  // Whether calling the secondary resets it.
  predicate Resets(n: Signal, act: Action) {
    ValidSignal(n, false) && act.handler.Function? && ResetHand in act.flags
  }

  function Reset(act: Action): Action {
    act.(flags := act.flags - {SigInfo}, handler := Default)
  }

  function AfterDelivery(a: Actions, n: Signal, accepted: bool): (b: Actions)
    requires a.Valid()
    ensures b.Valid()
  {
    if ValidSignal(n, false) && Resets(n, a.secondary[n]) then Register(a, n, Some(Reset(a.secondary[n])), Secondary, accepted)
    else a
  }

  // ---------- The operating system does what the roles ask for ----------

  predicate InSync(a: Actions, n: Signal)
    requires a.Valid() && 0 <= n < SIGNAL_COUNT
  {
    a.os[n] == Effective(a.primary[n], a.secondary[n])
  }

  // Whatever has been set for a signal, the system has it or refuses to take it.
  lemma RegisterSyncs(a: Actions, n: Signal, act: Action, role: Role, accepted: bool, m: Signal)
    requires a.Valid() && ValidRequest(n, Some(act)) && 0 <= m < SIGNAL_COUNT
    ensures var b := Register(a, n, Some(act), role, accepted);
            && (m != n ==> InSync(b, m) == InSync(a, m))
            && (m == n && accepted ==> InSync(b, m))
            && (m == n && !accepted ==> b.os[m] == a.os[m])
            && b.Of(role)[n] == Supported(role, act)
  {
  }

  // Ignoring a signal does not reach the system: it stays in sync only while a primary
  // hides the secondary, or when that ignores the signal already.
  lemma SigIgnoreSyncsExactly(a: Actions, n: Signal)
    requires a.Valid() && 0 <= n < SIGNAL_COUNT && InSync(a, n)
    ensures InSync(SigIgnore(a, n), n) <==> a.primary[n].handler.Function? || a.secondary[n].handler == Ignore
  {
  }

  // ---------- Runs ----------

  // A delivery is a call of the secondary for a signal that the primary has got.
  datatype Event =
    | Sigaction(signal: Signal, act: Option<Action>, role: Role, accepted: bool)
    | Ignoring(signal: Signal)
    | Delivering(signal: Signal, accepted: bool)

  predicate Allowed(e: Event) {
    e.Ignoring? ==> 0 <= e.signal < SIGNAL_COUNT
  }

  function Next(a: Actions, e: Event): (b: Actions)
    requires a.Valid() && Allowed(e)
    ensures b.Valid()
  {
    match e
    case Sigaction(n, act, role, accepted) => Register(a, n, act, role, accepted)
    case Ignoring(n) => SigIgnore(a, n)
    case Delivering(n, accepted) => AfterDelivery(a, n, accepted)
  }

  function Run(a: Actions, events: seq<Event>): (b: Actions)
    requires a.Valid() && forall e <- events :: Allowed(e)
    ensures b.Valid()
  {
    if events == [] then a else Next(Run(a, events[..|events| - 1]), events[|events| - 1])
  }

  predicate Sets(e: Event, n: Signal, role: Role) {
    e.Sigaction? && e.signal == n && e.role == role && e.act.Some? && ValidRequest(n, e.act)
  }

  // What a role has set last for a signal, and what has become of it; `none` if it has not
  // set anything.
  function Last(events: seq<Event>, n: Signal, role: Role, none: Action): Action {
    if events == [] then none
    else
      var before, e := events[..|events| - 1], events[|events| - 1];
      if Sets(e, n, role) then Supported(role, e.act.value)
      else if e == Ignoring(n) && role == Secondary then Last(before, n, role, none).(handler := Ignore)
      else if e.Delivering? && e.signal == n && role == Secondary && Resets(n, Last(before, n, role, none)) then
        Reset(Last(before, n, role, none))
      else Last(before, n, role, none)
  }

  // Each role reads back what it has set itself, whatever the other has done.
  lemma {:induction false} RolesAreSeparate(a: Actions, events: seq<Event>, n: Signal, role: Role)
    requires a.Valid() && (forall e <- events :: Allowed(e)) && 0 <= n < SIGNAL_COUNT
    ensures Run(a, events).Of(role)[n] == Last(events, n, role, a.Of(role)[n])
  {
    if events != [] {
      RolesAreSeparate(a, events[..|events| - 1], n, role);
    }
  }

  predicate Touched(events: seq<Event>, n: Signal) {
    exists e <- events :: Sets(e, n, Primary) || Sets(e, n, Secondary)
  }

  // An action that takes the system along: it is accepted, or it ignores a signal for
  // which the system need not know.
  predicate Reaches(a: Actions, e: Event)
    requires a.Valid() && Allowed(e)
  {
    match e
    case Sigaction(_, _, _, accepted) => accepted
    case Ignoring(n) => a.primary[n].handler.Function? || a.secondary[n].handler == Ignore
    case Delivering(n, accepted) => accepted || !(ValidSignal(n, false) && Resets(n, a.secondary[n]))
  }

  predicate AllReach(a: Actions, events: seq<Event>)
    requires a.Valid() && forall e <- events :: Allowed(e)
  {
    events != [] ==>
      AllReach(a, events[..|events| - 1]) && Reaches(Run(a, events[..|events| - 1]), events[|events| - 1])
  }

  // After a run that takes the system along, the system's action for every signal that has
  // been set serves what the two roles have set last.
  lemma {:induction false} SystemServesBoth(a: Actions, events: seq<Event>, n: Signal)
    requires a.Valid() && (forall e <- events :: Allowed(e)) && 0 <= n < SIGNAL_COUNT
    requires AllReach(a, events)
    requires Touched(events, n) || InSync(a, n)
    ensures Run(a, events).os[n]
         == Effective(Last(events, n, Primary, a.primary[n]), Last(events, n, Secondary, a.secondary[n]))
  {
    RolesAreSeparate(a, events, n, Primary);
    RolesAreSeparate(a, events, n, Secondary);
    StaysInSync(a, events, n);
  }

  lemma {:induction false} StaysInSync(a: Actions, events: seq<Event>, n: Signal)
    requires a.Valid() && (forall e <- events :: Allowed(e)) && 0 <= n < SIGNAL_COUNT
    requires AllReach(a, events)
    requires Touched(events, n) || InSync(a, n)
    ensures InSync(Run(a, events), n)
  {
    if events != [] {
      var before, e := events[..|events| - 1], events[|events| - 1];
      if Sets(e, n, Primary) || Sets(e, n, Secondary) {
        RegisterSyncs(Run(a, before), n, e.act.value, e.role, e.accepted, n);
      } else {
        assert Touched(before, n) <== Touched(events, n);
        StaysInSync(a, before, n);
      }
    }
  }

  // What that action is: the handler and the mask are those of one role, and the only thing
  // that a secondary adds to a primary is to run on an alternate stack, or not to be told of
  // children that stop or that nobody waits for.
  lemma SystemHasExactly(a: Actions, events: seq<Event>, n: Signal, flag: Flag)
    requires a.Valid() && (forall e <- events :: Allowed(e)) && 0 <= n < SIGNAL_COUNT
    requires AllReach(a, events)
    requires Touched(events, n) || InSync(a, n)
    ensures var primary, secondary := Last(events, n, Primary, a.primary[n]), Last(events, n, Secondary, a.secondary[n]);
            var os := Run(a, events).os[n];
            if primary.handler == Default || primary.handler == Ignore then os == secondary
            else
              && os.handler == primary.handler && os.mask == primary.mask
              && (flag in os.flags <==>
                    || flag in primary.flags
                    || (flag in secondary.flags && (flag == OnStack || flag == NoChildStop || flag == NoChildWait)))
  {
    SystemServesBoth(a, events, n);
  }

  // No run leaves SA_RESETHAND with a primary, or with the system while there is one.
  lemma {:induction false} PrimaryIsNeverReset(a: Actions, events: seq<Event>, n: Signal)
    requires a.Valid() && (forall e <- events :: Allowed(e)) && 0 <= n < SIGNAL_COUNT
    requires ResetHand !in a.primary[n].flags
    ensures ResetHand !in Run(a, events).primary[n].flags
    ensures AllReach(a, events) && InSync(a, n) && Run(a, events).primary[n].handler.Function? ==>
              ResetHand !in Run(a, events).os[n].flags
  {
    if events != [] {
      PrimaryIsNeverReset(a, events[..|events| - 1], n);
    }
    if AllReach(a, events) && InSync(a, n) {
      StaysInSync(a, events, n);
    }
  }

  predicate NeverCaught(a: Actions, n: Signal)
    requires a.Valid() && 0 <= n < SIGNAL_COUNT
  {
    !a.primary[n].handler.Function? && !a.secondary[n].handler.Function? && !a.os[n].handler.Function?
  }

  // No run can have the signals 9 and 19 caught, by either role.
  lemma {:induction false} KillAndStopAreNeverCaught(a: Actions, events: seq<Event>, n: Signal)
    requires a.Valid() && (forall e <- events :: Allowed(e)) && (n == 9 || n == 19) && NeverCaught(a, n)
    ensures NeverCaught(Run(a, events), n)
  {
    if events != [] {
      KillAndStopAreNeverCaught(a, events[..|events| - 1], n);
    }
  }

  // Any other signal of the table can be.
  lemma OthersCanBeCaught(a: Actions, n: Signal, act: Action, role: Role)
    requires a.Valid() && 0 <= n < 65 && n != 9 && n != 19 && act.handler.Function? && ResetHand !in act.flags
    ensures Register(a, n, Some(act), role, true).Of(role)[n] == act
  {
  }

  // Setting back what a call has reported as the old action undoes the call.
  lemma SettingBackUndoes(a: Actions, n: Signal, act: Action, role: Role)
    requires a.Valid() && ValidRequest(n, Some(act)) && InSync(a, n)
    requires ResetHand !in a.primary[n].flags
    requires ValidRequest(n, Some(a.Of(role)[n]))
    ensures Register(Register(a, n, Some(act), role, true), n, Some(a.Of(role)[n]), role, true) == a
  {
    var b := Register(Register(a, n, Some(act), role, true), n, Some(a.Of(role)[n]), role, true);
    assert Supported(role, a.Of(role)[n]) == a.Of(role)[n];
    assert b.primary == a.primary && b.secondary == a.secondary && b.os == a.os;
  }

  // ---------- Calling the secondary ----------

  datatype Code = Error | SignalHandled | DefaultActionRequired

  // How a handler is called: with one argument or with three, and with which mask.
  datatype Invocation = Invocation(handler: Handler, withInfo: bool, mask: set<Signal>)

  datatype Delivery = Delivery(code: Code, call: Option<Invocation>, mask: set<Signal>, actions: Actions)

  // Whether a handler runs with its signal blocked. That SA_RESETHAND does what SA_NODEFER
  // does is left to the system by POSIX; here it is so on AIX and z/OS only.
  predicate Blocks(act: Action, resetIsNoDefer: bool) {
    NoDefer !in act.flags && !(resetIsNoDefer && ResetHand in act.flags)
  }

  function EntryMask(act: Action, n: Signal, mask: set<Signal>, resetIsNoDefer: bool): set<Signal> {
    var blocked := mask + (act.mask + {n});
    if Blocks(act, resetIsNoDefer) then blocked else blocked - {n}
  }

  function Deliver(a: Actions, n: Signal, mask: set<Signal>, resetIsNoDefer: bool, accepted: bool): Delivery
    requires a.Valid()
  {
    if !ValidSignal(n, false) then Delivery(Error, None, mask, a)
    else
      var act := a.secondary[n];
      match act.handler
      case Default => Delivery(DefaultActionRequired, None, mask, a)
      case Ignore => Delivery(Error, None, mask, a)
      case Function(_) =>
        Delivery(
          SignalHandled,
          Some(Invocation(act.handler, SigInfo in act.flags, EntryMask(act, n, mask, resetIsNoDefer))),
          mask,
          AfterDelivery(a, n, accepted))
  }

  // The mask with which sigaction() has a handler run: the union of the interrupted mask
  // and that of the action, and, unless SA_NODEFER (or SA_RESETHAND) is set, the signal.
  function PosixMask(act: Action, n: Signal, interrupted: set<Signal>, resetIsNoDefer: bool): set<Signal> {
    interrupted + act.mask + if Blocks(act, resetIsNoDefer) then {n} else {}
  }

  // The system interrupts a thread for a signal, which its mask cannot have, and runs the
  // primary, whose handler calls the secondary. This has the mask that it would have
  // without a primary if and only if the primary masks no other signal in addition, and
  // the signal itself is treated alike: a secondary that runs with it unblocked must not
  // have it in its own mask, and a system that takes SA_RESETHAND for SA_NODEFER must find
  // this library do so too. `system` tells how the system takes it, and `library` how this
  // library does.
  lemma SecondaryMaskExactly(primary: Action, secondary: Action, n: Signal, interrupted: set<Signal>, system: bool, library: bool)
    requires n !in interrupted && primary.handler.Function? && ResetHand !in primary.flags
    ensures var entered := PosixMask(Effective(primary, secondary), n, interrupted, system);
            EntryMask(secondary, n, entered, library) == PosixMask(secondary, n, interrupted, system)
            <==> (&& primary.mask - {n} <= interrupted + secondary.mask
                  && (if n in secondary.mask then Blocks(secondary, library)
                      else Blocks(secondary, library) == Blocks(secondary, system)))
  {
    var entered := PosixMask(Effective(primary, secondary), n, interrupted, system);
    var mask, posix := EntryMask(secondary, n, entered, library), PosixMask(secondary, n, interrupted, system);
    assert n in mask <==> Blocks(secondary, library);
    assert n in posix <==> n in secondary.mask || Blocks(secondary, system);
    assert mask - {n} == (interrupted + primary.mask + secondary.mask) - {n};
    assert posix - {n} == (interrupted + secondary.mask) - {n};
    if primary.mask - {n} <= interrupted + secondary.mask {
      assert mask - {n} == posix - {n};
      if n in mask <==> n in posix {
        SameWithout(mask, posix, n);
      }
    } else if x :| x in primary.mask - {n} && x !in interrupted + secondary.mask {
      assert x in mask && x !in posix;
    }
  }

  lemma SameWithout<T>(s: set<T>, t: set<T>, x: T)
    requires s - {x} == t - {x} && (x in s <==> x in t)
    ensures s == t
  {
    forall y ensures y in s <==> y in t {
      assert y != x ==> (y in s <==> y in s - {x}) && (y in t <==> y in t - {x});
    }
  }

  // Whatever the primary masks goes on being masked in the secondary, but for the signal.
  lemma SecondaryInheritsMask(secondary: Action, n: Signal, mask: set<Signal>, library: bool)
    ensures EntryMask(secondary, n, mask, library) - {n} == (mask + secondary.mask) - {n}
  {
  }

  // A secondary that is a function is called as the system would call it, with its
  // information if it has asked for that; otherwise nothing is called. In any case the
  // thread has its mask back.
  lemma DeliveryExactly(a: Actions, n: Signal, mask: set<Signal>, library: bool, accepted: bool)
    requires a.Valid() && 0 <= n < 65 && n != 9 && n != 19
    ensures var act, d := a.secondary[n], Deliver(a, n, mask, library, accepted);
            && d.mask == mask
            && (d.call.Some? <==> act.handler != Default && act.handler != Ignore)
            && (d.code == SignalHandled <==> d.call.Some?)
            && (d.code == DefaultActionRequired <==> act.handler == Default)
            && (d.call.Some? ==> d.call.value.handler == act.handler && (d.call.value.withInfo <==> SigInfo in act.flags))
  {
  }

  // The reset takes the handler and SA_SIGINFO from the secondary, and nothing else from
  // anyone.
  lemma ResetExactly(a: Actions, n: Signal, mask: set<Signal>, library: bool, m: Signal, flag: Flag)
    requires a.Valid() && ValidSignal(n, false) && 0 <= m < 65
    ensures var act, after := a.secondary[n], Deliver(a, n, mask, library, true).actions;
            && after.Valid() && after.primary == a.primary
            && (m != n || !act.handler.Function? || ResetHand !in act.flags ==>
                  after.secondary[m] == a.secondary[m] && after.os[m] == a.os[m])
            && (act.handler.Function? && ResetHand in act.flags ==>
                  && after.secondary[n].handler == Default && after.secondary[n].mask == act.mask
                  && (flag in after.secondary[n].flags <==> flag in act.flags && flag != SigInfo))
  {
  }

  // A handler with SA_RESETHAND is called once: until the secondary sets another action,
  // the caller is told to take the default action.
  lemma ResetHandIsOneShot(a: Actions, n: Signal, mask: set<Signal>, library: bool, accepted: bool, events: seq<Event>, later: set<Signal>)
    requires a.Valid() && ValidSignal(n, false)
    requires a.secondary[n].handler.Function? && ResetHand in a.secondary[n].flags
    requires forall e <- events :: Allowed(e) && !Sets(e, n, Secondary) && e != Ignoring(n)
    ensures var d := Deliver(a, n, mask, library, accepted);
            && d.code == SignalHandled && d.actions.Valid()
            && Deliver(Run(d.actions, events), n, later, library, accepted).code == DefaultActionRequired
  {
    var b := Deliver(a, n, mask, library, accepted).actions;
    RolesAreSeparate(b, events, n, Secondary);
    StaysLast(events, n, b.secondary[n]);
  }

  lemma {:induction false} StaysLast(events: seq<Event>, n: Signal, none: Action)
    requires !none.handler.Function?
    requires forall e <- events :: !Sets(e, n, Secondary) && e != Ignoring(n)
    ensures Last(events, n, Secondary, none) == none
  {
    if events != [] {
      StaysLast(events[..|events| - 1], n, none);
    }
  }
}
