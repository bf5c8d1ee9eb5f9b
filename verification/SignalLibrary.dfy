/** The two tables of signal actions over the one of the operating system (omrsig.cpp). */
module SignalLibrary {
  import opened Wrappers
  import opened SignalActions

  class SignalTables {
    const primaryActions: array<Action>
    const secondaryActions: array<Action>
    // The actions of the operating system.
    const osActions: array<Action>

    ghost predicate Valid()
      reads this
    {
      && primaryActions.Length == SIGNAL_COUNT
      && secondaryActions.Length == SIGNAL_COUNT
      && osActions.Length == SIGNAL_COUNT
      && primaryActions != secondaryActions && primaryActions != osActions && secondaryActions != osActions
    }

    ghost function State(): (a: Actions)
      requires Valid()
      reads this, primaryActions, secondaryActions, osActions
      ensures a.Valid()
    {
      Actions(primaryActions[..], secondaryActions[..], osActions[..])
    }

    constructor (os: seq<Action>)
      requires |os| == SIGNAL_COUNT
      ensures Valid() && State().os == os
      ensures forall n :: 0 <= n < SIGNAL_COUNT ==> State().primary[n] == NO_ACTION && State().secondary[n] == NO_ACTION
    {
      primaryActions := new Action[SIGNAL_COUNT](_ => NO_ACTION);
      secondaryActions := new Action[SIGNAL_COUNT](_ => NO_ACTION);
      osActions := new Action[SIGNAL_COUNT](i requires 0 <= i < SIGNAL_COUNT => os[i]);
    }

    method HandlerIsFunction(act: Action) returns (b: bool)
      ensures b == act.handler.Function?
    {
      b := act.handler != Default && act.handler != Ignore;
    }

    method SignalOS(signum: Signal, act: Action, accepted: bool) returns (rc: int)
      requires Valid() && 0 <= signum < SIGNAL_COUNT
      modifies osActions
      ensures osActions[..] == if accepted then old(osActions[..])[signum := act] else old(osActions[..])
      ensures rc == if accepted then 0 else -1
    {
      rc := -1;
      if accepted {
        osActions[signum] := act;
        rc := 0;
      }
    }

    method SigactionInternal(signum: Signal, act: Option<Action>, primary: bool, accepted: bool)
      returns (rc: int, oldact: Option<Action>)
      requires Valid()
      modifies primaryActions, secondaryActions, osActions
      ensures var role := if primary then Primary else Secondary;
              && State() == Register(old(State()), signum, act, role, accepted)
              && (oldact == if ValidRequest(signum, act) then Some(old(State()).Of(role)[signum]) else None)
              && (rc == 0 <==> ValidRequest(signum, act) && (act.None? || accepted))
      ensures rc == 0 || rc == -1
    {
      rc, oldact := 0, None;
      var isFunction := false;
      if act.Some? {
        isFunction := HandlerIsFunction(act.value);
      }
      if !ValidSignal(signum, act.None? || !isFunction) {
        rc := -1;
      } else {
        var savedActions := if primary then primaryActions else secondaryActions;
        oldact := Some(savedActions[signum]);
        if act.Some? {
          savedActions[signum] := act.value;
          if primary {
            savedActions[signum] := savedActions[signum].(flags := savedActions[signum].flags - {ResetHand});
          }
          var newRegisteringHandler;
          isFunction := HandlerIsFunction(primaryActions[signum]);
          if isFunction {
            newRegisteringHandler := primaryActions[signum];
            newRegisteringHandler := newRegisteringHandler.(
              flags := newRegisteringHandler.flags + secondaryActions[signum].flags * SECONDARY_FLAGS_WHITELIST);
          } else {
            newRegisteringHandler := secondaryActions[signum];
          }
          rc := SignalOS(signum, newRegisteringHandler, accepted);
        }
      }
    }

    // A signal out of range is not noticed.
    method Sigignore(signum: Signal) returns (rc: int)
      requires Valid() && 0 <= signum < SIGNAL_COUNT
      modifies secondaryActions
      ensures State() == SigIgnore(old(State()), signum) && rc == 0
    {
      secondaryActions[signum] := secondaryActions[signum].(handler := Ignore);
      rc := 0;
    }

    // The secondary is called as the system would call it; `mask` is the mask of the
    // calling thread, and `call` is how the handler is called. `resetIsNoDefer` is true on
    // AIX and z/OS.
    method OmrsigHandler(signum: Signal, mask: set<Signal>, resetIsNoDefer: bool, accepted: bool)
      returns (rc: Code, call: Option<Invocation>, maskAfter: set<Signal>)
      requires Valid()
      modifies primaryActions, secondaryActions, osActions
      ensures Delivery(rc, call, maskAfter, State()) == Deliver(old(State()), signum, mask, resetIsNoDefer, accepted)
    {
      rc, call, maskAfter := Error, None, mask;
      if ValidSignal(signum, false) {
        var secondaryAction := secondaryActions[signum];
        var isFunction := HandlerIsFunction(secondaryAction);
        if isFunction {
          var oldMask := maskAfter;
          maskAfter := maskAfter + (secondaryAction.mask + {signum});
          if NoDefer in secondaryAction.flags || (resetIsNoDefer && ResetHand in secondaryAction.flags) {
            maskAfter := maskAfter - {signum};
          }
          var handler, flags := secondaryAction.handler, secondaryAction.flags;
          if ResetHand in secondaryAction.flags {
            secondaryAction := secondaryAction.(flags := secondaryAction.flags - {SigInfo});
            secondaryAction := secondaryAction.(handler := Default);
            var _, _ := SigactionInternal(signum, Some(secondaryAction), false, accepted);
          }
          call := Some(Invocation(handler, SigInfo in flags, maskAfter));
          maskAfter := oldMask;
          rc := SignalHandled;
        } else if secondaryAction.handler == Default {
          rc := DefaultActionRequired;
        }
      }
    }
  }
}
