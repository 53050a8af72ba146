/**
  sigaction on top of signal blocking (gnulib/sigaction.c).

  An entry of the action table whose handler is Default (the null pointer) says that the
  signal is not managed by sigaction.  The other layer is used only through sigprocmask
  and signal.
 */
module Sigactions {
  import opened Bits
  import opened Powers
  import opened Signals
  import opened Wrappers

  /** struct sigaction; in the flags, bit 0 is SA_RESETHAND and bit 1 is SA_NODEFER. */
  datatype Action = Action(handler: Handler, flags: nat, mask: nat)

  predicate Resets(a: Action) {
    Bit(a.flags, 0)
  }

  predicate DoesNotDefer(a: Action) {
    Bit(a.flags, 1)
  }

  /** The program's own actions: it cannot name the two internal handlers. */
  ghost predicate Usable(a: Action) {
    a.handler != BlockedHandler && a.handler != SigactionHandler && IsSigset(a.mask)
  }

  // ---------------------------------------------------------- the abstraction

  /** A loop of sigprocmask that still has signals to raise, or a handler that returns to a mask. */
  datatype Task = Raising(left: seq<nat>) | Handling(restore: set<nat>)

  /** `calls` lists the program's handlers that ran; `tasks` is innermost first. */
  datatype Sys = Sys(posix: Posix, actions: seq<Action>, calls: seq<Event>, tasks: seq<Task>, aborted: bool)

  ghost predicate SoundSys(w: Sys) {
    && Proper(w.posix)
    && |w.actions| == NSIG
    && (forall s :: s in w.posix.handlers ==> s < NSIG && s != SIGABRT_COMPAT)
    && SIGPIPE in w.posix.handlers
    && (forall s :: 0 <= s < NSIG ==> IsSigset(w.actions[s].mask))
    && (forall s :: 0 <= s < NSIG && s !in w.posix.handlers ==> w.actions[s].handler == Default)
    && (forall t :: t in w.tasks ==> SoundTask(w.posix, t))
  }

  ghost predicate SoundTask(p: Posix, t: Task) {
    match t
    case Raising(left) => forall s :: s in left ==> s in p.handlers
    case Handling(mask) => mask <= p.handlers.Keys
  }

  /** The table has an entry exactly for the signals whose handler is sigaction_handler. */
  ghost predicate Consistent(w: Sys)
    requires |w.actions| == NSIG
  {
    forall s: nat :: s < NSIG && s in w.posix.handlers ==>
                       (w.actions[s].handler != Default <==> w.posix.handlers[s] == SigactionHandler)
  }

  /** The signals that the handler of s blocks while it runs. */
  ghost function Blocking(a: Action, s: nat): set<nat> {
    Elements(a.mask) + if DoesNotDefer(a) then {} else {s}
  }

  /** sigaction_handler, up to the call of the program's handler. */
  ghost function Enter(w: Sys, s: nat): Sys
    requires s < |w.actions|
  {
    var p, a := w.posix, w.actions[s];
    if a.handler == Default then
      w.(aborted := true, posix := if s == SIGABRT then Install(p, SIGABRT, Default).0 else p)
    else
      var q := if Resets(a) then p else Install(p, s, SigactionHandler).0;
      w.(posix := Remask(q, (p.mask + Blocking(a, s)) * p.handlers.Keys),
         actions := if Resets(a) then w.actions[s := a.(handler := Default)] else w.actions,
         calls := w.calls + [Ran(s, a.handler)],
         tasks := [Handling(p.mask)] + w.tasks)
  }

  ghost function Arrive(w: Sys, s: nat): Sys
    requires s in w.posix.handlers && s < |w.actions|
  {
    var called := Called(w.posix, s);
    var w' := w.(posix := Deliver(w.posix, s));
    if called == SigactionHandler then Enter(w', s) else w'
  }

  /** Does the call fail? */
  ghost predicate Fails(p: Posix, sig: int, act: Option<Action>, query: bool) {
    || !InRange(sig)
    || (act.Some? && act.value.handler == Error)
    || ((act.Some? || query) && Canonical(sig) !in p.handlers)
  }

  ghost function Queried(w: Sys, s: nat): Action
    requires s < |w.actions| && s in w.posix.handlers
  {
    if w.actions[s].handler != Default then w.actions[s]
    else Action(w.posix.handlers[s], 3, 0)
  }

  /** The change of the two tables by a sigaction that succeeds. */
  ghost function Replaced(w: Sys, s: nat, a: Action): Sys
    requires s < |w.actions| && s in w.posix.handlers
  {
    var own := a.handler == Default || a.handler == Ignore;
    w.(posix := w.posix.(handlers := w.posix.handlers[s := if own then a.handler else SigactionHandler]),
       actions := w.actions[s := if own then w.actions[s].(handler := Default) else a])
  }

  /** The signals of a set arrive while everything is blocked. */
  ghost function Hold(p: Posix, during: set<nat>): Posix {
    p.(pending := p.pending + during * p.handlers.Keys)
  }

  /** Arrivals while sigaction blocks all signals are delivered after it has restored the mask. */
  ghost function AfterSigaction(w: Sys, sig: int, act: Option<Action>, query: bool, during: set<nat>): Sys
    requires |w.actions| == NSIG
  {
    if !InRange(sig) || (act.Some? && act.value.handler == Error) || (act.None? && !query) then w
    else
      var s := Canonical(sig);
      var w' := if act.Some? && s in w.posix.handlers then Replaced(w, s, act.value) else w;
      var p := Hold(w'.posix, during);
      w'.(posix := Remask(p, p.mask), tasks := [Raising(Ascending(p.pending - p.mask, 0))] + w.tasks)
  }

  // ------------------------------------------------------------------- runs

  datatype Move =
    | Act(sig: int, act: Option<Action>, query: bool, during: seq<nat>)
    | Mask(operation: int, operand: Option<nat>)
    | Incoming(signal: nat)
    | Proceed

  ghost predicate Permitted(step: Move) {
    match step
    case Act(_, act, _, _) => act.Some? ==> Usable(act.value)
    case Mask(_, operand) => operand.Some? ==> IsSigset(operand.value)
    case Incoming(_) => true
    case Proceed => true
  }

  /** The mask changes, and what that releases waits to be raised. */
  ghost function Release(w: Sys, mask: set<nat>): Sys {
    w.(posix := Remask(w.posix, mask), tasks := [Raising(Ascending(w.posix.pending - mask, 0))] + w.tasks)
  }

  /** The innermost task goes on: a loop raises its next signal, or a handler returns. */
  ghost function Advance(w: Sys): Sys
    requires |w.actions| == NSIG && w.tasks != []
  {
    var rest := w.tasks[1..];
    match w.tasks[0]
    case Handling(mask) => Release(w.(tasks := rest), mask)
    case Raising(left) =>
      if left == [] then w.(tasks := rest)
      else
        var w' := w.(tasks := [Raising(left[1..])] + rest);
        if left[0] in w.posix.handlers && left[0] < NSIG then Arrive(w', left[0]) else w'
  }

  ghost function After(w: Sys, step: Move): Sys
    requires |w.actions| == NSIG
    ensures |After(w, step).actions| == NSIG
  {
    if w.aborted then w
    else
      match step
      case Act(sig, act, query, during) => AfterSigaction(w, sig, act, query, ToSet(during))
      case Mask(operation, operand) => Release(w, NewMask(w.posix, operation, Operand(operand)))
      case Incoming(s) => if s in w.posix.handlers && s < NSIG then Arrive(w, s) else w
      case Proceed => if w.tasks == [] then w else Advance(w)
  }

  ghost function Outcome(w: Sys, steps: seq<Move>): (r: Sys)
    requires |w.actions| == NSIG
    ensures |r.actions| == NSIG
  {
    if steps == [] then w else After(Outcome(w, steps[..|steps| - 1]), steps[|steps| - 1])
  }

  /** A task as the code holds it. */
  datatype Activity = Loop(frame: Frame) | Handler(oldMask: nat)

  ghost function Meaning(a: Activity): Task {
    match a
    case Loop(frame) => Raising(Left(frame))
    case Handler(oldMask) => Handling(Elements(oldMask))
  }

  ghost function Meanings(stack: seq<Activity>): seq<Task> {
    seq(|stack|, i requires 0 <= i < |stack| => Meaning(stack[i]))
  }

  lemma MeaningsCons(a: Activity, stack: seq<Activity>)
    ensures Meanings([a] + stack) == [Meaning(a)] + Meanings(stack)
  {}

  // ----------------------------------------------------------------- the code

  class ActionLayer {
    const layer: SignalLayer
    const actionArray: array<Action>
    var calls: seq<Event>
    var aborted: bool

    ghost predicate Shaped()
      reads this
    {
      layer.Shaped() && actionArray.Length == NSIG
    }

    ghost predicate Valid()
      reads this, actionArray, layer, layer.table, layer.oldHandlers, layer.pendingArray
    {
      && Shaped()
      && layer.Valid()
      && (forall s: nat :: s < NSIG ==> IsSigset(actionArray[s].mask))
      && (forall s: nat :: s < NSIG && !layer.Accepts(s) ==> actionArray[s].handler == Default)
    }

    ghost function View(tasks: seq<Task>): Sys
      requires Shaped()
      reads this, actionArray, layer, layer.table, layer.oldHandlers, layer.pendingArray
    {
      Sys(layer.View(), actionArray[..], calls, tasks, aborted)
    }

    constructor (signals: SignalLayer)
      requires signals.Valid()
      ensures Valid() && layer == signals && fresh(actionArray)
      ensures View([]) == Sys(signals.View(), seq(NSIG, _ => Action(Default, 0, 0)), [], [], false)
      ensures SigactionHandler !in signals.View().handlers.Values ==> Untouched(View([]))
    {
      layer := signals;
      actionArray := new Action[NSIG](_ => Action(Default, 0, 0));
      calls, aborted := [], false;
      new;
      hide Bit, SignalLayer.ValidAt;
      ElementsZero();
      assert actionArray[..] == seq(NSIG, _ => Action(Default, 0, 0));
    }

    /** Blocks the mask of an action and, unless SA_NODEFER is set, the signal itself. */
    method BlockFor(a: Action, sig: nat) returns (oldMask: nat)
      requires layer.Valid() && IsSigset(a.mask) && sig < NSIG && sig != SIGABRT_COMPAT
      modifies layer, layer.table, layer.oldHandlers, layer.pendingArray
      ensures layer.Valid() && IsSigset(oldMask) && Elements(oldMask) == old(layer.View().mask)
      ensures var p := old(layer.View());
              layer.View() == Remask(p, (p.mask + Blocking(a, sig)) * p.handlers.Keys)
    {
      hide Bit, Pow2, SignalLayer.Valid, SignalLayer.Handlers, Elements;
      layer.ViewIsProper();
      var mask, r, received := a.mask, 0, [];
      if !DoesNotDefer(a) {
        mask, r := SigAddSet(mask, sig);
      }
      r, oldMask, received := layer.ChangeMask(SIG_BLOCK, Some(mask));
    }

    /** The first half of sigaction_handler: the library has uninstalled it. */
    method Reinstall(sig: nat)
      requires Valid() && layer.Accepts(sig) && sig < NSIG && sig != SIGABRT_COMPAT
      modifies actionArray, layer`sigpipeHandler, layer.table, layer.oldHandlers
      ensures Valid()
      ensures var a := old(actionArray[sig]);
              && actionArray[..] == (if Resets(a) then old(actionArray[..])[sig := a.(handler := Default)]
                                     else old(actionArray[..]))
              && layer.View() == if Resets(a) then old(layer.View())
                                 else Install(old(layer.View()), sig, SigactionHandler).0
    {
      hide Bit, Pow2, SignalLayer.Valid, SignalLayer.Handlers, Elements, Install;
      if !Resets(actionArray[sig]) {
        var _ := layer.Signal(sig, SigactionHandler);
      } else {
        actionArray[sig] := actionArray[sig].(handler := Default);
      }
    }

    /**
      sigaction_handler up to the call of the program's handler; oldMask is what it restores
      afterwards.  Without an entry in the table the process aborts.
     */
    method SigactionHandlerStarts(sig: nat, ghost tasks: seq<Task>) returns (handler: Option<Handler>, oldMask: nat)
      requires Valid() && layer.Accepts(sig) && sig < NSIG
      modifies this, actionArray, layer, layer.table, layer.oldHandlers, layer.pendingArray
      ensures Valid() && IsSigset(oldMask) && forall s :: s in Elements(oldMask) ==> layer.Accepts(s)
      ensures handler == if old(actionArray[sig].handler) == Default then None else Some(old(actionArray[sig].handler))
      ensures View(if handler.None? then tasks else [Handling(Elements(oldMask))] + tasks)
              == Enter(old(View(tasks)), sig)
    {
      hide Bit, Pow2, SignalLayer.Valid, SignalLayer.Handlers, SignalLayer.Pending, Elements, Remask, Resets, Blocking;
      layer.ViewIsProper();
      ghost var before := layer.View();
      forall s | s in Elements(layer.blockedSet) ensures layer.Accepts(s) { assert s in before.handlers; }
      assert old(actionArray[..])[sig] == actionArray[sig];
      if actionArray[sig].handler == Default {
        oldMask := layer.blockedSet;
        if sig == SIGABRT {
          var _ := layer.Signal(SIGABRT, Default);
        }
        aborted := true;
        return None, oldMask;
      }
      var action := actionArray[sig];
      Reinstall(sig);
      InstallKeeps(before, sig, SigactionHandler);
      oldMask := BlockFor(action, sig);
      calls := calls + [Ran(sig, action.handler)];
      handler := Some(action.handler);
    }

    /** sigaction blocks every signal; those that arrive from then on are held back. */
    method Lock(during: seq<nat>) returns (oldMask: nat)
      requires layer.Valid()
      modifies layer, layer.table, layer.oldHandlers, layer.pendingArray
      ensures layer.Valid() && IsSigset(oldMask) && Elements(oldMask) == old(layer.View().mask)
      ensures layer.View() == Hold(Locked(old(layer.View())), ToSet(during))
    {
      hide Bit, Pow2, SignalLayer.ValidAt, SignalLayer.Handlers, Elements;
      layer.ViewIsProper();
      ghost var before := layer.View();
      var mask, r, received;
      mask := SigFillSet();
      r, oldMask, received := layer.ChangeMask(SIG_BLOCK, Some(mask));
      assert (before.mask + Elements(mask)) * before.handlers.Keys == before.handlers.Keys;
      ghost var locked := layer.View();
      assert locked == Locked(before);
      assert Hold(locked, ToSet(during[..0])) == locked;
      for i := 0 to |during|
        invariant layer.Valid() && layer.View() == Hold(locked, ToSet(during[..i]))
      {
        layer.ViewIsProper();
        assert ToSet(during[..i + 1]) == ToSet(during[..i]) + {during[i]};
        assert locked.pending + ToSet(during[..i + 1]) * locked.handlers.Keys
            == layer.View().pending + {during[i]} * locked.handlers.Keys;
        if during[i] < NSIG && layer.Accepts(during[i]) {
          var _ := layer.Raise(during[i]);
        }
      }
      assert during[..|during|] == during;
    }

    /** The part of sigaction that fills in the old action. */
    method Query(s: nat) returns (oact: Option<Action>)
      requires Valid() && s < NSIG && s != SIGABRT_COMPAT
      modifies layer`sigpipeHandler, layer.table, layer.oldHandlers
      ensures Valid() && layer.View() == old(layer.View())
      ensures oact.Some? <==> layer.Accepts(s)
      ensures forall tasks :: oact.Some? ==> oact.value == Queried(View(tasks), s)
    {
      hide Bit, Pow2, SignalLayer.Valid, SignalLayer.Handlers, Elements;
      layer.ViewIsProper();
      ghost var before := layer.View();
      if actionArray[s].handler != Default {
        oact := Some(actionArray[s]);
      } else {
        var handler := layer.Signal(s, Default);
        if handler == Error {
          return None;
        }
        var _ := layer.Signal(s, handler);
        assert before.handlers[s := Default][s := before.handlers[s]] == before.handlers;
        oact := Some(Action(handler, 3, 0));
      }
    }

    /** The part of sigaction that installs the new action. */
    method Establish(s: nat, act: Action, ghost tasks: seq<Task>) returns (ok: bool)
      requires Valid() && s < NSIG && s != SIGABRT_COMPAT && Usable(act) && act.handler != Error
      modifies actionArray, layer`sigpipeHandler, layer.table, layer.oldHandlers
      ensures Valid() && (ok <==> layer.Accepts(s))
      ensures View(tasks) == if s in old(View(tasks)).posix.handlers then Replaced(old(View(tasks)), s, act)
                             else old(View(tasks))
    {
      hide Bit, Pow2, SignalLayer.Valid, SignalLayer.Handlers, Elements;
      layer.ViewIsProper();
      var own := act.handler == Default || act.handler == Ignore;
      var was := layer.Signal(s, if own then act.handler else SigactionHandler);
      if was == Error {
        return false;
      }
      if own {
        actionArray[s] := actionArray[s].(handler := Default);
      } else {
        actionArray[s] := act;
      }
      ok := true;
    }

    /** What sigaction does between blocking all signals and restoring the mask. */
    method Transact(s: nat, act: Option<Action>, query: bool, ghost tasks: seq<Task>)
        returns (ok: bool, oact: Option<Action>)
      requires Valid() && s < NSIG && s != SIGABRT_COMPAT && (act.Some? || query)
      requires act.Some? ==> Usable(act.value) && act.value.handler != Error
      modifies actionArray, layer`sigpipeHandler, layer.table, layer.oldHandlers
      ensures Valid() && (ok <==> s in old(View(tasks)).posix.handlers)
      ensures oact == if query && ok then Some(Queried(old(View(tasks)), s)) else None
      ensures View(tasks) == if act.Some? && ok then Replaced(old(View(tasks)), s, act.value) else old(View(tasks))
    {
      hide Bit, Pow2, SignalLayer.Valid, SignalLayer.Handlers, Elements, Queried, Replaced;
      layer.ViewIsProper();
      oact := None;
      if query {
        ghost var before := View(tasks);
        oact := Query(s);
        assert View(tasks) == before;
        if oact.None? {
          return false, oact;
        }
      }
      if act.Some? {
        ok := Establish(s, act.value, tasks);
      } else {
        ok := true;
      }
    }

    method Unlock(oldMask: nat) returns (frame: Frame)
      requires layer.Valid() && IsSigset(oldMask) && Elements(oldMask) <= layer.View().handlers.Keys
      modifies layer, layer.table, layer.oldHandlers, layer.pendingArray
      ensures layer.Valid() && layer.Sound(frame)
      ensures layer.View() == Remask(old(layer.View()), Elements(oldMask))
      ensures Left(frame) == Ascending(old(layer.View()).pending - Elements(oldMask), 0)
    {
      hide Bit, Pow2, SignalLayer.ValidAt, SignalLayer.Handlers, Elements, Ascending;
      layer.ViewIsProper();
      ghost var before := layer.View();
      var r, was, received;
      r, was, received := layer.ChangeMask(SIG_SETMASK, Some(oldMask));
      assert Elements(oldMask) * before.handlers.Keys == Elements(oldMask);
      frame := Frame(received, 0);
      forall s | s in Released(received) ensures layer.Accepts(s) { assert s in before.handlers; }
    }

    /**
      sigaction, up to its last loop.  The signals in `during` arrive while it runs.  The mask is
      again what it was; what arrived and is not blocked is raised by the sigprocmask left in
      `frame`, and SigactionReturns says what the mask is when that is done.
     */
    method SigAction(sig: int, act: Option<Action>, query: bool, during: seq<nat>, ghost tasks: seq<Task>)
        returns (r: int, oact: Option<Action>, frame: Option<Frame>)
      requires Valid() && (act.Some? ==> Usable(act.value))
      modifies this, actionArray, layer, layer.table, layer.oldHandlers, layer.pendingArray
      ensures Valid() && (frame.Some? ==> layer.Sound(frame.value))
      ensures layer.View().mask == old(layer.View().mask)
      ensures r == if Fails(old(layer.View()), sig, act, query) then -1 else 0
      ensures oact == if query && r == 0 then Some(Queried(old(View(tasks)), Canonical(sig))) else None
      ensures View(if frame.None? then tasks else [Raising(Left(frame.value))] + tasks)
              == AfterSigaction(old(View(tasks)), sig, act, query, ToSet(during))
    {
      hide Bit, Pow2, SignalLayer.Valid, SignalLayer.Handlers, Elements;
      hide Queried, Replaced, Hold, Ascending, Locked, Left;
      oact, frame := None, None;
      layer.ViewIsProper();
      if sig < 0 || NSIG <= sig || sig == SIGKILL || sig == SIGSTOP || (act.Some? && act.value.handler == Error) {
        return -1, oact, frame;
      }
      var s: nat := if sig == SIGABRT_COMPAT then SIGABRT else sig;
      if act.None? && !query {
        return 0, oact, frame;
      }
      ghost var before := View(tasks);
      var oldMask := Lock(during);
      AroundLock(before, ToSet(during), s, act);
      var ok;
      ok, oact := Transact(s, act, query, tasks);
      var left := Unlock(oldMask);
      frame := Some(left);
      r := if ok then 0 else -1;
    }

    ghost predicate SoundActivity(a: Activity) {
      match a
      case Loop(frame) => layer.Sound(frame)
      case Handler(oldMask) => IsSigset(oldMask) && forall s :: s in Elements(oldMask) ==> layer.Accepts(s)
    }

    /** A signal reaches the process. */
    method Receive(sig: nat, called: Handler, stack: seq<Activity>, ghost before: Sys) returns (stack': seq<Activity>)
      requires Valid() && layer.Accepts(sig) && sig < NSIG
      requires sig in before.posix.handlers && called == Called(before.posix, sig)
      requires forall a :: a in stack ==> SoundActivity(a)
      requires View(Meanings(stack)) == before.(posix := Deliver(before.posix, sig))
      modifies this, actionArray, layer, layer.table, layer.oldHandlers, layer.pendingArray
      ensures Valid() && forall a :: a in stack' ==> SoundActivity(a)
      ensures View(Meanings(stack')) == Arrive(before, sig)
    {
      hide Bit, Pow2, SignalLayer.Valid, SignalLayer.View, Elements, Enter, Deliver;
      stack' := stack;
      if called == SigactionHandler {
        layer.ViewIsProper();
        var handler, oldMask := SigactionHandlerStarts(sig, Meanings(stack));
        if handler.Some? {
          MeaningsCons(Handler(oldMask), stack);
          stack' := [Handler(oldMask)] + stack;
        }
      }
    }

    /** One step of a run, on the stack of activities that are in progress. */
    method Perform(step: Move, stack: seq<Activity>) returns (stack': seq<Activity>)
      requires Valid() && Permitted(step) && forall a :: a in stack ==> SoundActivity(a)
      modifies this, actionArray, layer, layer.table, layer.oldHandlers, layer.pendingArray
      ensures Valid() && forall a :: a in stack' ==> SoundActivity(a)
      ensures View(Meanings(stack')) == After(old(View(Meanings(stack))), step)
    {
      hide Bit, Pow2, SignalLayer.Valid, SignalLayer.Handlers, SignalLayer.Pending, Elements;
      hide Deliver, Arrive, AfterSigaction, NewMask, Advance;
      layer.ViewIsProper();
      stack' := stack;
      ghost var before := View(Meanings(stack));
      if aborted {
        return;
      }
      match step {
        case Act(sig, act, query, during) =>
          var r, oact, frame := SigAction(sig, act, query, during, Meanings(stack));
          if frame.Some? {
            MeaningsCons(Loop(frame.value), stack);
            stack' := [Loop(frame.value)] + stack;
          }
        case Mask(operation, operand) =>
          stack' := Adjust(operation, operand, stack);
        case Incoming(sig) =>
          if sig < NSIG && layer.Accepts(sig) {
            var called := layer.Raise(sig);
            stack' := Receive(sig, called, stack, before);
          }
        case Proceed =>
          if |stack| > 0 {
            stack' := Continue(stack);
          }
      }
    }

    method Adjust(operation: int, operand: Option<nat>, stack: seq<Activity>) returns (stack': seq<Activity>)
      requires Valid() && (operand.Some? ==> IsSigset(operand.value)) && forall a :: a in stack ==> SoundActivity(a)
      modifies layer, layer.table, layer.oldHandlers, layer.pendingArray
      ensures Valid() && forall a :: a in stack' ==> SoundActivity(a)
      ensures View(Meanings(stack'))
              == Release(old(View(Meanings(stack))), NewMask(old(layer.View()), operation, Operand(operand)))
    {
      hide Bit, Pow2, SignalLayer.ValidAt, SignalLayer.Handlers, Elements, NewMask, Ascending;
      layer.ViewIsProper();
      ghost var before := layer.View();
      var r, was, received;
      r, was, received := layer.ChangeMask(operation, operand);
      var frame := Frame(received, 0);
      forall s | s in Released(received) ensures layer.Accepts(s) { assert s in before.handlers; }
      MeaningsCons(Loop(frame), stack);
      stack' := [Loop(frame)] + stack;
    }

    method Continue(stack: seq<Activity>) returns (stack': seq<Activity>)
      requires Valid() && |stack| > 0 && forall a :: a in stack ==> SoundActivity(a)
      modifies this, actionArray, layer, layer.table, layer.oldHandlers, layer.pendingArray
      ensures Valid() && forall a :: a in stack' ==> SoundActivity(a)
      ensures View(Meanings(stack')) == Advance(old(View(Meanings(stack))))
    {
      hide Bit, Pow2, SignalLayer.Valid, SignalLayer.Handlers, SignalLayer.Pending, Elements, Deliver, Arrive;
      layer.ViewIsProper();
      var rest := stack[1..];
      assert stack == [stack[0]] + rest;
      MeaningsCons(stack[0], rest);
      assert stack[0] in stack && SoundActivity(stack[0]);
      ghost var before := View(Meanings(stack));
      assert before.tasks[1..] == Meanings(rest);
      match stack[0] {
        case Loop(frame) =>
          var next, done, sig, called := layer.Resume(frame);
          if done {
            stack' := rest;
          } else {
            MeaningsCons(Loop(next), rest);
            assert Left(frame)[1..] == Left(next);
            ghost var left := [Raising(Left(next))] + Meanings(rest);
            stack' := Receive(sig, called, [Loop(next)] + rest, before.(tasks := left));
          }
        case Handler(oldMask) =>
          forall s | s in Elements(oldMask) ensures s in layer.View().handlers { assert layer.Accepts(s); }
          var frame := Unlock(oldMask);
          MeaningsCons(Loop(frame), rest);
          stack' := [Loop(frame)] + rest;
      }
    }

    /** A whole run: calls, arrivals, and the progress of whatever the calls and arrivals have started. */
    method Run(steps: seq<Move>) returns (stack: seq<Activity>)
      requires Valid() && forall i :: 0 <= i < |steps| ==> Permitted(steps[i])
      modifies this, actionArray, layer, layer.table, layer.oldHandlers, layer.pendingArray
      ensures Valid()
      ensures View(Meanings(stack)) == Outcome(old(View([])), steps)
    {
      hide Bit, Pow2, SignalLayer.Valid, SignalLayer.View, After;
      stack := [];
      ghost var start := View([]);
      assert Meanings([]) == [];
      for i := 0 to |steps|
        invariant Valid()
        invariant forall a :: a in stack ==> SoundActivity(a)
        invariant View(Meanings(stack)) == Outcome(start, steps[..i])
      {
        assert steps[..i + 1][..i] == steps[..i];
        stack := Perform(steps[i], stack);
      }
      assert steps[..|steps|] == steps;
    }
  }

  /** Installing an action commutes with blocking everything around it. */
  lemma AroundLock(w: Sys, during: set<nat>, s: nat, act: Option<Action>)
    requires Proper(w.posix) && s < |w.actions|
    ensures var l := w.(posix := Hold(Locked(w.posix), during));
            && l.posix.handlers == w.posix.handlers
            && (s in w.posix.handlers ==> Queried(l, s) == Queried(w, s))
            && var l' := if act.Some? && s in w.posix.handlers then Replaced(l, s, act.value) else l;
               var w' := if act.Some? && s in w.posix.handlers then Replaced(w, s, act.value) else w;
               var p := Hold(w'.posix, during);
               && l'.actions == w'.actions && l'.calls == w'.calls && l'.aborted == w'.aborted
               && p.mask == w.posix.mask <= l'.posix.handlers.Keys
               && Remask(l'.posix, w.posix.mask) == Remask(p, p.mask)
               && l'.posix.pending - w.posix.mask == p.pending - p.mask
  {
    assert w.posix.pending * w.posix.handlers.Keys == w.posix.pending;
  }

  /** Every signal blocked. */
  ghost function Locked(p: Posix): Posix {
    Remask(p, p.handlers.Keys)
  }

  ghost function ToSet(x: seq<nat>): set<nat> {
    set s | s in x
  }

  lemma InstallKeeps(p: Posix, s: nat, h: Handler)
    requires s in p.handlers && s != SIGABRT_COMPAT && s < NSIG
    ensures var q := Install(p, s, h).0;
            q.mask == p.mask && q.pending == p.pending && q.log == p.log && q.handlers.Keys == p.handlers.Keys
    ensures Proper(p) && Nameable(h) ==> Proper(Install(p, s, h).0)
  {}

  // ------------------------------------------------------ laws of whole runs

  lemma ReleaseIsSound(w: Sys, mask: set<nat>)
    requires SoundSys(w) && mask <= w.posix.handlers.Keys
    ensures SoundSys(Release(w, mask))
  {
    hide Ascending;
    AscendingElements(w.posix.pending - mask, 0);
  }

  lemma EnterIsSound(w: Sys, s: nat)
    requires SoundSys(w) && s in w.posix.handlers
    ensures SoundSys(Enter(w, s)) && Enter(w, s).posix.handlers.Keys == w.posix.handlers.Keys
  {
    hide Resets, Blocking, IsSigset, Install;
    var p := w.posix;
    InstallKeeps(p, s, SigactionHandler);
    if SIGABRT in p.handlers { InstallKeeps(p, SIGABRT, Default); }
  }

  lemma ArriveIsSound(w: Sys, s: nat)
    requires SoundSys(w) && s in w.posix.handlers
    ensures SoundSys(Arrive(w, s)) && Arrive(w, s).posix.handlers.Keys == w.posix.handlers.Keys
  {
    hide Enter, IsSigset, Deliver;
    DeliverKeeps(w.posix, s);
    EnterIsSound(w.(posix := Deliver(w.posix, s)), s);
  }

  lemma ActIsSound(w: Sys, sig: int, act: Option<Action>, query: bool, during: set<nat>)
    requires SoundSys(w) && (act.Some? ==> Usable(act.value))
    ensures SoundSys(AfterSigaction(w, sig, act, query, during))
    ensures AfterSigaction(w, sig, act, query, during).posix.handlers.Keys == w.posix.handlers.Keys
  {
    hide Ascending, IsSigset, Release;
    if InRange(sig) && !(act.Some? && act.value.handler == Error) && (act.Some? || query) {
      var s := Canonical(sig);
      var w' := if act.Some? && s in w.posix.handlers then Replaced(w, s, act.value) else w;
      assert w'.posix.handlers.Keys == w.posix.handlers.Keys;
      var p := Hold(w'.posix, during);
      AscendingElements(p.pending - p.mask, 0);
    }
  }

  lemma AfterIsSound(w: Sys, move: Move)
    requires SoundSys(w) && Permitted(move)
    ensures SoundSys(After(w, move)) && After(w, move).posix.handlers.Keys == w.posix.handlers.Keys
  {
    hide Arrive, Release, AfterSigaction, NewMask;
    if !w.aborted {
      match move
      case Act(sig, act, query, during) => ActIsSound(w, sig, act, query, ToSet(during));
      case Mask(operation, operand) =>
        NewMaskIsHandled(w.posix, operation, Operand(operand));
        ReleaseIsSound(w, NewMask(w.posix, operation, Operand(operand)));
        assert Release(w, NewMask(w.posix, operation, Operand(operand))).posix.handlers == w.posix.handlers by {
          ReleaseKeeps(w, NewMask(w.posix, operation, Operand(operand)));
        }
      case Incoming(s) => if s in w.posix.handlers && s < NSIG { ArriveIsSound(w, s); }
      case Proceed => if w.tasks != [] { AdvanceIsSound(w); }
    }
  }

  lemma ReleaseKeeps(w: Sys, mask: set<nat>)
    ensures var r := Release(w, mask);
            && r.posix.handlers == w.posix.handlers && r.actions == w.actions
            && r.calls == w.calls && r.aborted == w.aborted
  {}

  lemma AdvanceIsSound(w: Sys)
    requires SoundSys(w) && w.tasks != []
    ensures SoundSys(Advance(w)) && Advance(w).posix.handlers.Keys == w.posix.handlers.Keys
  {
    hide Arrive, Release, IsSigset;
    var rest := w.tasks[1..];
    assert w.tasks[0] in w.tasks && SoundTask(w.posix, w.tasks[0]);
    match w.tasks[0]
    case Handling(mask) =>
      ReleaseIsSound(w.(tasks := rest), mask);
      ReleaseKeeps(w.(tasks := rest), mask);
    case Raising(left) =>
      if left != [] {
        assert left[0] in left;
        ArriveIsSound(w.(tasks := [Raising(left[1..])] + rest), left[0]);
      }
  }

  /** The signal that a move lets through to the process, if any. */
  ghost function Receives(w: Sys, move: Move): Option<nat> {
    match move
    case Act(_, _, _, _) => None
    case Mask(_, _) => None
    case Incoming(s) => if s in w.posix.handlers then Some(s) else None
    case Proceed =>
      if w.tasks != [] && w.tasks[0].Raising? && w.tasks[0].left != [] then Some(w.tasks[0].left[0]) else None
  }

  /** An action with SA_RESETHAND is about to be reset, for the signal whose handler nobody uninstalls. */
  ghost predicate LosesSigpipe(w: Sys, s: nat)
    requires |w.actions| == NSIG && s in w.posix.handlers
  {
    s == SIGPIPE && Called(w.posix, s) == SigactionHandler && Resets(w.actions[SIGPIPE])
  }

  /** The effect of sigaction_handler. */
  lemma EnterEffect(w: Sys, s: nat)
    requires SoundSys(w) && s in w.posix.handlers && w.actions[s].handler != Default
    ensures var a, r := w.actions[s], Enter(w, s);
            && r.aborted == w.aborted
            && r.actions == (if Resets(a) then w.actions[s := a.(handler := Default)] else w.actions)
            && r.posix.handlers == (if Resets(a) then w.posix.handlers else w.posix.handlers[s := SigactionHandler])
            && r.posix.mask == (w.posix.mask + Blocking(a, s)) * w.posix.handlers.Keys
            && r.calls == w.calls + [Ran(s, a.handler)]
            && r.tasks == [Handling(w.posix.mask)] + w.tasks
  {
    hide Resets, Blocking, IsSigset;
  }

  /** The two tables agree after an arrival exactly if the arrival does not reset SIGPIPE. */
  lemma ArriveConsistency(w: Sys, s: nat)
    requires SoundSys(w) && Consistent(w) && s in w.posix.handlers && !w.aborted
    ensures |Arrive(w, s).actions| == NSIG && !Arrive(w, s).aborted
    ensures Consistent(Arrive(w, s)) <==> !LosesSigpipe(w, s)
  {
    hide Resets, IsSigset, Enter;
    DeliverKeeps(w.posix, s);
    var delivered := w.(posix := Deliver(w.posix, s));
    if Called(w.posix, s) == SigactionHandler {
      EnterEffect(delivered, s);
      if LosesSigpipe(w, s) {
        var w' := Arrive(w, s);
        assert w'.actions[SIGPIPE].handler == Default && w'.posix.handlers[SIGPIPE] == SigactionHandler;
      }
    }
  }

  lemma ActConsistency(w: Sys, sig: int, act: Option<Action>, query: bool, during: set<nat>)
    requires SoundSys(w) && Consistent(w) && (act.Some? ==> Usable(act.value))
    ensures Consistent(AfterSigaction(w, sig, act, query, during))
    ensures AfterSigaction(w, sig, act, query, during).aborted == w.aborted
  {
    hide Ascending, IsSigset;
  }

  /** What a single move does to the agreement of the tables; no move from an agreeing state aborts. */
  lemma AfterConsistency(w: Sys, move: Move)
    requires SoundSys(w) && Consistent(w) && Permitted(move) && !w.aborted
    ensures !After(w, move).aborted
    ensures Receives(w, move).Some? ==> Receives(w, move).value in w.posix.handlers
    ensures Consistent(After(w, move)) <==>
              !(Receives(w, move).Some? && LosesSigpipe(w, Receives(w, move).value))
  {
    hide Arrive, Release, AfterSigaction, NewMask, LosesSigpipe, IsSigset;
    match move
    case Act(sig, act, query, during) => ActConsistency(w, sig, act, query, ToSet(during));
    case Mask(operation, operand) => ReleaseKeeps(w, NewMask(w.posix, operation, Operand(operand)));
    case Incoming(s) => if s in w.posix.handlers { ArriveConsistency(w, s); }
    case Proceed => if w.tasks != [] { AdvanceConsistency(w); }
  }

  lemma AdvanceConsistency(w: Sys)
    requires SoundSys(w) && Consistent(w) && !w.aborted && w.tasks != []
    ensures var s := Receives(w, Proceed);
            && (s.Some? ==> s.value in w.posix.handlers)
            && !Advance(w).aborted
            && (Consistent(Advance(w)) <==> !(s.Some? && LosesSigpipe(w, s.value)))
  {
    hide Arrive, Release, IsSigset;
    var rest := w.tasks[1..];
    assert w.tasks[0] in w.tasks && SoundTask(w.posix, w.tasks[0]);
    match w.tasks[0]
    case Handling(mask) => ReleaseKeeps(w.(tasks := rest), mask);
    case Raising(left) =>
      if left != [] {
        assert left[0] in left;
        var w' := w.(tasks := [Raising(left[1..])] + rest);
        assert SoundSys(w');
        ArriveConsistency(w', left[0]);
      }
  }

  lemma {:induction false} OutcomeIsSound(w: Sys, moves: seq<Move>)
    requires SoundSys(w) && forall i :: 0 <= i < |moves| ==> Permitted(moves[i])
    ensures SoundSys(Outcome(w, moves)) && Outcome(w, moves).posix.handlers.Keys == w.posix.handlers.Keys
    decreases |moves|
  {
    hide After, SoundSys, Permitted;
    SoundLength(w);
    if moves != [] {
      OutcomeIsSound(w, moves[..|moves| - 1]);
      AfterIsSound(Outcome(w, moves[..|moves| - 1]), moves[|moves| - 1]);
    }
  }

  lemma SoundLength(w: Sys)
    requires SoundSys(w)
    ensures |w.actions| == NSIG && SIGPIPE in w.posix.handlers
  {}

  // ------------------------------------- when the handler never finds an empty entry

  ghost predicate SparesSigpipe(a: Action) {
    a.handler == Default || !Resets(a)
  }

  /** The move does not ask for SIGPIPE to be handled once only. */
  ghost predicate Spares(move: Move) {
    move.Act? && move.act.Some? && InRange(move.sig) && Canonical(move.sig) == SIGPIPE
    ==> SparesSigpipe(move.act.value) || move.act.value.handler == Ignore
  }

  lemma EnterSpares(w: Sys, s: nat)
    requires SoundSys(w) && s in w.posix.handlers && SparesSigpipe(w.actions[SIGPIPE])
    ensures |Enter(w, s).actions| == NSIG && SparesSigpipe(Enter(w, s).actions[SIGPIPE])
  {
    hide Resets, Blocking, IsSigset;
  }

  lemma AfterSpares(w: Sys, move: Move)
    requires SoundSys(w) && SparesSigpipe(w.actions[SIGPIPE]) && Spares(move)
    ensures SparesSigpipe(After(w, move).actions[SIGPIPE])
  {
    hide IsSigset, Resets, Enter, Release, NewMask, Ascending, Elements, Hold;
    if w.aborted {
    } else if move.Mask? {
      ReleaseKeeps(w, NewMask(w.posix, move.operation, Operand(move.operand)));
    } else if move.Incoming? {
      if move.signal in w.posix.handlers { ArriveSpares(w, move.signal); }
    } else if move.Proceed? && w.tasks != [] {
      var rest := w.tasks[1..];
      assert w.tasks[0] in w.tasks && SoundTask(w.posix, w.tasks[0]);
      match w.tasks[0]
      case Handling(mask) => ReleaseKeeps(w.(tasks := rest), mask);
      case Raising(left) =>
        if left != [] {
          assert left[0] in left;
          ArriveSpares(w.(tasks := [Raising(left[1..])] + rest), left[0]);
        }
    }
  }

  lemma ArriveSpares(w: Sys, s: nat)
    requires SoundSys(w) && s in w.posix.handlers && SparesSigpipe(w.actions[SIGPIPE])
    ensures |Arrive(w, s).actions| == NSIG && SparesSigpipe(Arrive(w, s).actions[SIGPIPE])
  {
    hide Resets, IsSigset, Enter, Deliver;
    DeliverKeeps(w.posix, s);
    EnterSpares(w.(posix := Deliver(w.posix, s)), s);
  }

  /**
    Over every run in which no program asks for SIGPIPE to be handled once only, the tables
    agree all the time, and sigaction_handler never aborts.
   */
  lemma {:induction false} NeverAborts(w: Sys, moves: seq<Move>)
    requires SoundSys(w) && Consistent(w) && !w.aborted && SparesSigpipe(w.actions[SIGPIPE])
    requires forall i :: 0 <= i < |moves| ==> Permitted(moves[i]) && Spares(moves[i])
    ensures Consistent(Outcome(w, moves)) && !Outcome(w, moves).aborted
    ensures SparesSigpipe(Outcome(w, moves).actions[SIGPIPE])
    decreases |moves|
  {
    hide After, SoundSys, Consistent, SparesSigpipe, Spares, Permitted, Receives;
    SoundLength(w);
    if moves != [] {
      var v, move := Outcome(w, moves[..|moves| - 1]), moves[|moves| - 1];
      NeverAborts(w, moves[..|moves| - 1]);
      OutcomeIsSound(w, moves[..|moves| - 1]);
      AfterConsistency(v, move);
      AfterSpares(v, move);
      if Receives(v, move).Some? { NoLoss(v, Receives(v, move).value); }
    }
  }

  /** The move lets a SIGPIPE through whose action is reset while its handler stays. */
  ghost predicate Loses(w: Sys, move: Move) {
    && |w.actions| == NSIG
    && var s := Receives(w, move);
       s.Some? && s.value in w.posix.handlers && LosesSigpipe(w, s.value)
  }

  /** The tables agree at the start of a run and after every move of it. */
  ghost predicate Agrees(w: Sys, moves: seq<Move>)
    requires |w.actions| == NSIG
  {
    forall k :: 0 <= k <= |moves| ==> Consistent(Outcome(w, moves[..k]))
  }

  ghost predicate LosesNone(w: Sys, moves: seq<Move>)
    requires |w.actions| == NSIG
  {
    forall k :: 0 <= k < |moves| ==> !Loses(Outcome(w, moves[..k]), moves[k])
  }

  lemma PrefixLaws(w: Sys, moves: seq<Move>)
    requires |w.actions| == NSIG && moves != []
    ensures var before, last := moves[..|moves| - 1], moves[|moves| - 1];
            && (Agrees(w, moves) <==> Agrees(w, before) && Consistent(Outcome(w, moves)))
            && (LosesNone(w, moves) <==> LosesNone(w, before) && !Loses(Outcome(w, before), last))
            && (Agrees(w, before) ==> Consistent(Outcome(w, before)))
  {
    hide Outcome, Consistent, Loses;
    var n := |moves| - 1;
    assert forall k :: 0 <= k <= n ==> moves[..n][..k] == moves[..k];
    assert moves[..n + 1] == moves;
  }

  /**
    Exactly when the tables agree all through a run: no move of it loses a SIGPIPE action.  And
    as long as they agree nothing aborts.
   */
  lemma {:induction false} AgreeThroughout(w: Sys, moves: seq<Move>)
    requires SoundSys(w) && Consistent(w) && !w.aborted
    requires forall i :: 0 <= i < |moves| ==> Permitted(moves[i])
    ensures Agrees(w, moves) <==> LosesNone(w, moves)
    ensures moves == [] || Agrees(w, moves[..|moves| - 1]) ==> !Outcome(w, moves).aborted
    decreases |moves|
  {
    hide After, SoundSys, Consistent, Permitted, Receives, LosesSigpipe, Agrees, LosesNone;
    SoundLength(w);
    if moves == [] {
      NothingAgrees(w);
    } else {
      var before, v := moves[..|moves| - 1], Outcome(w, moves[..|moves| - 1]);
      PrefixLaws(w, moves);
      AgreeThroughout(w, before);
      OutcomeIsSound(w, before);
      SoundLength(v);
      if Agrees(w, before) {
        if before != [] { PrefixLaws(w, before); }
        AfterConsistency(v, moves[|moves| - 1]);
      }
    }
  }

  lemma NothingAgrees(w: Sys)
    requires |w.actions| == NSIG
    ensures (Agrees(w, []) <==> Consistent(w)) && LosesNone(w, [])
  {
    hide Consistent;
    var none: seq<Move> := [];
    assert none[..0] == none;
    OutcomeNone(w);
  }

  lemma NoLoss(w: Sys, s: nat)
    requires SoundSys(w) && Consistent(w) && s in w.posix.handlers && SparesSigpipe(w.actions[SIGPIPE])
    ensures !LosesSigpipe(w, s)
  {
    hide Resets, IsSigset;
  }

  /**
    The opposite case, from every agreeing state in which SIGPIPE is not blocked: an action
    with SA_RESETHAND handles the first SIGPIPE, and the second one aborts the process
    instead of meeting the default action.
   */
  lemma SecondSigpipeAborts(w: Sys, act: Action)
    requires SoundSys(w) && !w.aborted && SIGPIPE !in w.posix.mask
    requires Usable(act) && act.handler.User? && Resets(act)
    ensures Outcome(w, [Act(SIGPIPE, Some(act), false, []), Incoming(SIGPIPE), Proceed, Incoming(SIGPIPE)]).aborted
  {
    hide Resets, IsSigset, SoundSys, After;
    SoundLength(w);
    var m0, m1 := Act(SIGPIPE, Some(act), false, []), Incoming(SIGPIPE);
    assert [m0, m1, Proceed, m1][..3] == [m0, m1, Proceed];
    assert [m0, m1, Proceed][..2] == [m0, m1];
    assert [m0, m1][..1] == [m0];
    assert [m0][..0] == [];
    var w1 := After(w, m0);
    AfterIsSound(w, m0);
    ActOnSigpipe(w, act);
    var w2 := After(w1, m1);
    AfterIsSound(w1, m1);
    FirstSigpipe(w1);
    var w3 := After(w2, Proceed);
    HandlerReturns(w2, w1.posix.mask);
    assert Outcome(w, [m0]) == w1;
    assert Outcome(w, [m0, m1]) == w2;
    assert Outcome(w, [m0, m1, Proceed]) == w3;
    LostSigpipe(w3);
  }

  lemma ActOnSigpipe(w: Sys, act: Action)
    requires SoundSys(w) && !w.aborted && Usable(act) && act.handler.User?
    ensures var r := After(w, Act(SIGPIPE, Some(act), false, []));
            && |r.actions| == NSIG && r.actions[SIGPIPE] == act && !r.aborted
            && SIGPIPE in r.posix.handlers && r.posix.handlers[SIGPIPE] == SigactionHandler
            && r.posix.mask == w.posix.mask
  {
    hide Resets, IsSigset, Ascending;
  }

  lemma FirstSigpipe(w: Sys)
    requires SoundSys(w) && !w.aborted && SIGPIPE !in w.posix.mask
    requires w.posix.handlers[SIGPIPE] == SigactionHandler
    requires w.actions[SIGPIPE].handler != Default && Resets(w.actions[SIGPIPE])
    ensures var r := After(w, Incoming(SIGPIPE));
            && |r.actions| == NSIG && r.actions[SIGPIPE].handler == Default && !r.aborted
            && r.posix.handlers == w.posix.handlers
            && r.tasks == [Handling(w.posix.mask)] + w.tasks
  {
    hide Resets, IsSigset, Enter, Deliver;
    DeliverKeeps(w.posix, SIGPIPE);
    assert Deliver(w.posix, SIGPIPE).handlers == w.posix.handlers by { SigpipeKeepsHandlers(w.posix); }
    EnterEffect(w.(posix := Deliver(w.posix, SIGPIPE)), SIGPIPE);
  }

  lemma SigpipeKeepsHandlers(p: Posix)
    requires SIGPIPE in p.handlers
    ensures Deliver(p, SIGPIPE).handlers == p.handlers
  {}

  lemma LostSigpipe(w: Sys)
    requires |w.actions| == NSIG && SIGPIPE in w.posix.handlers && SIGPIPE !in w.posix.mask
    requires w.posix.handlers[SIGPIPE] == SigactionHandler && w.actions[SIGPIPE].handler == Default
    ensures After(w, Incoming(SIGPIPE)).aborted
  {}

  lemma HandlerReturns(w: Sys, mask: set<nat>)
    requires |w.actions| == NSIG && !w.aborted && w.tasks != [] && w.tasks[0] == Handling(mask)
    ensures var r := After(w, Proceed);
            && r.posix.mask == mask && r.posix.handlers == w.posix.handlers
            && r.actions == w.actions && r.calls == w.calls && !r.aborted
  {
    hide Ascending;
  }

  // ------------------------------------------------ what sigaction reports later

  /** A call without a new action changes no handler, no action and not the mask. */
  lemma PureQuery(w: Sys, sig: int, query: bool, during: set<nat>)
    requires SoundSys(w)
    ensures var r := AfterSigaction(w, sig, None, query, during);
            && r.posix.handlers == w.posix.handlers && r.actions == w.actions && r.calls == w.calls
            && r.posix.mask == w.posix.mask && w.posix.pending <= r.posix.pending
  {
    hide IsSigset, Ascending;
  }

  /** The move installs an action for s. */
  ghost predicate Rewrites(move: Move, s: nat) {
    move.Act? && move.act.Some? && InRange(move.sig) && Canonical(move.sig) == s
  }

  /** An entry and the number of times its handler has run, as one move can change them. */
  ghost predicate Follows(a: Action, n: nat, b: Action, m: nat) {
    || (b == a && (m == n || (m == n + 1 && !Resets(a) && a.handler != Default)))
    || (Resets(a) && a.handler != Default && b == a.(handler := Default) && m == n + 1)
  }

  lemma CountCons(s: nat, log: seq<Event>, e: Event)
    ensures Count(s, log + [e]) == Count(s, log) + if EventSignal(e) == s then 1 else 0
  {
    assert (log + [e])[..|log|] == log;
  }

  lemma ArriveFollows(w: Sys, s: nat, t: nat)
    requires SoundSys(w) && s < NSIG && t in w.posix.handlers
    ensures |Arrive(w, t).actions| == NSIG
    ensures Follows(w.actions[s], Count(s, w.calls), Arrive(w, t).actions[s], Count(s, Arrive(w, t).calls))
  {
    hide Resets, IsSigset, Count, Deliver, Blocking, Install;
    CountCons(s, w.calls, Ran(t, w.actions[t].handler));
  }

  lemma AfterFollows(w: Sys, s: nat, move: Move)
    requires SoundSys(w) && s < NSIG && !Rewrites(move, s)
    ensures Follows(w.actions[s], Count(s, w.calls), After(w, move).actions[s], Count(s, After(w, move).calls))
  {
    hide IsSigset, Resets, Arrive, Release, NewMask, Ascending, Elements, Hold, Count;
    if w.aborted {
    } else if move.Mask? {
      ReleaseKeeps(w, NewMask(w.posix, move.operation, Operand(move.operand)));
    } else if move.Incoming? {
      if move.signal in w.posix.handlers { ArriveFollows(w, s, move.signal); }
    } else if move.Proceed? && w.tasks != [] {
      var rest := w.tasks[1..];
      assert w.tasks[0] in w.tasks && SoundTask(w.posix, w.tasks[0]);
      match w.tasks[0]
      case Handling(mask) => ReleaseKeeps(w.(tasks := rest), mask);
      case Raising(left) =>
        if left != [] {
          assert left[0] in left;
          ArriveFollows(w.(tasks := [Raising(left[1..])] + rest), s, left[0]);
        }
    }
  }

  /**
    As long as no other action is installed for a signal, its entry is what was installed,
    and is reported as such, until the first run of a handler installed with SA_RESETHAND;
    from then on there is no entry.
   */
  lemma {:induction false} InstalledIsReported(w: Sys, s: nat, moves: seq<Move>)
    requires SoundSys(w) && s in w.posix.handlers && w.actions[s].handler != Default
    requires forall i :: 0 <= i < |moves| ==> Permitted(moves[i]) && !Rewrites(moves[i], s)
    ensures Count(s, w.calls) <= Count(s, Outcome(w, moves).calls)
    ensures s in Outcome(w, moves).posix.handlers
    ensures if Resets(w.actions[s]) && Count(s, w.calls) < Count(s, Outcome(w, moves).calls)
            then Outcome(w, moves).actions[s].handler == Default
            else Outcome(w, moves).actions[s] == w.actions[s] == Queried(Outcome(w, moves), s)
    decreases |moves|
  {
    hide After, Permitted, Rewrites, Resets, Count, IsSigset;
    if moves != [] {
      var before, last := moves[..|moves| - 1], moves[|moves| - 1];
      InstalledIsReported(w, s, before);
      OutcomeIsSound(w, moves);
      OutcomeIsSound(w, before);
      AfterFollows(Outcome(w, before), s, last);
    }
  }

  // ------------------------------------------- what the flags and the mask mean

  lemma FlagBits(a: Action)
    ensures Resets(a) <==> a.flags % 2 == 1
    ensures DoesNotDefer(a) <==> a.flags / 2 % 2 == 1
  {
    assert Bit(a.flags, 1) == Bit(a.flags / 2, 0);
  }

  /**
    An arrival that sigaction_handler handles: it blocks the mask of the action, and the signal
    itself unless SA_NODEFER is set, on top of what was blocked; with SA_RESETHAND the entry of
    the table is cleared, and otherwise the handler stays installed.
   */
  lemma HandlerStarts(w: Sys, s: nat)
    requires SoundSys(w) && s in w.posix.handlers && s !in w.posix.mask && !w.aborted
    requires w.posix.handlers[s] == SigactionHandler && w.actions[s].handler != Default
    ensures var a, r := w.actions[s], Arrive(w, s);
            && (forall t :: t in r.posix.mask <==>
                              && t in w.posix.handlers
                              && (t in w.posix.mask || t in Elements(a.mask) || (t == s && a.flags / 2 % 2 == 0)))
            && r.calls == w.calls + [Ran(s, a.handler)] && r.tasks == [Handling(w.posix.mask)] + w.tasks && !r.aborted
            && (a.flags % 2 == 1 ==> r.actions == w.actions[s := a.(handler := Default)]
                                     && r.posix.handlers[s] == (if s == 13 then SigactionHandler else Default))
            && (a.flags % 2 == 0 ==> r.actions == w.actions && r.posix.handlers == w.posix.handlers)
            && forall t :: t in w.posix.handlers && t != s ==> r.posix.handlers[t] == w.posix.handlers[t]
  {
    hide Elements, IsSigset, Bit;
    DeliverKeeps(w.posix, s);
    FlagBits(w.actions[s]);
    EnterEffect(w.(posix := Deliver(w.posix, s)), s);
  }

  /** An arrival for which the table has no entry ends the process, after SIGABRT has got its default action. */
  lemma EmptyEntryAborts(w: Sys, s: nat)
    requires SoundSys(w) && s in w.posix.handlers && s !in w.posix.mask && !w.aborted
    requires w.posix.handlers[s] == SigactionHandler && w.actions[s].handler == Default
    ensures var r := Arrive(w, s);
            && r.aborted && r.actions == w.actions && r.calls == w.calls && r.tasks == w.tasks
            && r.posix.mask == w.posix.mask && (s == 22 ==> r.posix.handlers[22] == Default)
  {}

  /** The move asks for s not to be blocked. */
  ghost predicate Unblocks(move: Move, s: nat) {
    && move.Mask? && move.operand.Some?
    && var x := Elements(move.operand.value);
       (move.operation == SIG_UNBLOCK && s in x) || (move.operation == SIG_SETMASK && s !in x)
  }

  /** s is blocked, and what has been entered since there were n tasks returns to masks that block it. */
  ghost predicate Holds(w: Sys, s: nat, n: nat) {
    && s in w.posix.mask && n <= |w.tasks|
    && forall i :: 0 <= i < |w.tasks| - n && w.tasks[i].Handling? ==> s in w.tasks[i].restore
  }

  lemma HoldsPush(t: Task, w: Sys, s: nat, n: nat)
    requires Holds(w, s, n) && (t.Handling? ==> s in t.restore)
    ensures Holds(w.(tasks := [t] + w.tasks), s, n)
  {
    assert forall i :: 0 < i < |w.tasks| + 1 ==> ([t] + w.tasks)[i] == w.tasks[i - 1];
  }

  lemma HoldsPop(w: Sys, s: nat, n: nat)
    requires Holds(w, s, n) && n < |w.tasks|
    ensures Holds(w.(tasks := w.tasks[1..]), s, n)
    ensures w.tasks[0].Handling? ==> s in w.tasks[0].restore
  {
    assert forall i :: 0 <= i < |w.tasks| - 1 ==> w.tasks[1..][i] == w.tasks[i + 1];
  }

  /** Nothing has been seen of s, and nothing of it has been lost. */
  ghost predicate Quiet(w: Sys, r: Sys, s: nat) {
    && Count(s, r.calls) == Count(s, w.calls) && Count(s, r.posix.log) == Count(s, w.posix.log)
    && (s in w.posix.pending ==> s in r.posix.pending)
  }

  lemma ArriveHolds(w: Sys, t: nat, s: nat, n: nat)
    requires SoundSys(w) && t in w.posix.handlers && s in w.posix.handlers && Holds(w, s, n)
    ensures Holds(Arrive(w, t), s, n) && Quiet(w, Arrive(w, t), s)
    ensures s == t ==> s in Arrive(w, t).posix.pending
  {
    hide IsSigset, Resets, Elements, Count, Holds, SoundTask;
    HoldsBlocked(w, s, n);
    if t in w.posix.mask {
      HoldsSame(w, Arrive(w, t), s, n);
    } else {
      CountCons(s, w.posix.log, Terminated(t));
      CountCons(s, w.posix.log, Ran(t, w.posix.handlers[t]));
      if Called(w.posix, t) == SigactionHandler {
        EnterHolds(w.(posix := Deliver(w.posix, t)), w, t, s, n);
      } else {
        HoldsSame(w, Arrive(w, t), s, n);
      }
    }
  }

  lemma HoldsBlocked(w: Sys, s: nat, n: nat)
    requires Holds(w, s, n)
    ensures s in w.posix.mask
  {}

  lemma HoldsSame(w: Sys, r: Sys, s: nat, n: nat)
    requires Holds(w, s, n) && r.tasks == w.tasks && s in r.posix.mask
    ensures Holds(r, s, n)
  {}

  lemma EnterHolds(w: Sys, v: Sys, t: nat, s: nat, n: nat)
    requires |w.actions| == NSIG && t < NSIG && s != t && s in w.posix.handlers && w.posix.mask == v.posix.mask
    requires Holds(v, s, n) && w.tasks == v.tasks && w.calls == v.calls
    ensures Holds(Enter(w, t), s, n) && Count(s, Enter(w, t).calls) == Count(s, w.calls)
    ensures s in w.posix.pending ==> s in Enter(w, t).posix.pending
    ensures Enter(w, t).posix.log == w.posix.log
  {
    hide Resets, Elements, Blocking, Count;
    CountCons(s, w.calls, Ran(t, w.actions[t].handler));
    HoldsSame(v, w, s, n);
    if w.actions[t].handler != Default {
      HoldsPush(Handling(w.posix.mask), w, s, n);
      HoldsSame(w.(tasks := [Handling(w.posix.mask)] + w.tasks), Enter(w, t), s, n);
    }
  }

  lemma ReleaseHolds(w: Sys, mask: set<nat>, s: nat, n: nat)
    requires Holds(w, s, n) && s in mask
    ensures Holds(Release(w, mask), s, n) && Quiet(w, Release(w, mask), s)
  {
    hide Ascending, Count;
    HoldsPush(Raising(Ascending(w.posix.pending - mask, 0)), w, s, n);
  }

  lemma AfterHolds(w: Sys, move: Move, s: nat, n: nat)
    requires SoundSys(w) && s in w.posix.handlers && Holds(w, s, n)
    requires !Unblocks(move, s) && (move.Proceed? ==> n < |w.tasks|)
    ensures Holds(After(w, move), s, n) && Quiet(w, After(w, move), s)
    ensures move == Incoming(s) && !w.aborted ==> s in After(w, move).posix.pending
  {
    hide Arrive, Release, AfterSigaction, NewMask, Elements, Holds, Count;
    if !w.aborted {
      match move
      case Act(sig, act, query, during) => ActHolds(w, sig, act, query, ToSet(during), s, n);
      case Mask(operation, operand) =>
        var world := World(w.posix, []);
        MaskAfter(world, operation, operand, s);
        HoldsBlocked(w, s, n);
        ReleaseHolds(w, NewMask(w.posix, operation, Operand(operand)), s, n);
      case Incoming(t) => if t in w.posix.handlers { ArriveHolds(w, t, s, n); }
      case Proceed => AdvanceHolds(w, s, n);
    }
  }

  lemma ActHolds(w: Sys, sig: int, act: Option<Action>, query: bool, during: set<nat>, s: nat, n: nat)
    requires SoundSys(w) && s in w.posix.handlers && Holds(w, s, n)
    ensures Holds(AfterSigaction(w, sig, act, query, during), s, n)
    ensures Quiet(w, AfterSigaction(w, sig, act, query, during), s)
  {
    hide Ascending, Count, IsSigset;
    var known := act.Some? && InRange(sig) && Canonical(sig) in w.posix.handlers;
    var w' := if known then Replaced(w, Canonical(sig), act.value) else w;
    var p := Hold(w'.posix, during);
    HoldsPush(Raising(Ascending(p.pending - p.mask, 0)), w, s, n);
  }

  lemma AdvanceHolds(w: Sys, s: nat, n: nat)
    requires SoundSys(w) && s in w.posix.handlers && Holds(w, s, n) && n < |w.tasks|
    ensures Holds(Advance(w), s, n) && Quiet(w, Advance(w), s)
  {
    hide Arrive, Release, IsSigset, Holds, Count;
    var rest := w.tasks[1..];
    assert w.tasks[0] in w.tasks && SoundTask(w.posix, w.tasks[0]);
    HoldsPop(w, s, n);
    match w.tasks[0]
    case Handling(mask) => ReleaseHolds(w.(tasks := rest), mask, s, n);
    case Raising(left) =>
      if left != [] {
        assert left[0] in left;
        HoldsPush(Raising(left[1..]), w.(tasks := rest), s, n);
        ArriveHolds(w.(tasks := [Raising(left[1..])] + rest), left[0], s, n);
      }
  }

  /**
    A blocked signal stays unseen over every run that does not end what was in progress and in
    which no move unblocks it, whatever other handlers start and return; it becomes pending.
   */
  lemma {:induction false} StaysBlocked(w: Sys, s: nat, n: nat, moves: seq<Move>)
    requires SoundSys(w) && s in w.posix.handlers && Holds(w, s, n)
    requires forall i :: 0 <= i < |moves| ==> Permitted(moves[i]) && !Unblocks(moves[i], s)
    requires forall k :: 0 <= k < |moves| && moves[k].Proceed? ==> n < |Outcome(w, moves[..k]).tasks|
    ensures Holds(Outcome(w, moves), s, n) && Quiet(w, Outcome(w, moves), s)
    ensures Incoming(s) in moves && !Outcome(w, moves).aborted ==> s in Outcome(w, moves).posix.pending
    decreases |moves|
  {
    hide After, SoundSys, Holds, Permitted, Unblocks, Count;
    SoundLength(w);
    if moves != [] {
      var m := |moves| - 1;
      var before, last, v := moves[..m], moves[m], Outcome(w, moves[..m]);
      assert forall k :: 0 <= k < m ==> before[..k] == moves[..k] && before[k] == moves[k];
      StaysBlocked(w, s, n, before);
      OutcomeIsSound(w, before);
      AfterHolds(v, last, s, n);
      assert moves == before + [last];
      if v.aborted { AbortsForGood(v, last); }
    }
  }

  lemma AbortsForGood(w: Sys, move: Move)
    requires |w.actions| == NSIG && w.aborted
    ensures After(w, move) == w
  {}

  /**
    Without SA_NODEFER a handler is not entered again: until it returns or somebody unblocks its
    signal, further arrivals of the signal only become pending.
   */
  lemma NotReentered(w: Sys, s: nat, moves: seq<Move>)
    requires SoundSys(w) && s in w.posix.handlers && s !in w.posix.mask && !w.aborted
    requires w.posix.handlers[s] == SigactionHandler && w.actions[s].handler != Default
    requires w.actions[s].flags / 2 % 2 == 0 && |Arrive(w, s).actions| == NSIG
    requires forall i :: 0 <= i < |moves| ==> Permitted(moves[i]) && !Unblocks(moves[i], s)
    requires forall k :: 0 <= k < |moves| && moves[k].Proceed? ==>
                           |w.tasks| + 1 < |Outcome(Arrive(w, s), moves[..k]).tasks|
    ensures var r := Outcome(Arrive(w, s), moves);
            && Count(s, r.calls) == Count(s, w.calls) + 1 && s in r.posix.mask
            && (Incoming(s) in moves && !r.aborted ==> s in r.posix.pending)
  {
    hide Outcome, Arrive, Unblocks, Permitted, Count, Elements;
    HandlerStarts(w, s);
    ArriveIsSound(w, s);
    CountCons(s, w.calls, Ran(s, w.actions[s].handler));
    StaysBlocked(Arrive(w, s), s, |w.tasks| + 1, moves);
  }

  /** With SA_NODEFER it is: the signal is not blocked by its own handler. */
  lemma Reentered(w: Sys, s: nat)
    requires SoundSys(w) && s in w.posix.handlers && s !in w.posix.mask && !w.aborted
    requires w.posix.handlers[s] == SigactionHandler && w.actions[s].handler != Default
    requires w.actions[s].flags / 2 % 2 == 1 && w.actions[s].flags % 2 == 0 && s !in Elements(w.actions[s].mask)
    ensures var h := w.actions[s].handler;
            Outcome(w, [Incoming(s), Incoming(s)]).calls == w.calls + [Ran(s, h), Ran(s, h)]
  {
    hide Arrive, Elements;
    var m := Incoming(s);
    assert [m, m][..1] == [m] && [m][..0] == [];
    assert Outcome(w, [m]) == After(w, m);
    HandlerStarts(w, s);
    ArriveIsSound(w, s);
    HandlerStarts(Arrive(w, s), s);
  }

  // ------------------------------------------------- what is installed and reported

  /** A signal without an entry is reported with both flags, since that is how `signal` behaves. */
  lemma QueryReports(w: Sys, s: nat)
    requires SoundSys(w) && s in w.posix.handlers
    ensures var r := Queried(w, s);
            && (w.actions[s].handler != Default ==> r == w.actions[s])
            && (w.actions[s].handler == Default ==>
                  && r.handler == w.posix.handlers[s]
                  && r.flags % 2 == 1 && r.flags / 2 % 2 == 1 && r.flags < 4 && Elements(r.mask) == {})
  {
    ElementsZero();
  }

  /** What sigaction installs is what the next sigaction reports, and the other signals are as before. */
  lemma ActIsReported(w: Sys, sig: int, a: Action, query: bool, during: set<nat>)
    requires SoundSys(w) && Usable(a) && a.handler != Error
    requires 0 <= sig < NSIG && (if sig == 6 then 22 else sig) in w.posix.handlers
    ensures var s := if sig == 6 then 22 else sig;
            var r := AfterSigaction(w, sig, Some(a), query, during);
            && r.posix.handlers.Keys == w.posix.handlers.Keys && |r.actions| == NSIG
            && (if a.handler == Default || a.handler == Ignore then
                  Queried(r, s).handler == a.handler && Queried(r, s).flags == 3 && Elements(Queried(r, s).mask) == {}
                else Queried(r, s) == a && r.posix.handlers[s] == SigactionHandler)
            && forall t :: t in w.posix.handlers && t != s ==> Queried(r, t) == Queried(w, t)
  {
    hide Ascending, IsSigset, Elements;
    ElementsZero();
  }

  /** A sigaction that fails changes neither a handler nor an action; it fails exactly in these cases. */
  lemma FailureChangesNothing(w: Sys, sig: int, act: Option<Action>, query: bool, during: set<nat>)
    requires SoundSys(w)
    ensures Fails(w.posix, sig, act, query) <==>
              || !(0 <= sig < NSIG)
              || (act.Some? && act.value.handler == Error)
              || ((act.Some? || query) && (if sig == 6 then 22 else sig) !in w.posix.handlers)
    ensures var r := AfterSigaction(w, sig, act, query, during);
            && (Fails(w.posix, sig, act, query) ==> r.posix.handlers == w.posix.handlers && r.actions == w.actions)
            && r.posix.mask == w.posix.mask && r.calls == w.calls && r.posix.log == w.posix.log
            && r.aborted == w.aborted
  {
    hide Ascending, IsSigset;
  }

  /** Signals that arrive while sigaction works are held: blocked ones are pending, the others are raised next. */
  lemma ArrivalsAreHeld(w: Sys, sig: int, act: Option<Action>, query: bool, during: set<nat>, t: nat)
    requires SoundSys(w) && 0 <= sig < NSIG && (act.Some? ==> act.value.handler != Error) && (act.Some? || query)
    requires t in during && t in w.posix.handlers
    ensures var r := AfterSigaction(w, sig, act, query, during);
            && r.tasks != [] && r.tasks[0].Raising? && r.tasks[1..] == w.tasks
            && (t in w.posix.mask ==> t in r.posix.pending)
            && (t !in w.posix.mask ==> t in r.tasks[0].left)
  {
    hide Ascending, IsSigset;
    var s := Canonical(sig);
    var w' := if act.Some? && s in w.posix.handlers then Replaced(w, s, act.value) else w;
    var p := Hold(w'.posix, during);
    AscendingElements(p.pending - p.mask, 0);
  }

  // ------------------------------------------------- the mask over whole runs

  /** The mask when all but the last n tasks are done, if they are done one after the other. */
  ghost function Outer(mask: set<nat>, tasks: seq<Task>, n: nat): set<nat>
    decreases |tasks|
  {
    if |tasks| <= n then mask
    else
      match tasks[0]
      case Raising(_) => Outer(mask, tasks[1..], n)
      case Handling(restore) => Outer(restore, tasks[1..], n)
  }

  /** A handler is running that has been entered since there were n tasks. */
  ghost predicate InHandler(tasks: seq<Task>, n: nat) {
    exists i :: 0 <= i < |tasks| - n && tasks[i].Handling?
  }

  /** The move belongs to what has started since there were n tasks; only handlers change the mask. */
  ghost predicate Nested(w: Sys, move: Move, n: nat) {
    && (move.Proceed? ==> n < |w.tasks|)
    && (move.Mask? ==> InHandler(w.tasks, n))
  }

  ghost predicate AllNested(w: Sys, moves: seq<Move>, n: nat)
    requires |w.actions| == NSIG
  {
    forall k :: 0 <= k < |moves| ==> Nested(Outcome(w, moves[..k]), moves[k], n)
  }

  /** The last tasks of w are those of v, and when the others are done the mask is that of v. */
  ghost predicate Above(w: Sys, v: Sys) {
    var n := |v.tasks|;
    n <= |w.tasks| && w.tasks[|w.tasks| - n..] == v.tasks && Outer(w.posix.mask, w.tasks, n) == v.posix.mask
  }

  /** With a handler on the way the mask of the moment does not matter. */
  lemma {:induction false} OuterInHandler(a: set<nat>, b: set<nat>, tasks: seq<Task>, n: nat)
    requires InHandler(tasks, n)
    ensures Outer(a, tasks, n) == Outer(b, tasks, n)
    decreases |tasks|
  {
    if tasks[0].Raising? {
      var i :| 0 <= i < |tasks| - n && tasks[i].Handling?;
      assert tasks[1..][i - 1].Handling?;
      OuterInHandler(a, b, tasks[1..], n);
    }
  }

  /** One more task on top. */
  lemma OuterPush(mask: set<nat>, t: Task, tasks: seq<Task>, v: Sys)
    requires |v.tasks| <= |tasks| && tasks[|tasks| - |v.tasks|..] == v.tasks
    ensures var all := [t] + tasks;
            && all[|all| - |v.tasks|..] == v.tasks
            && Outer(mask, all, |v.tasks|) == Outer(if t.Handling? then t.restore else mask, tasks, |v.tasks|)
  {
    assert ([t] + tasks)[1..] == tasks;
  }

  lemma DeliverKeepsMask(p: Posix, s: nat)
    requires s in p.handlers
    ensures Deliver(p, s).mask == p.mask
  {}

  lemma EnterAbove(w: Sys, s: nat, v: Sys)
    requires s < |w.actions| && Above(w, v)
    ensures Above(Enter(w, s), v)
  {
    hide Resets, Blocking, Outer;
    if w.actions[s].handler != Default {
      OuterPush(Enter(w, s).posix.mask, Handling(w.posix.mask), w.tasks, v);
    }
  }

  lemma ArriveAbove(w: Sys, s: nat, v: Sys)
    requires s in w.posix.handlers && s < |w.actions| && Above(w, v)
    ensures Above(Arrive(w, s), v)
  {
    hide Enter, Deliver, Outer;
    DeliverKeepsMask(w.posix, s);
    var delivered := w.(posix := Deliver(w.posix, s));
    assert Above(delivered, v);
    EnterAbove(delivered, s, v);
  }

  lemma ReleaseAbove(w: Sys, mask: set<nat>, v: Sys)
    requires |v.tasks| <= |w.tasks| && w.tasks[|w.tasks| - |v.tasks|..] == v.tasks
    requires Outer(mask, w.tasks, |v.tasks|) == v.posix.mask
    ensures Above(Release(w, mask), v)
  {
    hide Ascending, Outer;
    OuterPush(mask, Raising(Ascending(w.posix.pending - mask, 0)), w.tasks, v);
  }

  lemma AdvanceAbove(w: Sys, v: Sys)
    requires |w.actions| == NSIG && |v.tasks| < |w.tasks| && Above(w, v)
    ensures Above(Advance(w), v)
  {
    hide Arrive, Release;
    var rest := w.tasks[1..];
    assert rest[|rest| - |v.tasks|..] == v.tasks;
    match w.tasks[0]
    case Handling(mask) => ReleaseAbove(w.(tasks := rest), mask, v);
    case Raising(left) =>
      if left != [] {
        var w' := w.(tasks := [Raising(left[1..])] + rest);
        OuterPush(w.posix.mask, Raising(left[1..]), rest, v);
        if left[0] in w.posix.handlers && left[0] < NSIG { ArriveAbove(w', left[0], v); }
      }
  }

  lemma ActAbove(w: Sys, sig: int, act: Option<Action>, query: bool, during: set<nat>, v: Sys)
    requires |w.actions| == NSIG && Above(w, v)
    ensures Above(AfterSigaction(w, sig, act, query, during), v)
  {
    hide Ascending, Outer;
    if InRange(sig) && !(act.Some? && act.value.handler == Error) && (act.Some? || query) {
      var s := Canonical(sig);
      var w' := if act.Some? && s in w.posix.handlers then Replaced(w, s, act.value) else w;
      var p := Hold(w'.posix, during);
      OuterPush(w.posix.mask, Raising(Ascending(p.pending - p.mask, 0)), w.tasks, v);
    }
  }

  lemma MaskAbove(w: Sys, mask: set<nat>, v: Sys)
    requires Above(w, v) && InHandler(w.tasks, |v.tasks|)
    ensures Above(Release(w, mask), v)
  {
    hide Release, Outer, InHandler;
    OuterInHandler(mask, w.posix.mask, w.tasks, |v.tasks|);
    ReleaseAbove(w, mask, v);
  }

  lemma AfterAbove(w: Sys, move: Move, v: Sys)
    requires |w.actions| == NSIG && Above(w, v) && Nested(w, move, |v.tasks|)
    ensures Above(After(w, move), v)
  {
    hide Arrive, Release, AfterSigaction, NewMask, Outer, InHandler, Advance, Above, ToSet;
    if !w.aborted {
      match move
      case Act(sig, act, query, during) => ActAbove(w, sig, act, query, ToSet(during), v);
      case Mask(operation, operand) => MaskAbove(w, NewMask(w.posix, operation, Operand(operand)), v);
      case Incoming(s) => if s in w.posix.handlers && s < NSIG { ArriveAbove(w, s, v); }
      case Proceed => AdvanceAbove(w, v);
    }
  }

  lemma {:induction false} OutcomeAbove(w: Sys, moves: seq<Move>, v: Sys)
    requires |w.actions| == NSIG && Above(w, v) && AllNested(w, moves, |v.tasks|)
    ensures Above(Outcome(w, moves), v)
    decreases |moves|
  {
    hide After, Above, Nested;
    if moves != [] {
      var n := |moves| - 1;
      forall k | 0 <= k < n ensures Nested(Outcome(w, moves[..n][..k]), moves[..n][k], |v.tasks|) {
        assert moves[..n][..k] == moves[..k];
      }
      OutcomeAbove(w, moves[..n], v);
      AfterAbove(Outcome(w, moves[..n]), moves[n], v);
    }
  }

  /**
    The mask comes back.  Whatever starts in a state, the moves that belong to it never undo
    what was in progress before, and when all of it is done the mask is that of the start.
   */
  lemma MaskComesBack(w: Sys, moves: seq<Move>)
    requires |w.actions| == NSIG && AllNested(w, moves, |w.tasks|)
    ensures var v := Outcome(w, moves);
            && |w.tasks| <= |v.tasks| && v.tasks[|v.tasks| - |w.tasks|..] == w.tasks
            && (|v.tasks| == |w.tasks| ==> v.tasks == w.tasks && v.posix.mask == w.posix.mask)
  {
    hide Outcome, AllNested;
    assert Above(w, w);
    OutcomeAbove(w, moves, w);
  }

  /**
    A sigaction that has really returned: its last loop has raised everything, with whatever
    handlers that has run, and the mask is that of the call.
   */
  lemma SigactionReturns(w: Sys, act: Move, moves: seq<Move>)
    requires |w.actions| == NSIG && act.Act? && AllNested(After(w, act), moves, |w.tasks|)
    ensures var v := Outcome(After(w, act), moves);
            |v.tasks| == |w.tasks| ==> v.tasks == w.tasks && v.posix.mask == w.posix.mask
  {
    hide Outcome, AllNested, After;
    assert Above(w, w);
    AfterAbove(w, act, w);
    OutcomeAbove(After(w, act), moves, w);
  }

  // ------------------------------------------- everything comes to an end

  ghost function Raises(tasks: seq<Task>): nat {
    if tasks == [] then 0
    else (match tasks[0] case Raising(left) => |left| case Handling(_) => 0) + Raises(tasks[1..])
  }

  ghost function Handlers(tasks: seq<Task>): nat {
    if tasks == [] then 0 else (if tasks[0].Handling? then 1 else 0) + Handlers(tasks[1..])
  }

  /** One task after another gets nearer to its end, in this order. */
  ghost predicate Nearer(w: Sys, v: Sys) {
    var a, b := |w.posix.pending| + Raises(w.tasks), |v.posix.pending| + Raises(v.tasks);
    || a < b
    || (a == b && Handlers(w.tasks) < Handlers(v.tasks))
    || (a == b && Handlers(w.tasks) == Handlers(v.tasks) && Raises(w.tasks) < Raises(v.tasks))
    || (a == b && Handlers(w.tasks) == Handlers(v.tasks) && Raises(w.tasks) == Raises(v.tasks)
        && |w.tasks| < |v.tasks|)
  }

  lemma TasksCons(t: Task, rest: seq<Task>)
    ensures Raises([t] + rest) == (if t.Raising? then |t.left| else 0) + Raises(rest)
    ensures Handlers([t] + rest) == (if t.Handling? then 1 else 0) + Handlers(rest)
  {
    assert ([t] + rest)[1..] == rest;
  }

  lemma {:induction false} SubsetSize(x: set<nat>, y: set<nat>)
    requires x <= y
    ensures |x| <= |y|
  {
    if k :| k in x { SubsetSize(x - {k}, y - {k}); }
  }

  lemma EnterPending(w: Sys, s: nat)
    requires s < |w.actions|
    ensures Enter(w, s).posix.pending <= w.posix.pending
  {
    hide Resets, Blocking;
  }

  /** A raise that is not blocked is used up; a blocked one becomes pending. */
  lemma ArriveTokens(w: Sys, s: nat)
    requires s in w.posix.handlers && s < |w.actions|
    ensures var r := Arrive(w, s);
            if s in w.posix.mask then
              |r.posix.pending| <= |w.posix.pending| + 1 && r.tasks == w.tasks
            else |r.posix.pending| <= |w.posix.pending| && Raises(r.tasks) == Raises(w.tasks)
    ensures |w.tasks| <= |Arrive(w, s).tasks|
  {
    hide Resets, Blocking, Raises;
    TasksCons(Handling(w.posix.mask), w.tasks);
    if s !in w.posix.mask {
      EnterPending(w.(posix := Deliver(w.posix, s)), s);
      SubsetSize(Arrive(w, s).posix.pending, w.posix.pending);
    }
  }

  lemma AdvanceNearer(w: Sys)
    requires SoundSys(w) && w.tasks != []
    ensures Nearer(Advance(w), w) && |w.tasks| <= |Advance(w).tasks| + 1
  {
    hide Arrive, Ascending, IsSigset, Raises, Handlers;
    var t, rest := w.tasks[0], w.tasks[1..];
    assert w.tasks == [t] + rest && t in w.tasks && SoundTask(w.posix, t);
    TasksCons(t, rest);
    match t
    case Handling(mask) =>
      var released := w.posix.pending - mask;
      TasksCons(Raising(Ascending(released, 0)), rest);
      AscendingLength(released, 0);
      assert w.posix.pending == released + w.posix.pending * mask;
    case Raising(left) =>
      if left != [] {
        assert left[0] in left;
        TasksCons(Raising(left[1..]), rest);
        ArriveTokens(w.(tasks := [Raising(left[1..])] + rest), left[0]);
      }
  }

  /** When nothing else happens, what is above the last n tasks ends by itself. */
  lemma {:induction false} Drains(w: Sys, n: nat) returns (moves: seq<Move>)
    requires SoundSys(w) && n <= |w.tasks|
    ensures forall i :: 0 <= i < |moves| ==> moves[i] == Proceed
    ensures AllNested(w, moves, n)
    ensures Outcome(w, moves).aborted || |Outcome(w, moves).tasks| == n
    decreases |w.posix.pending| + Raises(w.tasks), Handlers(w.tasks), Raises(w.tasks), |w.tasks|
  {
    hide Outcome, Advance, SoundSys, Raises, Handlers;
    SoundLength(w);
    moves := [];
    OutcomeNone(w);
    if !w.aborted && n < |w.tasks| {
      AdvanceIsSound(w);
      AdvanceNearer(w);
      moves := Drains(Advance(w), n);
      OutcomeFirst(w, Proceed, moves, n);
      moves := [Proceed] + moves;
    }
  }

  /**
    Every sigaction returns: when nothing more happens, its last loop and the handlers that
    it runs come to an end, and then the mask is that of the call.
   */
  lemma SigactionEnds(w: Sys, act: Move) returns (moves: seq<Move>)
    requires SoundSys(w) && act.Act? && Permitted(act)
    ensures forall i :: 0 <= i < |moves| ==> moves[i] == Proceed
    ensures var v := Outcome(After(w, act), moves);
            v.aborted || (v.tasks == w.tasks && v.posix.mask == w.posix.mask)
  {
    hide Outcome, AllNested, After;
    AfterIsSound(w, act);
    assert Above(w, w);
    AfterAbove(w, act, w);
    moves := Drains(After(w, act), |w.tasks|);
    SigactionReturns(w, act, moves);
  }

  lemma OutcomeNone(w: Sys)
    requires |w.actions| == NSIG
    ensures Outcome(w, []) == w
  {}

  lemma {:induction false} OutcomeCons(w: Sys, move: Move, moves: seq<Move>)
    requires |w.actions| == NSIG
    ensures Outcome(w, [move] + moves) == Outcome(After(w, move), moves)
    decreases |moves|
  {
    hide After;
    var all := [move] + moves;
    if moves == [] {
      assert all[..0] == [] && all == [move];
      OutcomeNone(w);
    } else {
      assert all[..|all| - 1] == [move] + moves[..|moves| - 1];
      OutcomeCons(w, move, moves[..|moves| - 1]);
    }
  }

  lemma OutcomeFirst(w: Sys, move: Move, moves: seq<Move>, n: nat)
    requires |w.actions| == NSIG && Nested(w, move, n) && AllNested(After(w, move), moves, n)
    ensures Outcome(w, [move] + moves) == Outcome(After(w, move), moves)
    ensures AllNested(w, [move] + moves, n)
  {
    hide After, Outcome, Nested;
    var all := [move] + moves;
    OutcomeCons(w, move, moves);
    forall k | 0 <= k < |all| ensures Nested(Outcome(w, all[..k]), all[k], n) {
      if k == 0 {
        OutcomeNone(w);
      } else {
        assert all[..k] == [move] + moves[..k - 1];
        OutcomeCons(w, move, moves[..k - 1]);
      }
    }
  }

  /**
    While the handler of s runs, its own mask and s itself are blocked on top of the old mask;
    whatever it does, when it returns the mask is again what it was at the arrival, and so it
    is when everything that its return has released is done.
   */
  lemma HandlerRestoresMask(w: Sys, s: nat, moves: seq<Move>)
    requires SoundSys(w) && s in w.posix.handlers && Called(w.posix, s) == SigactionHandler
    requires w.actions[s].handler != Default && !w.aborted
    requires |Arrive(w, s).actions| == NSIG
    ensures Arrive(w, s).posix.mask == (w.posix.mask + Blocking(w.actions[s], s)) * w.posix.handlers.Keys
    ensures Arrive(w, s).calls == w.calls + [Ran(s, w.actions[s].handler)]
    ensures var v := Outcome(Arrive(w, s), moves);
            v.tasks == Arrive(w, s).tasks && !v.aborted ==> After(v, Proceed).posix.mask == w.posix.mask
    ensures AllNested(Arrive(w, s), moves, |w.tasks|) ==>
              var v := Outcome(Arrive(w, s), moves);
              |v.tasks| == |w.tasks| ==> v.tasks == w.tasks && v.posix.mask == w.posix.mask
  {
    hide IsSigset, Outcome, Enter, Deliver, After, AllNested;
    DeliverKeeps(w.posix, s);
    EnterEffect(w.(posix := Deliver(w.posix, s)), s);
    var v := Outcome(Arrive(w, s), moves);
    if v.tasks == Arrive(w, s).tasks && !v.aborted { HandlerReturns(v, w.posix.mask); }
    if AllNested(Arrive(w, s), moves, |w.tasks|) {
      assert Above(w, w);
      ArriveAbove(w, s, w);
      OutcomeAbove(Arrive(w, s), moves, w);
    }
  }

  // ------------------------------------- the states of the code have these laws

  /** The state of the layer is a sound one, whatever it is in the middle of. */
  lemma LayerIsSound(actions: ActionLayer, tasks: seq<Task>)
    requires actions.Valid() && forall t :: t in tasks ==> SoundTask(actions.layer.View(), t)
    ensures SoundSys(actions.View(tasks))
  {
    hide Bit, Pow2, SignalLayer.ValidAt, IsSigset;
    actions.layer.ViewIsProper();
  }

  /** No action has been installed yet. */
  ghost predicate Untouched(w: Sys) {
    && !w.aborted
    && (forall s :: 0 <= s < |w.actions| ==> w.actions[s].handler == Default)
    && (forall s :: s in w.posix.handlers ==> w.posix.handlers[s] != SigactionHandler)
  }

  /** What ActionLayer.Run reaches before any action is installed is free of aborts. */
  lemma StartNeverAborts(actions: ActionLayer, moves: seq<Move>)
    requires actions.Valid() && Untouched(actions.View([]))
    requires forall i :: 0 <= i < |moves| ==> Permitted(moves[i]) && Spares(moves[i])
    ensures SoundSys(actions.View([])) && Consistent(actions.View([]))
    ensures Consistent(Outcome(actions.View([]), moves)) && !Outcome(actions.View([]), moves).aborted
  {
    hide Outcome, Permitted, Spares, Resets;
    LayerIsSound(actions, []);
    NeverAborts(actions.View([]), moves);
  }
}
