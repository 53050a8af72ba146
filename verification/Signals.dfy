/**
  POSIX signal blocking on top of a C library that has only `signal`
  (gnulib/sigprocmask.c, gnulib/raise.c).

  The library's `signal` has System V semantics: a handler is uninstalled before it
  runs.  The signal SIGPIPE is not known to the library at all; its handler lives in
  a variable.  The class SignalLayer is the code; Posix is what it pretends to be: a
  mask, a set of pending signals that is part of the mask, and one handler for each
  signal.
 */
module Signals {
  import opened Bits
  import opened Powers
  import opened Modular
  import opened Wrappers

  type SignalCount = n: nat | 22 < n <= 32 witness 32

  /** The number of signals of the platform.  A signal set has 32 bits. */
  const NSIG: SignalCount
  const SIGPIPE: nat := 13
  const SIGABRT: nat := 22
  /** An alias of SIGABRT, not a signal of its own. */
  const SIGABRT_COMPAT: nat := 6
  const SIGKILL := -1
  const SIGSTOP := -1
  const SIG_BLOCK := 0
  const SIG_SETMASK := 1
  const SIG_UNBLOCK := 2

  /** A function pointer: three special values, the two handlers of this library, or the program's own. */
  datatype Handler = Default | Ignore | Error | BlockedHandler | SigactionHandler | User(id: nat)

  /** What the program observes: a handler ran, or the default action ended it. */
  datatype Event = Ran(sig: nat, handler: Handler) | Terminated(sig: nat)

  // ------------------------------------------------------------- signal sets

  /** The signals in a set of type sigset_t. */
  ghost function Elements(x: nat): (s: set<nat>) {
    set i: nat | i < NSIG && Bit(x, i)
  }

  /** The sets that the operations below can build. */
  ghost predicate IsSigset(x: nat) {
    x < Pow2(32) && SIGABRT_COMPAT !in Elements(x)
  }

  predicate InRange(sig: int) {
    0 <= sig < NSIG
  }

  function Canonical(sig: nat): nat {
    if sig == SIGABRT_COMPAT then SIGABRT else sig
  }

  lemma ElementsZero()
    ensures Elements(0) == {}
  {
    forall i: nat ensures !Bit(0, i) { BitZero(i); }
  }

  lemma ElementsPow2(k: nat)
    requires k < NSIG
    ensures Elements(Pow2(k)) == {k}
  {
    forall i: nat ensures Bit(Pow2(k), i) <==> i == k { BitPow2(k, i); }
  }

  lemma ElementsOr(x: nat, y: nat)
    ensures Elements(Or(x, y)) == Elements(x) + Elements(y)
  {
    hide Bit, Or;
    forall i: nat ensures Bit(Or(x, y), i) <==> Bit(x, i) || Bit(y, i) { BitOr(x, y, i); }
  }

  lemma ElementsAndNot(x: nat, y: nat)
    ensures Elements(AndNot(x, y)) == Elements(x) - Elements(y)
  {
    hide Bit, AndNot;
    forall i: nat ensures Bit(AndNot(x, y), i) <==> Bit(x, i) && !Bit(y, i) { BitAndNot(x, y, i); }
  }

  lemma {:induction false} BitOnes(k: nat, i: nat)
    ensures Bit(Pow2(k) - 1, i) <==> i < k
    decreases k
  {
    if k == 0 {
      BitZero(i);
    } else {
      assert (Pow2(k) - 1) / 2 == Pow2(k - 1) - 1;
      if i > 0 { BitOnes(k - 1, i - 1); }
    }
  }

  predicate SigIsMember(x: nat, sig: int)
    ensures IsSigset(x) ==>
              (SigIsMember(x, sig) <==> InRange(sig) && Canonical(sig) in Elements(x))
  {
    InRange(sig) && Bit(x, Canonical(sig))
  }

  method SigEmptySet() returns (x: nat)
    ensures IsSigset(x) && Elements(x) == {}
  {
    ElementsZero();
    x := 0;
  }

  method SigAddSet(old_: nat, sig: int) returns (x: nat, r: int)
    requires IsSigset(old_)
    ensures IsSigset(x)
    ensures InRange(sig) ==> r == 0 && Elements(x) == Elements(old_) + {Canonical(sig)}
    ensures !InRange(sig) ==> r == -1 && x == old_
  {
    hide Bit, Pow2, Or;
    x := old_;
    if 0 <= sig < NSIG {
      var s: nat := if sig == SIGABRT_COMPAT then SIGABRT else sig;
      Pow2Less(s, 32);
      OrBound(x, Pow2(s), 32);
      ElementsOr(x, Pow2(s));
      ElementsPow2(s);
      x := Or(x, Pow2(s));
      return x, 0;
    } else {
      return x, -1;
    }
  }

  method SigDelSet(old_: nat, sig: int) returns (x: nat, r: int)
    requires IsSigset(old_)
    ensures IsSigset(x)
    ensures InRange(sig) ==> r == 0 && Elements(x) == Elements(old_) - {Canonical(sig)}
    ensures !InRange(sig) ==> r == -1 && x == old_
  {
    hide Bit, Pow2, AndNot;
    x := old_;
    if 0 <= sig < NSIG {
      var s: nat := if sig == SIGABRT_COMPAT then SIGABRT else sig;
      AndNotBound(x, Pow2(s));
      ElementsAndNot(x, Pow2(s));
      ElementsPow2(s);
      x := AndNot(x, Pow2(s));
      return x, 0;
    } else {
      return x, -1;
    }
  }

  /** p - 1 in unsigned arithmetic modulo q. */
  function Decremented(p: nat, q: nat): nat
    requires 0 < q
  {
    (p % q + q - 1) % q
  }

  /** The result is right even when p itself has wrapped around to 0. */
  lemma DecrementWraps(p: nat, q: nat)
    requires 0 < p <= q
    ensures Decremented(p, q) == p - 1
  {
    if p < q {
      ModUnique(p, q, 0, p);
      ModUnique(p + q - 1, q, 1, p - 1);
    } else {
      ModUnique(p, q, 1, 0);
      ModUnique(q - 1, q, 0, q - 1);
    }
  }

  lemma Pow2Twice(k: nat)
    ensures 2 * Pow2(k) == Pow2(k + 1)
  {}

  /** Shifting 2U instead of 1U keeps the shift count below the width; the subtraction may wrap around. */
  method SigFillSet() returns (x: nat)
    ensures IsSigset(x)
    ensures forall i: nat :: i in Elements(x) <==> InRange(i) && i != SIGABRT_COMPAT
  {
    hide Pow2, Bit, AndNot, Decremented;
    Pow2Twice(NSIG - 1);
    ghost var n: nat := NSIG;
    ghost var ones: nat := Pow2(n) - 1;
    forall i: nat | i < NSIG ensures Bit(ones, i) { BitOnes(n, i); }
    assert forall i: nat :: i in Elements(ones) <==> InRange(i);
    ElementsAndNot(ones, Pow2(SIGABRT_COMPAT));
    ElementsPow2(SIGABRT_COMPAT);
    AndNotBound(ones, Pow2(SIGABRT_COMPAT));
    if n < 32 { Pow2Less(n, 32); }
    DecrementWraps(Pow2(n), Pow2(32));
    x := AndNot(Decremented(2 * Pow2(NSIG - 1), Pow2(32)), Pow2(SIGABRT_COMPAT));
  }

  // ---------------------------------------------------------- the abstraction

  datatype Posix = Posix(mask: set<nat>, pending: set<nat>, handlers: map<nat, Handler>, log: seq<Event>)

  /** Handlers that a program can name. */
  predicate Nameable(h: Handler) {
    h != Error && h != BlockedHandler
  }

  ghost predicate Proper(p: Posix) {
    && p.pending <= p.mask <= p.handlers.Keys
    && forall s :: s in p.handlers ==> Nameable(p.handlers[s])
  }

  /** One signal arrives, or is raised. */
  function Deliver(p: Posix, s: nat): Posix
    requires s in p.handlers
  {
    if s in p.mask then p.(pending := p.pending + {s})
    else if p.handlers[s] == Default then p.(log := p.log + [Terminated(s)])
    else if p.handlers[s] == Ignore then p
    else
      p.(log := p.log + [Ran(s, p.handlers[s])],
         handlers := if s == SIGPIPE then p.handlers else p.handlers[s := Default])
  }

  /** The mask changes; what is pending and no longer blocked leaves the pending set. */
  function Remask(p: Posix, mask: set<nat>): Posix {
    p.(mask := mask, pending := p.pending * mask)
  }

  function Requested(mask: set<nat>, operation: int, operand: set<nat>): Option<set<nat>> {
    if operation == SIG_BLOCK then Some(mask + operand)
    else if operation == SIG_SETMASK then Some(operand)
    else if operation == SIG_UNBLOCK then Some(mask - operand)
    else None
  }

  /** The mask after sigprocmask: signals that cannot be caught are never blocked. */
  function NewMask(p: Posix, operation: int, operand: Option<set<nat>>): set<nat> {
    if operand.None? then p.mask
    else
      match Requested(p.mask, operation, operand.value)
      case None => p.mask
      case Some(mask) => mask * p.handlers.Keys
  }

  /** The signals of a set from k on, in ascending order. */
  function Ascending(x: set<nat>, k: nat): seq<nat>
    decreases NSIG - k
  {
    if k >= NSIG then []
    else if k in x then [k] + Ascending(x, k + 1)
    else Ascending(x, k + 1)
  }

  /** Signals raised one after the other. */
  function RaiseAll(p: Posix, signals: seq<nat>): Posix
    requires forall s :: s in signals ==> s in p.handlers
    decreases |signals|
  {
    if signals == [] then p else RaiseAll(Deliver(p, signals[0]), signals[1..])
  }

  function Install(p: Posix, sig: int, h: Handler): (Posix, Handler) {
    if InRange(sig) && h != Error && Canonical(sig) in p.handlers then
      (p.(handlers := p.handlers[Canonical(sig) := h]), p.handlers[Canonical(sig)])
    else
      (p, Error)
  }

  // ------------------------------------------------------------------- runs

  /** What a program, its handlers and its environment can do next. */
  datatype Step =
    | Change(operation: int, operand: Option<nat>)
    | Replace(sig: int, handler: Handler)
    | Arrival(signal: nat)
    | Continue

  ghost predicate Allowed(step: Step) {
    match step
    case Change(_, operand) => operand.Some? ==> IsSigset(operand.value)
    case Replace(_, handler) => handler != BlockedHandler
    case Arrival(_) => true
    case Continue => true
  }

  /** The POSIX state, and for each sigprocmask in progress, innermost first, the signals that it has yet to raise. */
  datatype World = World(posix: Posix, frames: seq<seq<nat>>)

  ghost function Next(w: World, step: Step): World {
    var p := w.posix;
    match step
    case Change(operation, operand) =>
      var mask := NewMask(p, operation, Operand(operand));
      World(Remask(p, mask), [Ascending(p.pending - mask, 0)] + w.frames)
    case Replace(sig, handler) => World(Install(p, sig, handler).0, w.frames)
    case Arrival(sig) => World(if sig in p.handlers then Deliver(p, sig) else p, w.frames)
    case Continue =>
      if w.frames == [] then w
      else if w.frames[0] == [] then World(p, w.frames[1..])
      else
        World(if w.frames[0][0] in p.handlers then Deliver(p, w.frames[0][0]) else p,
              [w.frames[0][1..]] + w.frames[1..])
  }

  ghost function Exec(w: World, steps: seq<Step>): World {
    if steps == [] then w else Next(Exec(w, steps[..|steps| - 1]), steps[|steps| - 1])
  }

  /** The function that the arrival of s calls. */
  function Called(p: Posix, s: nat): Handler
    requires s in p.handlers
  {
    if s in p.mask then BlockedHandler else p.handlers[s]
  }

  /** A sigprocmask whose last loop has come to signal `next`. */
  datatype Frame = Frame(received: seq<bool>, next: nat)

  /** The signals that the last loop of sigprocmask raises. */
  ghost function Released(received: seq<bool>): set<nat> {
    set s: nat | s < |received| && received[s]
  }

  ghost function Left(frame: Frame): seq<nat> {
    Ascending(Released(frame.received), frame.next)
  }

  ghost function AllLeft(frames: seq<Frame>): seq<seq<nat>> {
    seq(|frames|, i requires 0 <= i < |frames| => Left(frames[i]))
  }

  ghost function Operand(operand: Option<nat>): Option<set<nat>> {
    if operand.Some? then Some(Elements(operand.value)) else None
  }

  lemma {:induction false} AscendingElements(x: set<nat>, k: nat)
    ensures forall s :: s in Ascending(x, k) <==> s in x && k <= s < NSIG
    decreases NSIG - k
  {
    if k < NSIG { AscendingElements(x, k + 1); }
  }

  lemma DeliverKeeps(p: Posix, s: nat)
    requires s in p.handlers
    ensures Deliver(p, s).handlers.Keys == p.handlers.Keys && Deliver(p, s).mask == p.mask
    ensures Proper(p) ==> Proper(Deliver(p, s))
  {
    assert p.handlers[s := Default].Keys == p.handlers.Keys;
  }

  // ----------------------------------------------------------------- the code

  class SignalLayer {
    /** The signals that the library's own `signal` accepts. */
    const supported: set<nat>
    /** The library's handler table. */
    const table: array<Handler>
    var sigpipeHandler: Handler
    var blockedSet: nat
    const pendingArray: array<bool>
    const oldHandlers: array<Handler>
    /** Everything observed so far. */
    var log: seq<Event>

    predicate Accepts(s: nat) {
      s == SIGPIPE || s in supported
    }

    ghost predicate Shaped() {
      && table.Length == oldHandlers.Length == pendingArray.Length == NSIG
      && table != oldHandlers
      && SIGPIPE !in supported && SIGABRT_COMPAT !in supported
      && forall s :: s in supported ==> s < NSIG
    }

    function Installed(s: nat): Handler
      requires Shaped() && s < NSIG
      reads this, table
    {
      if s == SIGPIPE then sigpipeHandler else table[s]
    }

    /** The handler of s as the program sees it. */
    function Logical(s: nat): Handler
      requires Shaped() && s < NSIG
      reads this, table, oldHandlers
    {
      if Bit(blockedSet, s) then oldHandlers[s] else Installed(s)
    }

    ghost predicate ValidAt(s: nat)
      requires Shaped() && s < NSIG
      reads this, table, oldHandlers, pendingArray
    {
      && (pendingArray[s] ==> Bit(blockedSet, s))
      && (Bit(blockedSet, s) ==> Accepts(s))
      && (Accepts(s) ==> (Installed(s) == BlockedHandler <==> Bit(blockedSet, s)))
      && (Accepts(s) ==> Installed(s) != Error && Nameable(Logical(s)))
    }

    ghost predicate Valid()
      reads this, table, oldHandlers, pendingArray
    {
      && Shaped()
      && blockedSet < Pow2(32)
      && forall s: nat :: s < NSIG ==> ValidAt(s)
    }

    ghost function Pending(): set<nat>
      requires Shaped()
      reads this, pendingArray
    {
      set s: nat | s < NSIG && pendingArray[s]
    }

    ghost function Handlers(): map<nat, Handler>
      requires Shaped()
      reads this, table, oldHandlers
    {
      map s: nat | s < NSIG && Accepts(s) :: Logical(s)
    }

    /** What the program can tell about the state. */
    ghost function View(): Posix
      requires Shaped()
      reads this, table, oldHandlers, pendingArray
    {
      Posix(Elements(blockedSet), Pending(), Handlers(), log)
    }

    lemma ViewIsProper()
      requires Valid()
      ensures Proper(View()) && IsSigset(blockedSet)
      ensures forall s: nat :: s in View().handlers <==> s < NSIG && Accepts(s)
    {
      hide Bit, Pow2;
      forall s: nat | s < NSIG
        ensures s in Pending() ==> s in Elements(blockedSet)
        ensures s in Elements(blockedSet) ==> Accepts(s)
        ensures Accepts(s) ==> Nameable(Logical(s))
      {
        assert ValidAt(s);
      }
    }

    constructor (signals: set<nat>)
      requires forall s :: s in signals ==> s < NSIG
      requires SIGPIPE !in signals && SIGABRT_COMPAT !in signals
      ensures Valid() && fresh(table) && fresh(oldHandlers) && fresh(pendingArray)
      ensures supported == signals
      ensures View() == Posix({}, {}, map s: nat | s < NSIG && (s == SIGPIPE || s in signals) :: Default, [])
    {
      supported := signals;
      table := new Handler[NSIG](_ => Default);
      sigpipeHandler := Default;
      blockedSet := 0;
      pendingArray := new bool[NSIG](_ => false);
      oldHandlers := new Handler[NSIG](_ => Default);
      log := [];
      new;
      hide Bit, Pow2;
      ElementsZero();
      forall s: nat | s < NSIG ensures !Bit(blockedSet, s) { BitZero(s); }
    }

    /** ext_signal: the library's `signal`, with SIGPIPE added. */
    method ExtSignal(sig: nat, handler: Handler) returns (was: Handler)
      requires Shaped() && sig < NSIG && sig != SIGABRT_COMPAT
      modifies `sigpipeHandler, table
      ensures was == if Accepts(sig) then old(Installed(sig)) else Error
      ensures sigpipeHandler == if sig == SIGPIPE then handler else old(sigpipeHandler)
      ensures forall s: nat :: s < NSIG ==>
                table[s] == if s == sig && sig in supported then handler else old(table[s])
    {
      if sig == SIGPIPE {
        was := sigpipeHandler;
        sigpipeHandler := handler;
      } else if sig in supported {
        was := table[sig];
        table[sig] := handler;
      } else {
        was := Error;
      }
    }

    /** blocked_handler, called by the library for a signal that arrived while blocked. */
    method BlockedHandlerRuns(sig: nat)
      requires Shaped() && sig in supported && ValidExcept(sig)
      requires Bit(blockedSet, sig) && Nameable(oldHandlers[sig])
      modifies this, table, pendingArray
      ensures Valid() && blockedSet == old(blockedSet) && log == old(log)
      ensures View() == old(View()).(pending := old(View()).pending + {sig})
    {
      hide Bit, Pow2;
      var _ := ExtSignal(sig, BlockedHandler);
      if 0 <= sig < NSIG {
        pendingArray[sig] := true;
      }
      forall s: nat | s < NSIG ensures ValidAt(s) { assert s != sig ==> old(ValidAt(s)); }
      assert Handlers() == old(Handlers());
    }

    /** Valid, but for the handler of one signal that the library has just uninstalled. */
    ghost predicate ValidExcept(sig: nat)
      requires Shaped()
      reads this, table, oldHandlers, pendingArray
    {
      && blockedSet < Pow2(32)
      && forall s: nat :: s < NSIG && s != sig ==> ValidAt(s)
    }

    /** The library delivers a signal: it uninstalls the handler, then calls it. */
    method Arrive(sig: nat) returns (called: Handler)
      requires Valid() && sig in supported
      modifies this, table, pendingArray
      ensures Valid() && blockedSet == old(blockedSet)
      ensures View() == Deliver(old(View()), sig)
      ensures called == Called(old(View()), sig)
    {
      hide Bit, Pow2;
      assert ValidAt(sig);
      called := table[sig];
      if called == Default {
        log := log + [Terminated(sig)];
        forall s: nat | s < NSIG ensures ValidAt(s) { assert old(ValidAt(s)); }
        assert Handlers() == old(Handlers());
      } else if called != Ignore {
        table[sig] := Default;
        forall s: nat | s < NSIG && s != sig ensures ValidAt(s) { assert old(ValidAt(s)); }
        if called == BlockedHandler {
          assert Handlers() == old(Handlers());
          BlockedHandlerRuns(sig);
        } else {
          log := log + [Ran(sig, called)];
          forall s: nat | s < NSIG ensures ValidAt(s) { assert s != sig ==> old(ValidAt(s)); }
          assert Handlers() == old(Handlers())[sig := Default];
        }
      }
    }

    /** _gl_raise_SIGPIPE: the handler of SIGPIPE is called without being uninstalled. */
    method RaiseSigpipe() returns (called: Handler)
      requires Valid()
      modifies `log, pendingArray
      ensures Valid() && blockedSet == old(blockedSet)
      ensures View() == Deliver(old(View()), SIGPIPE)
      ensures called == Called(old(View()), SIGPIPE)
    {
      hide Bit, Pow2;
      assert ValidAt(SIGPIPE);
      called := sigpipeHandler;
      if Bit(blockedSet, SIGPIPE) {
        pendingArray[SIGPIPE] := true;
      } else {
        var handler := sigpipeHandler;
        if handler == Default {
          log := log + [Terminated(SIGPIPE)];
        } else if handler != Ignore {
          log := log + [Ran(SIGPIPE, handler)];
        }
      }
      forall s: nat | s < NSIG ensures ValidAt(s) { assert old(ValidAt(s)); }
      assert Handlers() == old(Handlers());
    }

    /** raise (gnulib/raise.c) */
    method Raise(sig: nat) returns (called: Handler)
      requires Valid() && Accepts(sig)
      modifies this, table, pendingArray
      ensures Valid() && blockedSet == old(blockedSet)
      ensures View() == Deliver(old(View()), sig)
      ensures called == Called(old(View()), sig)
    {
      hide Bit, Pow2;
      if sig == SIGPIPE {
        called := RaiseSigpipe();
      } else {
        called := Arrive(sig);
      }
    }

    method SigPending() returns (pending: nat)
      requires Valid()
      ensures Elements(pending) == View().pending
    {
      hide Bit, Pow2, Or, SignalLayer.ValidAt;
      pending := 0;
      ElementsZero();
      for sig := 0 to NSIG
        invariant Elements(pending) == set s: nat | s < sig && pendingArray[s]
      {
        if pendingArray[sig] {
          ElementsOr(pending, Pow2(sig));
          ElementsPow2(sig);
          pending := Or(pending, Pow2(sig));
        }
      }
    }

    /** rpl_signal */
    method Signal(sig: int, handler: Handler) returns (was: Handler)
      requires Valid() && handler != BlockedHandler
      modifies `sigpipeHandler, table, oldHandlers
      ensures Valid() && was != BlockedHandler
      ensures was == Install(old(View()), sig, handler).1
      ensures View() == Install(old(View()), sig, handler).0
    {
      hide Pow2;
      if 0 <= sig < NSIG && sig != SIGKILL && sig != SIGSTOP && handler != Error {
        var s: nat := if sig == SIGABRT_COMPAT then SIGABRT else sig;
        assert ValidAt(s);
        hide Bit;
        if Bit(blockedSet, s) {
          was := oldHandlers[s];
          oldHandlers[s] := handler;
        } else {
          was := ExtSignal(s, handler);
        }
        forall i: nat | i < NSIG ensures ValidAt(i) { assert old(ValidAt(i)); }
        if Accepts(s) {
          assert Handlers() == old(Handlers())[s := handler];
        } else {
          assert Handlers() == old(Handlers());
        }
      } else {
        was := Error;
      }
    }

    /** One signal of the first loop of sigprocmask. */
    method Block(sig: nat)
      requires Valid() && sig < NSIG && sig != SIGABRT_COMPAT && sig !in Elements(blockedSet)
      modifies this, table, pendingArray, oldHandlers
      ensures Valid() && log == old(log)
      ensures View() == if Accepts(sig) then old(View()).(mask := old(View()).mask + {sig}) else old(View())
    {
      hide Bit, Pow2, Or;
      assert ValidAt(sig);
      pendingArray[sig] := false;
      var was := ExtSignal(sig, BlockedHandler);
      oldHandlers[sig] := was;
      if was != Error {
        ElementsOr(blockedSet, Pow2(sig));
        ElementsPow2(sig);
        Pow2Less(sig, 32);
        OrBound(blockedSet, Pow2(sig), 32);
        blockedSet := Or(blockedSet, Pow2(sig));
        forall s: nat | s < NSIG ensures Bit(blockedSet, s) <==> s == sig || old(Bit(blockedSet, s)) {
          assert s in Elements(blockedSet) <==> s == sig || s in old(Elements(blockedSet));
        }
      }
      forall s: nat | s < NSIG ensures ValidAt(s) {
        assert old(ValidAt(s));
      }
      assert Handlers() == old(Handlers());
    }

    /** One signal of the second loop of sigprocmask. */
    method Unblock(sig: nat) returns (received: bool)
      requires Valid() && sig in Elements(blockedSet)
      modifies this, table, pendingArray
      ensures Valid() && log == old(log)
      ensures received == old(sig in View().pending)
      ensures View() == Remask(old(View()), old(View()).mask - {sig})
    {
      hide Bit, Pow2, AndNot;
      assert ValidAt(sig);
      var was := ExtSignal(sig, oldHandlers[sig]);
      if was != BlockedHandler {
        assert false;
      }
      received := pendingArray[sig];
      ElementsAndNot(blockedSet, Pow2(sig));
      ElementsPow2(sig);
      AndNotBound(blockedSet, Pow2(sig));
      blockedSet := AndNot(blockedSet, Pow2(sig));
      pendingArray[sig] := false;
      forall s: nat | s < NSIG ensures Bit(blockedSet, s) <==> s != sig && old(Bit(blockedSet, s)) {
        assert s in Elements(blockedSet) <==> s != sig && s in old(Elements(blockedSet));
      }
      forall s: nat | s < NSIG ensures ValidAt(s) { assert old(ValidAt(s)); }
      assert Handlers() == old(Handlers());
      forall s: nat | s < NSIG
        ensures s in Pending() <==> s in old(Pending()) && s in old(Elements(blockedSet)) - {sig}
      {
        assert old(ValidAt(s));
      }
    }

    method BlockAll(toBlock: nat)
      requires Valid() && IsSigset(toBlock) && Elements(toBlock) !! View().mask
      modifies this, table, pendingArray, oldHandlers
      ensures Valid()
      ensures View() == old(View()).(mask := old(View()).mask + Elements(toBlock) * old(View()).handlers.Keys)
    {
      hide Bit, Pow2, SignalLayer.ValidAt, SignalLayer.Logical;
      ghost var before := View();
      assert before.(mask := before.mask + Below(Elements(toBlock), 0) * before.handlers.Keys) == before;
      for sig := 0 to NSIG
        invariant Valid()
        invariant View() == before.(mask := before.mask + Below(Elements(toBlock), sig) * before.handlers.Keys)
      {
        BelowNext(Elements(toBlock), sig);
        assert sig in before.handlers <==> Accepts(sig);
        if Bit(toBlock, sig) {
          assert sig in Elements(toBlock);
          Block(sig);
        }
      }
      assert Below(Elements(toBlock), NSIG) == Elements(toBlock);
    }

    method UnblockAll(toUnblock: nat) returns (received: seq<bool>)
      requires Valid() && Elements(toUnblock) <= View().mask
      modifies this, table, pendingArray
      ensures Valid()
      ensures View() == Remask(old(View()), old(View()).mask - Elements(toUnblock))
      ensures |received| == NSIG
      ensures forall s: nat :: s < NSIG ==>
                (received[s] <==> s in Elements(toUnblock) && s in old(View()).pending)
    {
      hide Bit, Pow2, SignalLayer.ValidAt, SignalLayer.Handlers;
      var flags := new bool[NSIG];
      ghost var before := View();
      ViewIsProper();
      assert Remask(before, before.mask - Below(Elements(toUnblock), 0)) == before;
      for sig := 0 to NSIG
        invariant Valid()
        invariant View() == Remask(before, before.mask - Below(Elements(toUnblock), sig))
        invariant forall s: nat :: s < sig ==> (flags[s] <==> s in Elements(toUnblock) && s in before.pending)
      {
        BelowNext(Elements(toUnblock), sig);
        if Bit(toUnblock, sig) {
          assert sig in Elements(toUnblock);
          flags[sig] := Unblock(sig);
        } else {
          assert sig !in Elements(toUnblock);
          flags[sig] := false;
        }
      }
      assert Below(Elements(toUnblock), NSIG) == Elements(toUnblock);
      received := flags[..];
    }

    /** sigprocmask up to its last loop, which raises the signals in `received`. */
    method ChangeMask(operation: int, operand: Option<nat>) returns (r: int, oldSet: nat, received: seq<bool>)
      requires Valid() && (operand.Some? ==> IsSigset(operand.value))
      modifies this, table, pendingArray, oldHandlers
      ensures Valid()
      ensures oldSet == old(blockedSet)
      ensures r == -1 <==> operand.Some? && operation !in {SIG_BLOCK, SIG_SETMASK, SIG_UNBLOCK}
      ensures r == -1 || r == 0
      ensures View() == Remask(old(View()), NewMask(old(View()), operation, Operand(operand)))
      ensures |received| == NSIG && Released(received) == old(View()).pending - View().mask
    {
      hide Bit, Pow2, Or, AndNot, SignalLayer.ValidAt, SignalLayer.Handlers;
      ghost var before := View();
      ViewIsProper();
      oldSet, received, r := blockedSet, seq(NSIG, _ => false), 0;
      assert before == Remask(before, before.mask);
      if operand.Some? {
        var newBlockedSet: nat;
        ElementsOr(blockedSet, operand.value);
        ElementsAndNot(blockedSet, operand.value);
        if operation == SIG_BLOCK {
          OrBound(blockedSet, operand.value, 32);
          newBlockedSet := Or(blockedSet, operand.value);
        } else if operation == SIG_SETMASK {
          newBlockedSet := operand.value;
        } else if operation == SIG_UNBLOCK {
          newBlockedSet := AndNot(blockedSet, operand.value);
        } else {
          return -1, oldSet, received;
        }
        ghost var wanted := Elements(newBlockedSet);
        assert Requested(before.mask, operation, Elements(operand.value)) == Some(wanted);
        var toUnblock := AndNot(blockedSet, newBlockedSet);
        var toBlock := AndNot(newBlockedSet, blockedSet);
        ElementsAndNot(blockedSet, newBlockedSet);
        ElementsAndNot(newBlockedSet, blockedSet);
        ElementsZero();
        AndNotBound(blockedSet, operand.value);
        AndNotBound(newBlockedSet, blockedSet);
        assert Elements(toBlock) == wanted - before.mask && SIGABRT_COMPAT !in wanted - before.mask;
        if toBlock != 0 {
          BlockAll(toBlock);
        }
        BlockThenUnblock(before, wanted);
        assert View() == BlockStep(before, wanted);
        if toUnblock != 0 {
          received := UnblockAll(toUnblock);
        }
      }
    }

    /** sigprocmask, when no handler that it runs changes the mask or a handler. */
    method SigProcMask(operation: int, operand: Option<nat>) returns (r: int, oldSet: nat)
      requires Valid() && (operand.Some? ==> IsSigset(operand.value))
      modifies this, table, pendingArray, oldHandlers
      ensures Valid() && oldSet == old(blockedSet)
      ensures r == if operand.Some? && operation !in {SIG_BLOCK, SIG_SETMASK, SIG_UNBLOCK} then -1 else 0
      ensures var mask := NewMask(old(View()), operation, Operand(operand));
              var released := Ascending(old(View()).pending - mask, 0);
              && (forall s :: s in released ==> s in old(View()).handlers)
              && View() == RaiseAll(Remask(old(View()), mask), released)
    {
      hide Bit, Pow2, SignalLayer.ValidAt, SignalLayer.Handlers, Deliver;
      ViewIsProper();
      ghost var before := View();
      var received;
      r, oldSet, received := ChangeMask(operation, operand);
      ghost var released, changed := before.pending - View().mask, View();
      AscendingElements(released, 0);
      for sig := 0 to NSIG
        invariant Valid() && View().handlers.Keys == before.handlers.Keys
        invariant forall s :: s in Ascending(released, sig) ==> s in before.handlers
        invariant RaiseAll(View(), Ascending(released, sig)) == RaiseAll(changed, Ascending(released, 0))
      {
        assert received[sig] <==> sig in Released(received);
        AscendingElements(released, sig + 1);
        if received[sig] {
          assert Ascending(released, sig)[1..] == Ascending(released, sig + 1);
          DeliverKeeps(View(), sig);
          AcceptedIsHandled(sig);
          var _ := Raise(sig);
        }
      }
    }

    lemma AcceptedIsHandled(s: nat)
      requires Shaped()
      ensures s in View().handlers <==> s < NSIG && Accepts(s)
    {}

    ghost predicate Sound(frame: Frame) {
      && |frame.received| == NSIG
      && frame.next <= NSIG
      && forall s :: s in Released(frame.received) ==> Accepts(s)
    }

    /** One more round of the last loop of a sigprocmask that is in progress. */
    method Resume(frame: Frame) returns (next: Frame, done: bool, sig: nat, called: Handler)
      requires Valid() && Sound(frame)
      modifies this, table, pendingArray
      ensures Valid() && Sound(next)
      ensures done <==> Left(frame) == []
      ensures done ==> View() == old(View())
      ensures !done ==> Left(frame) == [sig] + Left(next) && sig in old(View()).handlers
      ensures !done ==> View() == Deliver(old(View()), sig) && called == Called(old(View()), sig)
    {
      hide Bit, Pow2, SignalLayer.ValidAt, SignalLayer.Handlers, Deliver;
      sig := frame.next;
      while sig < NSIG && !frame.received[sig]
        invariant frame.next <= sig <= NSIG
        invariant Left(Frame(frame.received, sig)) == Left(frame)
      {
        assert sig !in Released(frame.received);
        sig := sig + 1;
      }
      if sig == NSIG {
        return frame, true, sig, Ignore;
      }
      assert sig in Released(frame.received);
      next, done := Frame(frame.received, sig + 1), false;
      AcceptedIsHandled(sig);
      called := Raise(sig);
    }

    /**
      A whole run: calls of sigprocmask and signal, arrivals, and further rounds of the loops
      in which sigprocmask calls are still raising signals.  A handler that such a loop runs
      is any sequence of steps before the next round, so handlers may use the interface.
     */
    method Run(steps: seq<Step>) returns (frames: seq<Frame>)
      requires Valid() && forall i :: 0 <= i < |steps| ==> Allowed(steps[i])
      modifies this, table, pendingArray, oldHandlers
      ensures Valid()
      ensures Exec(World(old(View()), []), steps) == World(View(), AllLeft(frames))
    {
      hide Bit, Pow2, SignalLayer.ValidAt, SignalLayer.Handlers, Next;
      frames := [];
      ghost var start := World(View(), []);
      for i := 0 to |steps|
        invariant Valid()
        invariant forall f :: f in frames ==> Sound(f)
        invariant Exec(start, steps[..i]) == World(View(), AllLeft(frames))
      {
        assert steps[..i + 1][..i] == steps[..i];
        frames := Perform(steps[i], frames);
      }
      assert steps[..|steps|] == steps;
    }

    method Perform(step: Step, stack: seq<Frame>) returns (frames: seq<Frame>)
      requires Valid() && Allowed(step) && forall f :: f in stack ==> Sound(f)
      modifies this, table, pendingArray, oldHandlers
      ensures Valid() && forall f :: f in frames ==> Sound(f)
      ensures World(View(), AllLeft(frames)) == Next(World(old(View()), AllLeft(stack)), step)
    {
      hide Bit, Pow2, SignalLayer.ValidAt, SignalLayer.Handlers, Deliver, Install, NewMask, Ascending, AllLeft;
      ViewIsProper();
      NothingLeft();
      frames := stack;
      match step {
        case Change(operation, operand) =>
          var _, _, received := ChangeMask(operation, operand);
          frames := [Frame(received, 0)] + stack;
          forall s | s in Released(received) ensures Accepts(s) { AcceptedIsHandled(s); }
          LeftCons(frames[0], stack);
        case Replace(sig, handler) =>
          var _ := Signal(sig, handler);
        case Arrival(sig) =>
          AcceptedIsHandled(sig);
          if sig < NSIG && Accepts(sig) {
            var _ := Raise(sig);
          }
        case Continue =>
          if |stack| > 0 {
            assert stack == [stack[0]] + stack[1..];
            LeftCons(stack[0], stack[1..]);
            var next, done, sig, _ := Resume(stack[0]);
            assert !done ==> Left(stack[0])[1..] == Left(next);
            frames := if done then stack[1..] else [next] + stack[1..];
            LeftCons(next, stack[1..]);
          }
      }
    }
  }

  lemma NothingLeft()
    ensures AllLeft([]) == []
  {}

  lemma LeftCons(frame: Frame, stack: seq<Frame>)
    ensures AllLeft([frame] + stack) == [Left(frame)] + AllLeft(stack)
  {}

  /** The state between the two halves of sigprocmask. */
  function BlockStep(p: Posix, wanted: set<nat>): Posix {
    p.(mask := p.mask + (wanted - p.mask) * p.handlers.Keys)
  }

  lemma BlockThenUnblock(p: Posix, wanted: set<nat>)
    requires Proper(p)
    ensures wanted - p.mask == {} ==> BlockStep(p, wanted) == p
    ensures p.mask - wanted <= BlockStep(p, wanted).mask
    ensures Remask(BlockStep(p, wanted), BlockStep(p, wanted).mask - (p.mask - wanted))
            == Remask(p, wanted * p.handlers.Keys)
    ensures p.mask - wanted == {} ==> BlockStep(p, wanted) == Remask(p, wanted * p.handlers.Keys)
    ensures p.pending * (p.mask - wanted) == p.pending - wanted * p.handlers.Keys
  {
    assert BlockStep(p, wanted).mask - (p.mask - wanted) == wanted * p.handlers.Keys;
    if p.mask - wanted == {} {
      forall s | s in p.mask ensures s in wanted { assert s !in p.mask - wanted; }
      assert p.pending * (wanted * p.handlers.Keys) == p.pending;
    }
    if wanted - p.mask == {} {
      assert p.mask + (wanted - p.mask) * p.handlers.Keys == p.mask;
    }
  }

  ghost function Below(x: set<nat>, k: nat): set<nat> {
    set s | s in x && s < k
  }

  lemma BelowNext(x: set<nat>, k: nat)
    ensures Below(x, k + 1) == if k in x then Below(x, k) + {k} else Below(x, k)
  {}

  // ------------------------------------------------ what unblocking delivers

  /** What a program sees of signals that reach their handlers. */
  function Reports(handlers: map<nat, Handler>, signals: seq<nat>): seq<Event>
    requires forall s :: s in signals ==> s in handlers
  {
    if signals == [] then []
    else
      var s := signals[0];
      (if handlers[s] == Ignore then []
       else if handlers[s] == Default then [Terminated(s)]
       else [Ran(s, handlers[s])])
      + Reports(handlers, signals[1..])
  }

  predicate Distinct(signals: seq<nat>) {
    forall i, j :: 0 <= i < j < |signals| ==> signals[i] != signals[j]
  }

  lemma {:induction false} ReportsAgree(h: map<nat, Handler>, g: map<nat, Handler>, signals: seq<nat>)
    requires forall s :: s in signals ==> s in h && s in g && h[s] == g[s]
    ensures Reports(h, signals) == Reports(g, signals)
  {
    if signals != [] { ReportsAgree(h, g, signals[1..]); }
  }

  /** Signals that are not blocked each reach the handler installed for them at the start, once and in order. */
  lemma {:induction false} RaisedOnce(p: Posix, signals: seq<nat>)
    requires Distinct(signals)
    requires forall s :: s in signals ==> s in p.handlers && s !in p.mask
    ensures RaiseAll(p, signals).log == p.log + Reports(p.handlers, signals)
    ensures RaiseAll(p, signals).mask == p.mask && RaiseAll(p, signals).pending == p.pending
    ensures RaiseAll(p, signals).handlers.Keys == p.handlers.Keys
    ensures forall s :: s in p.handlers && s !in signals ==> RaiseAll(p, signals).handlers[s] == p.handlers[s]
    decreases |signals|
  {
    if signals != [] {
      var s, rest := signals[0], signals[1..];
      var q := Deliver(p, s);
      DeliverKeeps(p, s);
      forall t | t in rest ensures t in signals && t != s {
        var i :| 0 <= i < |rest| && rest[i] == t;
        assert signals[i + 1] == t;
      }
      RaisedOnce(q, rest);
      ReportsAgree(p.handlers, q.handlers, rest);
    }
  }

  /** No signal is listed twice. */
  lemma {:induction false} AscendingLength(x: set<nat>, k: nat)
    ensures |Ascending(x, k)| <= |x|
    decreases NSIG - k
  {
    if k < NSIG {
      AscendingLength(x - {k}, k + 1);
      AscendingSame(x, x - {k}, k + 1);
    }
  }

  lemma {:induction false} AscendingSame(x: set<nat>, y: set<nat>, k: nat)
    requires forall s :: k <= s ==> (s in x <==> s in y)
    ensures Ascending(x, k) == Ascending(y, k)
    decreases NSIG - k
  {
    if k < NSIG { AscendingSame(x, y, k + 1); }
  }

  lemma {:induction false} AscendingDistinct(x: set<nat>, k: nat)
    ensures Distinct(Ascending(x, k))
    decreases NSIG - k
  {
    if k < NSIG {
      AscendingDistinct(x, k + 1);
      AscendingElements(x, k + 1);
    }
  }

  function EventSignal(e: Event): nat {
    match e
    case Ran(s, _) => s
    case Terminated(s) => s
  }

  /** How often the log shows signal s. */
  function Count(s: nat, log: seq<Event>): nat {
    if log == [] then 0 else (if EventSignal(log[|log| - 1]) == s then 1 else 0) + Count(s, log[..|log| - 1])
  }

  lemma {:induction false} CountJoin(s: nat, a: seq<Event>, b: seq<Event>)
    ensures Count(s, a + b) == Count(s, a) + Count(s, b)
    decreases |b|
  {
    if b == [] {
      assert a + b == a;
    } else {
      assert (a + b)[..|a + b| - 1] == a + b[..|b| - 1];
      CountJoin(s, a, b[..|b| - 1]);
    }
  }

  lemma {:induction false} CountReports(s: nat, handlers: map<nat, Handler>, signals: seq<nat>)
    requires Distinct(signals) && forall t :: t in signals ==> t in handlers
    ensures Count(s, Reports(handlers, signals)) == if s in signals && handlers[s] != Ignore then 1 else 0
  {
    if signals != [] {
      var t, rest := signals[0], signals[1..];
      CountReports(s, handlers, rest);
      var head := if handlers[t] == Ignore then []
                  else if handlers[t] == Default then [Terminated(t)]
                  else [Ran(t, handlers[t])];
      CountJoin(s, head, Reports(handlers, rest));
      assert s in signals <==> s == t || s in rest;
      assert s == t ==> s !in rest;
    }
  }

  /**
    A change of the mask delivers every pending signal that it unblocks exactly once,
    delivers no other signal, and leaves exactly the other pending signals pending.
   */
  lemma UnblockingDeliversOnce(p: Posix, mask: set<nat>)
    requires Proper(p) && forall s :: s in p.handlers ==> s < NSIG
    ensures var signals := Ascending(p.pending - mask, 0);
            && (forall s :: s in signals ==> s in p.handlers)
            && var q := RaiseAll(Remask(p, mask), signals);
            && q.mask == mask && q.pending == p.pending * mask
            && forall s :: Count(s, q.log) == Count(s, p.log) +
                             if s in p.pending - mask && p.handlers[s] != Ignore then 1 else 0
  {
    var signals := Ascending(p.pending - mask, 0);
    AscendingElements(p.pending - mask, 0);
    AscendingDistinct(p.pending - mask, 0);
    RaisedOnce(Remask(p, mask), signals);
    forall s ensures Count(s, p.log + Reports(p.handlers, signals)) == Count(s, p.log) +
                       if s in p.pending - mask && p.handlers[s] != Ignore then 1 else 0 {
      CountJoin(s, p.log, Reports(p.handlers, signals));
      CountReports(s, p.handlers, signals);
    }
  }

  // ------------------------------------------------------ laws of whole runs

  ghost predicate SoundWorld(w: World) {
    && Proper(w.posix)
    && (forall s :: s in w.posix.handlers ==> s < NSIG)
    && forall f, s :: f in w.frames && s in f ==> s in w.posix.handlers
  }

  lemma NextIsSound(w: World, step: Step)
    requires SoundWorld(w) && Allowed(step)
    ensures SoundWorld(Next(w, step)) && Next(w, step).posix.handlers.Keys == w.posix.handlers.Keys
  {
    hide Deliver, Ascending, NewMask;
    var p := w.posix;
    match step
    case Change(operation, operand) =>
      NewMaskIsHandled(p, operation, Operand(operand));
      AscendingElements(p.pending - NewMask(p, operation, Operand(operand)), 0);
    case Replace(sig, handler) =>
    case Arrival(sig) => if sig in p.handlers { DeliverKeeps(p, sig); }
    case Continue =>
      if w.frames != [] && w.frames[0] != [] {
        assert w.frames[0] in w.frames && w.frames[0][0] in w.frames[0];
        DeliverKeeps(p, w.frames[0][0]);
      }
  }

  lemma NewMaskIsHandled(p: Posix, operation: int, operand: Option<set<nat>>)
    requires Proper(p)
    ensures NewMask(p, operation, operand) <= p.handlers.Keys
  {}

  lemma {:induction false} ExecIsSound(w: World, steps: seq<Step>)
    requires SoundWorld(w) && forall i :: 0 <= i < |steps| ==> Allowed(steps[i])
    ensures SoundWorld(Exec(w, steps)) && Exec(w, steps).posix.handlers.Keys == w.posix.handlers.Keys
    decreases |steps|
  {
    hide SoundWorld, Next;
    if steps != [] {
      ExecIsSound(w, steps[..|steps| - 1]);
      NextIsSound(Exec(w, steps[..|steps| - 1]), steps[|steps| - 1]);
    }
  }

  function Arrivals(s: nat, steps: seq<Step>): nat {
    if steps == [] then 0
    else (if steps[|steps| - 1] == Arrival(s) then 1 else 0) + Arrivals(s, steps[..|steps| - 1])
  }

  function Occurrences(s: nat, signals: seq<nat>): nat {
    if signals == [] then 0 else (if signals[0] == s then 1 else 0) + Occurrences(s, signals[1..])
  }

  function Owed(s: nat, frames: seq<seq<nat>>): nat {
    if frames == [] then 0 else Occurrences(s, frames[0]) + Owed(s, frames[1..])
  }

  /** Signals seen, waiting in the pending set, or owed by a sigprocmask in progress. */
  ghost function Accounted(s: nat, w: World): nat {
    Count(s, w.posix.log) + (if s in w.posix.pending then 1 else 0) + Owed(s, w.frames)
  }

  lemma {:induction false} OccurrencesOnce(s: nat, x: set<nat>, k: nat)
    ensures Occurrences(s, Ascending(x, k)) == if s in x && k <= s < NSIG then 1 else 0
    decreases NSIG - k
  {
    if k < NSIG {
      OccurrencesOnce(s, x, k + 1);
      assert k in x ==> Ascending(x, k)[1..] == Ascending(x, k + 1);
    }
  }

  lemma DeliverAccounts(s: nat, p: Posix, t: nat)
    requires t in p.handlers
    ensures var q := Deliver(p, t);
            Count(s, q.log) + (if s in q.pending then 1 else 0)
            <= Count(s, p.log) + (if s in p.pending then 1 else 0) + if s == t then 1 else 0
  {
    var q := Deliver(p, t);
    if q.log != p.log { assert q.log[..|q.log| - 1] == p.log; }
  }

  lemma NextAccounts(s: nat, w: World, step: Step)
    requires SoundWorld(w)
    ensures Accounted(s, Next(w, step)) <= Accounted(s, w) + if step == Arrival(s) then 1 else 0
  {
    hide Deliver, Ascending, NewMask, Count, Elements;
    var p, frames := w.posix, w.frames;
    match step
    case Change(operation, operand) =>
      var released := p.pending - NewMask(p, operation, Operand(operand));
      OccurrencesOnce(s, released, 0);
      assert ([Ascending(released, 0)] + frames)[1..] == frames;
    case Replace(sig, handler) =>
    case Arrival(sig) => if sig in p.handlers { DeliverAccounts(s, p, sig); }
    case Continue =>
      if frames != [] && frames[0] != [] {
        assert frames[0] in frames && frames[0][0] in frames[0];
        DeliverAccounts(s, p, frames[0][0]);
        assert ([frames[0][1..]] + frames[1..])[1..] == frames[1..];
      }
  }

  /** In no run is a signal seen, or about to be seen, more often than it arrived. */
  lemma {:induction false} NothingInvented(s: nat, w: World, steps: seq<Step>)
    requires SoundWorld(w) && forall i :: 0 <= i < |steps| ==> Allowed(steps[i])
    ensures Accounted(s, Exec(w, steps)) <= Accounted(s, w) + Arrivals(s, steps)
    decreases |steps|
  {
    hide SoundWorld, Next, Accounted;
    if steps != [] {
      var before := steps[..|steps| - 1];
      NothingInvented(s, w, before);
      ExecIsSound(w, before);
      NextAccounts(s, Exec(w, before), steps[|steps| - 1]);
    }
  }

  /** A signal that has arrived and has not been seen yet. */
  ghost predicate Waits(s: nat, w: World) {
    s in w.posix.pending || Owed(s, w.frames) > 0
  }

  ghost predicate Ignored(s: nat, w: World) {
    s in w.posix.handlers && w.posix.handlers[s] == Ignore
  }

  lemma DeliverShows(s: nat, p: Posix, t: nat)
    requires t in p.handlers
    ensures Count(s, p.log) <= Count(s, Deliver(p, t).log)
    ensures s in p.pending ==> s in Deliver(p, t).pending
    ensures s == t && p.handlers[s] != Ignore ==>
              s in Deliver(p, t).pending || Count(s, p.log) < Count(s, Deliver(p, t).log)
  {
    var q := Deliver(p, t);
    if q.log != p.log { assert q.log[..|q.log| - 1] == p.log; }
  }

  /** One step does not lose a signal that waits, unless it is ignored. */
  lemma NextKeeps(s: nat, w: World, step: Step)
    requires SoundWorld(w)
    ensures Count(s, w.posix.log) <= Count(s, Next(w, step).posix.log)
    ensures Waits(s, w) && !Ignored(s, w) ==>
              Waits(s, Next(w, step)) || Count(s, w.posix.log) < Count(s, Next(w, step).posix.log)
  {
    hide Deliver, Ascending, NewMask, Count, Elements;
    var p, frames := w.posix, w.frames;
    match step
    case Change(operation, operand) =>
      var released := p.pending - NewMask(p, operation, Operand(operand));
      OccurrencesOnce(s, released, 0);
      assert ([Ascending(released, 0)] + frames)[1..] == frames;
      if s in released { assert s in p.handlers && s < NSIG; }
    case Replace(sig, handler) =>
    case Arrival(sig) => if sig in p.handlers { DeliverShows(s, p, sig); }
    case Continue =>
      if frames != [] && frames[0] != [] {
        assert frames[0] in frames && frames[0][0] in frames[0];
        DeliverShows(s, p, frames[0][0]);
        assert ([frames[0][1..]] + frames[1..])[1..] == frames[1..];
      }
  }

  /**
    In no run is a signal lost, whatever handlers do between the rounds of a raising loop: one
    that is pending or released goes on waiting until it has been seen, if it is never ignored.
   */
  lemma {:induction false} NothingLost(s: nat, w: World, steps: seq<Step>)
    requires SoundWorld(w) && forall i :: 0 <= i < |steps| ==> Allowed(steps[i])
    requires Waits(s, w) && forall k :: 0 <= k <= |steps| ==> !Ignored(s, Exec(w, steps[..k]))
    ensures Waits(s, Exec(w, steps)) || Count(s, w.posix.log) < Count(s, Exec(w, steps).posix.log)
    ensures Count(s, w.posix.log) <= Count(s, Exec(w, steps).posix.log)
    decreases |steps|
  {
    hide SoundWorld, Next, Waits, Ignored, Count;
    if steps != [] {
      var n := |steps| - 1;
      var before := steps[..n];
      assert before[..n] == before;
      forall k | 0 <= k <= n ensures !Ignored(s, Exec(w, before[..k])) { assert before[..k] == steps[..k]; }
      NothingLost(s, w, before);
      ExecIsSound(w, before);
      NextKeeps(s, Exec(w, before), steps[n]);
    }
  }

  /**
    Both halves: a signal that waits once and does not arrive again is seen exactly once over
    any run in which it is never ignored, if it is seen at all, and else it still waits.
   */
  lemma SeenExactlyOnce(s: nat, w: World, steps: seq<Step>)
    requires SoundWorld(w) && forall i :: 0 <= i < |steps| ==> Allowed(steps[i])
    requires (if s in w.posix.pending then 1 else 0) + Owed(s, w.frames) == 1 && Arrivals(s, steps) == 0
    requires forall k :: 0 <= k <= |steps| ==> !Ignored(s, Exec(w, steps[..k]))
    ensures Count(s, Exec(w, steps).posix.log)
            == Count(s, w.posix.log) + if Waits(s, Exec(w, steps)) then 0 else 1
  {
    hide SoundWorld, Exec, Count, Owed;
    NothingInvented(s, w, steps);
    NothingLost(s, w, steps);
  }

  // -------------------------------------------------- what the operations mean

  /** Which signals are blocked after each operation; the set may be absent. */
  lemma MaskAfter(w: World, operation: int, operand: Option<nat>, s: nat)
    requires Proper(w.posix) && s in w.posix.handlers
    ensures var after := Next(w, Change(operation, operand)).posix.mask;
            && (operand.None? ==> (s in after <==> s in w.posix.mask))
            && (operand.Some? ==>
                  var x := Elements(operand.value);
                  && (operation == 0 ==> (s in after <==> s in w.posix.mask || s in x))
                  && (operation == 1 ==> (s in after <==> s in x))
                  && (operation == 2 ==> (s in after <==> s in w.posix.mask && s !in x)))
            && (operation !in {0, 1, 2} ==> (s in after <==> s in w.posix.mask))
  {
    hide Elements, Ascending;
  }

  /** What a change of the mask does besides: the signals it unblocks are set aside to be raised, in ascending order. */
  lemma ChangeReleases(w: World, operation: int, operand: Option<nat>)
    requires SoundWorld(w)
    ensures var r := Next(w, Change(operation, operand));
            && r.posix.mask <= w.posix.handlers.Keys
            && r.posix.handlers == w.posix.handlers && r.posix.log == w.posix.log
            && (forall s :: s in r.posix.pending <==> s in w.posix.pending && s in r.posix.mask)
            && |r.frames| == |w.frames| + 1 && r.frames[1..] == w.frames
            && (forall s :: s in r.frames[0] <==> s in w.posix.pending && s !in r.posix.mask)
            && Sorted(r.frames[0])
  {
    hide Ascending, Elements;
    var mask := NewMask(w.posix, operation, Operand(operand));
    NewMaskIsHandled(w.posix, operation, Operand(operand));
    AscendingElements(w.posix.pending - mask, 0);
    AscendingSorted(w.posix.pending - mask, 0);
    assert ([Ascending(w.posix.pending - mask, 0)] + w.frames)[1..] == w.frames;
  }

  predicate Sorted(signals: seq<nat>) {
    forall i, j :: 0 <= i < j < |signals| ==> signals[i] < signals[j]
  }

  lemma {:induction false} AscendingSorted(x: set<nat>, k: nat)
    ensures Sorted(Ascending(x, k))
    decreases NSIG - k
  {
    if k < NSIG {
      AscendingSorted(x, k + 1);
      AscendingElements(x, k + 1);
      var rest := Ascending(x, k + 1);
      assert forall i :: 0 <= i < |rest| ==> rest[i] in rest;
    }
  }

  /** Blocking signals that are not blocked, and then unblocking them, restores the mask. */
  lemma BlockedAndUnblocked(w: World, x: nat)
    requires SoundWorld(w) && w.posix.mask * Elements(x) == {}
    ensures Exec(w, [Change(SIG_BLOCK, Some(x)), Change(SIG_UNBLOCK, Some(x))]).posix.mask == w.posix.mask
  {
    hide Elements, Ascending;
    var a, b := Change(SIG_BLOCK, Some(x)), Change(SIG_UNBLOCK, Some(x));
    assert [a, b][..1] == [a] && [a][..0] == [];
    assert Exec(w, [a]) == Next(w, a);
    NextIsProper(w, a);
    NextIsProper(Next(w, a), b);
    forall s ensures s in Next(Next(w, a), b).posix.mask <==> s in w.posix.mask {
      assert s in w.posix.mask && s in Elements(x) ==> s in w.posix.mask * Elements(x);
      if s in w.posix.handlers {
        MaskAfter(w, SIG_BLOCK, Some(x), s);
        MaskAfter(Next(w, a), SIG_UNBLOCK, Some(x), s);
      }
    }
  }

  lemma NextIsProper(w: World, step: Step)
    requires Proper(w.posix) && step.Change?
    ensures Proper(Next(w, step).posix) && Next(w, step).posix.handlers == w.posix.handlers
  {
    hide Elements, Ascending;
  }

  /** The handler that is installed is what the next installation reports, and no other changes. */
  lemma InstalledOnce(p: Posix, sig: int, h: Handler, h': Handler)
    requires Proper(p) && forall s :: s in p.handlers ==> s < NSIG && s != SIGABRT_COMPAT
    ensures var s := if sig == 6 then 22 else sig;
            var accepted := 0 <= sig < NSIG && h != Error && s in p.handlers;
            var q, was := Install(p, sig, h).0, Install(p, sig, h).1;
            && (accepted ==> was == p.handlers[s] && q.handlers.Keys == p.handlers.Keys && q.handlers[s] == h)
            && (accepted && h' != Error ==> Install(q, sig, h').1 == h)
            && (!accepted ==> was == Error && q == p)
            && (forall t :: t in p.handlers && t != s ==> t in q.handlers && q.handlers[t] == p.handlers[t])
            && q.mask == p.mask && q.pending == p.pending && q.log == p.log
  {}

  /**
    Two arrivals, neither blocked.  The handler of a signal runs for the first only, since it
    is uninstalled, but for SIGPIPE it runs for both.
   */
  lemma ArrivesTwice(w: World, s: nat)
    requires s in w.posix.handlers && s !in w.posix.mask
    ensures var h, r := w.posix.handlers[s], Exec(w, [Arrival(s), Arrival(s)]).posix;
            && r.mask == w.posix.mask && r.pending == w.posix.pending
            && (h == Ignore ==> r == w.posix)
            && (h == Default ==>
                  r.log == w.posix.log + [Terminated(s), Terminated(s)] && r.handlers == w.posix.handlers)
            && (h != Ignore && h != Default ==>
                  r.log == w.posix.log + [Ran(s, h), if s == 13 then Ran(s, h) else Terminated(s)]
                  && r.handlers == if s == 13 then w.posix.handlers else w.posix.handlers[s := Default])
  {
    var a := Arrival(s);
    assert [a, a][..1] == [a] && [a][..0] == [];
    assert Exec(w, [a]) == Next(w, a);
  }

  /** Two arrivals of a blocked signal leave it pending once, and nothing else changes. */
  lemma ArrivesBlocked(w: World, s: nat)
    requires s in w.posix.handlers && s in w.posix.mask
    ensures Exec(w, [Arrival(s), Arrival(s)]) == w.(posix := w.posix.(pending := w.posix.pending + {s}))
  {
    var a := Arrival(s);
    assert [a, a][..1] == [a] && [a][..0] == [];
    assert Exec(w, [a]) == Next(w, a);
  }

  /**
    A signal that a sigprocmask unblocks is seen exactly once, or still waits, over every run
    that begins with the call, whatever the handlers do that the call runs.
   */
  lemma UnblockedIsSeenOnce(s: nat, w: World, change: Step, x: nat, steps: seq<Step>)
    requires SoundWorld(w) && IsSigset(x) && forall i :: 0 <= i < |steps| ==> Allowed(steps[i])
    requires s in w.posix.pending && Owed(s, w.frames) == 0 && Arrivals(s, steps) == 0
    requires || (change == Change(SIG_UNBLOCK, Some(x)) && s in Elements(x))
             || (change == Change(SIG_SETMASK, Some(x)) && s !in Elements(x))
    requires forall k :: 0 <= k <= |steps| ==> !Ignored(s, Exec(Next(w, change), steps[..k]))
    ensures var v := Exec(Next(w, change), steps);
            Count(s, v.posix.log) == Count(s, w.posix.log) + if Waits(s, v) then 0 else 1
  {
    hide Exec, Count, Ascending, NewMask, Elements, Ignored, Waits;
    MaskAfter(w, change.operation, Some(x), s);
    var mask := NewMask(w.posix, change.operation, Operand(change.operand));
    var released := w.posix.pending - mask;
    OccurrencesOnce(s, released, 0);
    assert ([Ascending(released, 0)] + w.frames)[1..] == w.frames;
    NextIsSound(w, change);
    SeenExactlyOnce(s, Next(w, change), steps);
  }

  /** While a signal stays blocked none of its handlers runs, and an arrival is remembered. */
  lemma {:induction false} BlockedIsHeld(s: nat, w: World, steps: seq<Step>)
    requires SoundWorld(w) && forall i :: 0 <= i < |steps| ==> Allowed(steps[i])
    requires forall k :: 0 <= k <= |steps| ==> s in Exec(w, steps[..k]).posix.mask
    ensures Count(s, Exec(w, steps).posix.log) == Count(s, w.posix.log)
    ensures s in Exec(w, steps).posix.pending <== s in w.posix.pending || Arrival(s) in steps
    decreases |steps|
  {
    hide SoundWorld, Next;
    if steps == [] {
    } else {
      var n := |steps| - 1;
      var before, last := steps[..n], steps[n];
      forall k | 0 <= k <= n ensures s in Exec(w, before[..k]).posix.mask {
        assert before[..k] == steps[..k];
      }
      BlockedIsHeld(s, w, before);
      ExecIsSound(w, before);
      assert before[..n] == before && steps[..n + 1] == steps;
      BlockedStep(s, Exec(w, before), last);
      assert steps == before + [last];
    }
  }

  lemma BlockedStep(s: nat, w: World, step: Step)
    requires SoundWorld(w) && s in w.posix.mask && s in Next(w, step).posix.mask
    ensures Count(s, Next(w, step).posix.log) == Count(s, w.posix.log)
    ensures s in Next(w, step).posix.pending <== s in w.posix.pending || step == Arrival(s)
  {
    hide NewMask, Ascending, Elements;
    var p, q := w.posix, Next(w, step).posix;
    if step.Continue? && w.frames != [] && w.frames[0] != [] {
      assert w.frames[0] in w.frames && w.frames[0][0] in w.frames[0];
    }
    if q.log != p.log {
      assert q.log[..|q.log| - 1] == p.log;
      assert EventSignal(q.log[|q.log| - 1]) != s;
    }
  }

  /** Left to itself, a sigprocmask in progress finishes as SigProcMask does. */
  lemma {:induction false} ContinueFinishes(p: Posix, signals: seq<nat>, frames: seq<seq<nat>>, steps: seq<Step>)
    requires forall s :: s in signals ==> s in p.handlers
    requires |steps| == |signals| + 1 && forall i :: 0 <= i < |steps| ==> steps[i] == Continue
    ensures Exec(World(p, [signals] + frames), steps) == World(RaiseAll(p, signals), frames)
    decreases |signals|
  {
    var w := World(p, [signals] + frames);
    var one := Next(w, Continue);
    ExecFirst(w, steps);
    if signals == [] {
      assert steps[1..] == [];
      assert w.frames[1..] == frames;
    } else {
      assert signals[0] in signals;
      DeliverKeeps(p, signals[0]);
      assert one.frames == [signals[1..]] + frames;
      ContinueFinishes(Deliver(p, signals[0]), signals[1..], frames, steps[1..]);
    }
  }

  lemma {:induction false} ExecFirst(w: World, steps: seq<Step>)
    requires steps != []
    ensures Exec(w, steps) == Exec(Next(w, steps[0]), steps[1..])
    decreases |steps|
  {
    hide Next;
    var n := |steps| - 1;
    if n > 0 {
      ExecFirst(w, steps[..n]);
      assert steps[..n][1..] == steps[1..][..n - 1];
      assert steps[1..][n - 1] == steps[n];
    } else {
      assert steps[..0] == [] && steps[1..] == [];
      assert Exec(w, []) == w;
    }
  }

  // ------------------------------------- the states of the code have these laws

  /** The state of the layer is a sound one, with no sigprocmask in progress. */
  lemma LayerIsSound(layer: SignalLayer)
    requires layer.Valid()
    ensures SoundWorld(World(layer.View(), []))
  {
    layer.ViewIsProper();
  }
}
