/** Runs of the virtual machine: what holds in every reachable state, and what an entry and its return undo. */
module HyperRuns {
  import opened HyperState
  import opened HyperSpec

  /** `Guest` is code of the current mode, `Boot` the effect of `hypercall_guest_init` on what handlers read. */
  datatype Event =
    | Call(p0: Word, p1: Word, number: Word)
    | PrefetchAbort(addr: Word, status: Word)
    | DataAbort(addr: Word, status: Word)
    | Interrupt(irq: Word)
    | Guest(ctx: Context, memory: Memory)
    | Boot(vector: Word, nrSyscalls: Word, memory: Memory)

  function Step(s: Vm, e: Event): Vm
    requires WellFormed(s)
  {
    if s.halted then s
    else match e
      case Call(p0, p1, number) => Swi(s, p0, p1, number)
      case PrefetchAbort(addr, status) => AbortEntry(s, addr, status, false)
      case DataAbort(addr, status) => AbortEntry(s, addr, status, true)
      case Interrupt(irq) => Irq(s, irq)
      case Guest(ctx, memory) => WithCtx(s.(memory := memory), s.current, ctx)
      case Boot(vector, nrSyscalls, memory) => s.(vector := vector, nrSyscalls := nrSyscalls, memory := memory)
  }

  ghost predicate Inv(s: Vm) {
    && WellFormed(s)
    && s.domain == DomainAc(s.current)
    && s.modes[TRUSTED].rpcFor != TRUSTED
    && (s.current == TRUSTED || s.interrupted == TRUSTED ==> s.modes[TRUSTED].rpcFor != MODE_NONE)
    && (s.current == TRUSTED ==> s.interrupted != TRUSTED)
    && s.interrupted != INTERRUPT
    && forall m | 0 <= m < MODES ::
         && (m != TRUSTED ==> s.modes[m].rpcFor == MODE_NONE)
         && s.modes[m].rpcTo == (if s.modes[TRUSTED].rpcFor == m then TRUSTED else MODE_NONE)
  }

  /** The calls under way, mode by mode. */
  function Calls(s: Vm): seq<(int, int)> {
    seq(|s.modes|, i requires 0 <= i < |s.modes| => (s.modes[i].rpcFor, s.modes[i].rpcTo))
  }

  /** The invariant reads nothing of the register contexts or the memory. */
  lemma OnlyControlMatters(s: Vm, t: Vm)
    requires Inv(s) && WellFormed(t) && Calls(t) == Calls(s)
    requires t.interrupted == s.interrupted && t.domain == DomainAc(t.current)
    requires t.current == s.current || t.current != TRUSTED
    ensures Inv(t)
  {
    forall m | 0 <= m < MODES ensures t.modes[m].rpcFor == s.modes[m].rpcFor && t.modes[m].rpcTo == s.modes[m].rpcTo {
      assert Calls(t)[m] == Calls(s)[m];
    }
  }

  // ----- every step and every run

  lemma {:induction false} StepKeeps(s: Vm, e: Event)
    requires Inv(s)
    ensures Inv(Step(s, e))
  {
    hide W, Load, LoadWords, StoreWords, DomainAc, Words, FromWords, ForceUser, SetMask, ClearMask, UserRange;
    hide KernelPointer, Masked, SyscallContext, AbortContext, AbortRegisters, SyscallFrame;
    if !s.halted {
      match e
      case Call(p0, p1, number) => CallKeeps(s, p0, p1, number);
      case PrefetchAbort(addr, status) => OnlyControlMatters(s, Step(s, e));
      case DataAbort(addr, status) => OnlyControlMatters(s, Step(s, e));
      case Interrupt(irq) =>
      case Guest(ctx, memory) => OnlyControlMatters(s, Step(s, e));
      case Boot(vector, nrSyscalls, memory) => OnlyControlMatters(s, Step(s, e));
    }
  }

  lemma CallKeeps(s: Vm, p0: Word, p1: Word, number: Word)
    requires Inv(s)
    ensures Inv(Swi(s, p0, p1, number))
  {
    hide Inv, RestoreLinux, RestoreRegs, SyscallEntry, InterruptSet, Rpc, EndRpc, EndInterrupt;
    if number == HYPERCALL_RPC {
      RpcKeeps(s, p0, p1);
    } else if number == HYPERCALL_END_RPC {
      EndRpcKeeps(s);
    } else if s.current != TASK && number == HYPERCALL_END_INTERRUPT {
      EndInterruptKeeps(s);
    } else {
      OthersKeep(s, p0, p1, number);
    }
  }

  lemma RpcKeeps(s: Vm, op: Word, arg: Word)
    requires Inv(s)
    ensures Inv(Rpc(s, op, arg))
  {
    hide W, DomainAc;
  }

  lemma EndRpcKeeps(s: Vm)
    requires Inv(s)
    ensures Inv(EndRpc(s))
  {
    hide W, DomainAc;
  }

  lemma EndInterruptKeeps(s: Vm)
    requires Inv(s)
    ensures Inv(EndInterrupt(s))
  {
    hide W, DomainAc;
  }

  lemma OthersKeep(s: Vm, p0: Word, p1: Word, number: Word)
    requires Inv(s) && number != HYPERCALL_RPC && number != HYPERCALL_END_RPC
    requires s.current == TASK || number != HYPERCALL_END_INTERRUPT
    ensures Inv(Swi(s, p0, p1, number))
  {
    hide W, Load, LoadWords, StoreWords, DomainAc, Words, FromWords, ForceUser, SetMask, ClearMask, UserRange;
    hide KernelPointer, Masked, SyscallContext, AbortContext, AbortRegisters, SyscallFrame;
    OnlyControlMatters(s, Swi(s, p0, p1, number));
  }

  function Run(s: Vm, es: seq<Event>): (t: Vm)
    requires Inv(s)
    ensures Inv(t)
    decreases |es|
  {
    if es == [] then s
    else
      StepKeeps(s, es[0]);
      Run(Step(s, es[0]), es[1..])
  }

  /** The virtual machine as `start_guest` leaves it. */
  ghost predicate Initial(s: Vm) {
    && |s.modes| == MODES && s.current == KERNEL && s.interrupted == MODE_NONE && s.domain == DomainAc(KERNEL)
    && forall m | 0 <= m < MODES :: s.modes[m].rpcFor == MODE_NONE && s.modes[m].rpcTo == MODE_NONE
  }

  /** What holds after any run at all of guest code, calls, aborts and interrupts. */
  lemma AlwaysSafe(s0: Vm, es: seq<Event>)
    requires Initial(s0)
    ensures var s := Run(s0, es);
      && (forall m, n | IsMode(m) && IsMode(n) && s.modes[m].rpcTo != MODE_NONE && s.modes[n].rpcTo != MODE_NONE :: m == n)
      && (forall m | IsMode(m) :: s.modes[m].rpcTo == TRUSTED <==> s.modes[TRUSTED].rpcFor == m)
      && (s.current == TRUSTED || s.interrupted == TRUSTED ==>
            exists m :: IsMode(m) && m != TRUSTED && s.modes[m].rpcTo == TRUSTED)
      && s.interrupted != INTERRUPT
      && (Opens(s.domain, DOM_TRUSTED) <==> s.current == TRUSTED)
      && (Opens(s.domain, DOM_KERNEL) <==> s.current == KERNEL || s.current == INTERRUPT)
      && (Opens(s.domain, DOM_TASK) <==> s.current != TRUSTED)
  {
    var s := Run(s0, es);
    if s.current == TRUSTED || s.interrupted == TRUSTED {
      assert s.modes[s.modes[TRUSTED].rpcFor].rpcTo == TRUSTED;
    }
  }

  lemma InitialIsInv(s: Vm)
    requires Initial(s)
    ensures Inv(s)
  {
  }

  // ----- remote procedure calls over runs

  predicate Outstanding(s: Vm)
    requires WellFormed(s)
  {
    s.modes[TRUSTED].rpcFor != MODE_NONE
  }

  /** Of the three checks in `hypercall_rpc`, two follow from the third. */
  lemma RpcAcceptedIff(s: Vm, op: Word, arg: Word)
    requires Inv(s) && !s.halted
    ensures !Rpc(s, op, arg).halted <==> !Outstanding(s) && op <= 4
  {
    hide W, DomainAc;
  }

  lemma EndRpcAcceptedIff(s: Vm)
    requires Inv(s) && !s.halted
    ensures !EndRpc(s).halted <==> s.current == TRUSTED
  {
    hide W, DomainAc;
  }

  predicate Ends(s: Vm, e: Event) {
    !s.halted && s.current == TRUSTED && e.Call? && e.number == HYPERCALL_END_RPC
  }

  lemma OnlyTrustedEnds(s: Vm, e: Event)
    requires Inv(s) && Outstanding(s)
    ensures Step(s, e).modes[TRUSTED].rpcFor == (if Ends(s, e) then MODE_NONE else s.modes[TRUSTED].rpcFor)
  {
    hide W, Load, LoadWords, StoreWords, DomainAc, Words, FromWords, ForceUser, SetMask, ClearMask, UserRange;
    hide KernelPointer, Masked, SyscallContext, AbortContext, AbortRegisters, SyscallFrame;
  }

  ghost predicate NoneEnds(s: Vm, es: seq<Event>)
    requires Inv(s)
    decreases |es|
  {
    es == [] || (!Ends(s, es[0]) && NoneEnds(Run(s, es[..1]), es[1..]))
  }

  lemma RunOne(s: Vm, es: seq<Event>)
    requires Inv(s) && es != []
    ensures Run(s, es[..1]) == Step(s, es[0]) && Run(s, es) == Run(Run(s, es[..1]), es[1..])
  {
    StepKeeps(s, es[0]);
    assert es[..1][1..] == [];
  }

  lemma {:induction false} StaysOutstanding(s: Vm, es: seq<Event>)
    requires Inv(s) && Outstanding(s) && NoneEnds(s, es)
    ensures Run(s, es).modes[TRUSTED].rpcFor == s.modes[TRUSTED].rpcFor
    decreases |es|
  {
    hide Step;
    if es != [] {
      RunOne(s, es);
      OnlyTrustedEnds(s, es[0]);
      StaysOutstanding(Run(s, es[..1]), es[1..]);
    }
  }

  /** Whatever happens between a call and its end, the end resumes the very mode that called. */
  lemma EndResumesCaller(s: Vm, op: Word, arg: Word, es: seq<Event>, p0: Word, p1: Word)
    requires Inv(s) && !s.halted && !Rpc(s, op, arg).halted
    requires NoneEnds(Rpc(s, op, arg), es)
    ensures var t := Run(Rpc(s, op, arg), es);
      !t.halted && t.current == TRUSTED ==>
        var u := Step(t, Call(p0, p1, HYPERCALL_END_RPC));
        !u.halted && u.current == s.current && u.domain == s.domain && Calls(u) == Calls(s)
  {
    hide W, DomainAc;
    var r := Rpc(s, op, arg);
    assert r.modes[TRUSTED].rpcFor == s.current;
    StaysOutstanding(r, es);
    var t := Run(r, es);
    if !t.halted && t.current == TRUSTED {
      var u := EndRpc(t);
      forall m | 0 <= m < MODES
        ensures u.modes[m].rpcFor == s.modes[m].rpcFor && u.modes[m].rpcTo == s.modes[m].rpcTo
      {
      }
      assert Calls(u) == Calls(s);
    }
  }

  // ----- handlers that run to their end undisturbed

  /** Every state of the run from s is in mode m. */
  ghost predicate Stays(s: Vm, es: seq<Event>, m: int)
    requires Inv(s)
    decreases |es|
  {
    s.current == m && (es == [] || Stays(Run(s, es[..1]), es[1..], m))
  }

  /** As long as the trusted or the interrupt mode stays current, no other mode's registers or calls change. */
  lemma TouchesOnlyItself(s: Vm, e: Event, m: int)
    requires Inv(s) && s.current == m && (m == TRUSTED || m == INTERRUPT) && Step(s, e).current == m
    ensures Step(s, e).interrupted == s.interrupted
    ensures forall n | IsMode(n) && n != m :: Step(s, e).modes[n] == s.modes[n]
    ensures Step(s, e).modes[m].rpcFor == s.modes[m].rpcFor && Step(s, e).modes[m].rpcTo == s.modes[m].rpcTo
  {
    hide W, Load, LoadWords, StoreWords, DomainAc, Words, FromWords, ForceUser, SetMask, ClearMask, UserRange;
    hide KernelPointer, Masked, SyscallContext, AbortContext, AbortRegisters, SyscallFrame;
  }

  lemma {:induction false} HandlerTouchesOnlyItself(s: Vm, es: seq<Event>, m: int)
    requires Inv(s) && Stays(s, es, m) && (m == TRUSTED || m == INTERRUPT)
    ensures var t := Run(s, es);
      && t.current == m && t.interrupted == s.interrupted
      && (forall n | IsMode(n) && n != m :: t.modes[n] == s.modes[n])
      && t.modes[m].rpcFor == s.modes[m].rpcFor && t.modes[m].rpcTo == s.modes[m].rpcTo
    decreases |es|
  {
    hide Step;
    if es != [] {
      RunOne(s, es);
      TouchesOnlyItself(s, es[0], m);
      HandlerTouchesOnlyItself(Run(s, es[..1]), es[1..], m);
    }
  }

  /** An interrupt handled without leaving interrupt mode is invisible to the mode it interrupted. */
  lemma InterruptIsTransparent(s: Vm, irq: Word, es: seq<Event>, p0: Word, p1: Word)
    requires Inv(s) && !s.halted && s.current != INTERRUPT && Stays(Irq(s, irq), es, INTERRUPT)
    ensures var t := Run(Irq(s, irq), es);
      !t.halted ==>
        var u := Step(t, Call(p0, p1, HYPERCALL_END_INTERRUPT));
        && !u.halted && u.current == s.current && u.domain == s.domain && u.interrupted == MODE_NONE
        && Calls(u) == Calls(s)
        && forall m | IsMode(m) && m != INTERRUPT :: u.modes[m] == s.modes[m]
  {
    hide W, DomainAc, Load, SetMask;
    HandlerTouchesOnlyItself(Irq(s, irq), es, INTERRUPT);
  }

  /** So is a remote procedure call to its caller, if the service is not disturbed. */
  lemma RpcIsTransparent(s: Vm, op: Word, arg: Word, es: seq<Event>, p0: Word, p1: Word)
    requires Inv(s) && !s.halted && !Rpc(s, op, arg).halted
    requires Stays(Rpc(s, op, arg), es, TRUSTED)
    ensures var t := Run(Rpc(s, op, arg), es);
      !t.halted ==>
        var u := Step(t, Call(p0, p1, HYPERCALL_END_RPC));
        && !u.halted && u.current == s.current && u.domain == s.domain && u.interrupted == s.interrupted
        && forall m | IsMode(m) && m != TRUSTED :: u.modes[m] == s.modes[m]
  {
    hide W, DomainAc;
    HandlerTouchesOnlyItself(Rpc(s, op, arg), es, TRUSTED);
  }
}
