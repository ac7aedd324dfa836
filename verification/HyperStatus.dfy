/** Status registers: interrupt masks, and the low bits that the hypervisor keeps clear. */
module HyperStatus {
  import opened HyperState
  import opened HyperSpec
  import opened HyperRuns
  import opened HyperFrames

  predicate HasMask(p: Word, bit: Word)
    requires bit == IRQ_MASK || bit == FIQ_MASK
  {
    p / bit % 2 == 1
  }

  /** The same but for the two mask bits. */
  predicate SameButMasks(p: Word, q: Word) {
    q % 64 == p % 64 && q / 256 == p / 256
  }

  /** A status register is determined by its bits above, at and below the masks. */
  lemma Fields(p: Word, high: nat, i: nat, j: nat, low: nat)
    requires p == 256 * high + 128 * i + 64 * j + low && i < 2 && j < 2 && low < 64
    ensures p / 256 == high && p / IRQ_MASK % 2 == i && p / FIQ_MASK % 2 == j && p % 64 == low && p % 16 == low % 16
  {
    assert p / 128 == 2 * high + i && p / 64 == 4 * high + 2 * i + j;
    assert p % 16 == low % 16 by { assert p == 16 * (16 * high + 8 * i + 4 * j) + low; }
  }

  lemma FieldsOf(p: Word) returns (high: nat, i: nat, j: nat, low: nat)
    ensures p == 256 * high + 128 * i + 64 * j + low && i < 2 && j < 2 && low < 64
    ensures p / 256 == high && p / IRQ_MASK % 2 == i && p / FIQ_MASK % 2 == j && p % 64 == low && p % 16 == low % 16
  {
    high, i, j, low := p / 256, p / 128 % 2, p / 64 % 2, p % 64;
    Fields(p, high, i, j, low);
  }

  lemma IrqMaskWritten(p: Word)
    ensures var q := SetMask(p, IRQ_MASK); SameButMasks(p, q) && HasMask(q, IRQ_MASK) && (HasMask(q, FIQ_MASK) <==> HasMask(p, FIQ_MASK))
    ensures var q := ClearMask(p, IRQ_MASK); SameButMasks(p, q) && !HasMask(q, IRQ_MASK) && (HasMask(q, FIQ_MASK) <==> HasMask(p, FIQ_MASK))
  {
    var h, i, j, l := FieldsOf(p);
    assert SetMask(p, IRQ_MASK) == 256 * h + 128 + 64 * j + l && ClearMask(p, IRQ_MASK) == 256 * h + 64 * j + l;
    Fields(SetMask(p, IRQ_MASK), h, 1, j, l);
    Fields(ClearMask(p, IRQ_MASK), h, 0, j, l);
  }

  lemma FiqMaskWritten(p: Word)
    ensures var q := SetMask(p, FIQ_MASK); SameButMasks(p, q) && HasMask(q, FIQ_MASK) && (HasMask(q, IRQ_MASK) <==> HasMask(p, IRQ_MASK))
    ensures var q := ClearMask(p, FIQ_MASK); SameButMasks(p, q) && !HasMask(q, FIQ_MASK) && (HasMask(q, IRQ_MASK) <==> HasMask(p, IRQ_MASK))
  {
    var h, i, j, l := FieldsOf(p);
    assert SetMask(p, FIQ_MASK) == 256 * h + 128 * i + 64 + l && ClearMask(p, FIQ_MASK) == 256 * h + 128 * i + l;
    Fields(SetMask(p, FIQ_MASK), h, i, 1, l);
    Fields(ClearMask(p, FIQ_MASK), h, i, 0, l);
  }

  lemma MaskedBits(p: Word, irq: bool, fiq: bool, set_: bool)
    ensures var q := Masked(p, irq, fiq, set_);
      && SameButMasks(p, q)
      && (HasMask(q, IRQ_MASK) <==> if irq then set_ else HasMask(p, IRQ_MASK))
      && (HasMask(q, FIQ_MASK) <==> if fiq then set_ else HasMask(p, FIQ_MASK))
  {
    IrqMaskWritten(p);
    hide SetMask, ClearMask;
    FiqMaskWritten(if !irq then p else if set_ then SetMask(p, IRQ_MASK) else ClearMask(p, IRQ_MASK));
    hide HasMask;
  }

  /** What an operation of `hypercall_interrupt_set` makes of a mask: 1 clears the chosen, 0 sets them, 2 copies the choice. */
  predicate MaskAfter(op: Word, chosen: bool, before: bool) {
    if op == 2 then chosen else if chosen then op == 0 else before
  }

  /**
   * `hypercall_interrupt_set` with a known operation changes nothing but the two mask bits of the current mode,
   * and leaves each as the operation says; any other operation stops the machine.
   */
  lemma InterruptSetMasks(s: Vm, interrupt: Word, op: Word)
    requires WellFormed(s)
    ensures var t := InterruptSet(s, interrupt, op);
      if op > 2 then t == Panic(s)
      else
        var c, p, q := Ctx(s, s.current), Ctx(s, s.current).psr, Ctx(t, s.current).psr;
        && t == s.(modes := s.modes[s.current := s.modes[s.current].(ctx := c.(psr := q))])
        && SameButMasks(p, q)
        && (HasMask(q, IRQ_MASK) <==> MaskAfter(op, HasMask(interrupt, IRQ_MASK), HasMask(p, IRQ_MASK)))
        && (HasMask(q, FIQ_MASK) <==> MaskAfter(op, HasMask(interrupt, FIQ_MASK), HasMask(p, FIQ_MASK)))
  {
    var p := Ctx(s, s.current).psr;
    var irq, fiq := interrupt / IRQ_MASK % 2 == 1, interrupt / FIQ_MASK % 2 == 1;
    MaskedBits(p, irq, fiq, op != 1);
    MaskedBits(p, true, true, false);
    MaskedBits(Masked(p, true, true, false), irq, fiq, true);
    hide Masked;
  }

  // ----- the low bits

  predicate LowClear(p: Word) {
    p % 16 == 0
  }

  /** All saved status registers have their low four bits clear. */
  ghost predicate AllLowClear(s: Vm) {
    forall m | 0 <= m < |s.modes| :: LowClear(s.modes[m].ctx.psr)
  }

  /** Code of a guest leaves the low bits of its status register clear. */
  predicate KeepsLow(e: Event) {
    e.Guest? ==> LowClear(e.ctx.psr)
  }

  lemma LowWritten(p: Word)
    ensures LowClear(ForceUser(p))
    ensures LowClear(p) ==> ForceUser(p) == p
    ensures LowClear(p) ==> LowClear(SetMask(p, IRQ_MASK)) && LowClear(ClearMask(p, IRQ_MASK))
  {
    IrqMaskWritten(p);
    ForcedUser(p);
    SameLow(p, SetMask(p, IRQ_MASK));
    SameLow(p, ClearMask(p, IRQ_MASK));
  }

  lemma SameLow(p: Word, q: Word)
    requires SameButMasks(p, q)
    ensures LowClear(p) <==> LowClear(q)
  {
    var _, _, _, l := FieldsOf(p);
    var _, _, _, m := FieldsOf(q);
  }

  lemma LowMasked(p: Word, irq: bool, fiq: bool, set_: bool)
    requires LowClear(p)
    ensures LowClear(Masked(p, irq, fiq, set_))
  {
    MaskedBits(p, irq, fiq, set_);
    SameLow(p, Masked(p, irq, fiq, set_));
  }

  /** Replacing one mode's registers keeps the status registers, if the new one has its low bits clear. */
  lemma WithCtxLow(s: Vm, m: int, c: Context)
    requires WellFormed(s) && AllLowClear(s) && IsMode(m) && LowClear(c.psr)
    ensures AllLowClear(WithCtx(s, m, c))
  {
  }

  lemma {:induction false} StepKeepsLow(s: Vm, e: Event)
    requires Inv(s) && AllLowClear(s) && KeepsLow(e)
    ensures AllLowClear(Step(s, e))
  {
    hide Inv, AllLowClear, LowClear, SetMask, ClearMask, ForceUser, W, Load, LoadWords, StoreWords, DomainAc, Words, SyscallFrame, AbortRegisters;
    assert WellFormed(s) by { InvWellFormed(s); }
    hide WellFormed;
    if !s.halted {
      match e
      case Call(p0, p1, number) => CallKeepsLow(s, p0, p1, number);
      case PrefetchAbort(addr, status) => AbortKeepsLow(s, addr, status, false);
      case DataAbort(addr, status) => AbortKeepsLow(s, addr, status, true);
      case Interrupt(irq) => IrqKeepsLow(s, irq);
      case Guest(ctx, memory) =>
        SameModes(s, s.(memory := memory));
        WithCtxLow(s.(memory := memory), s.current, ctx);
      case Boot(vector, nrSyscalls, memory) => SameModes(s, Step(s, e));
    }
  }

  lemma InvWellFormed(s: Vm)
    requires Inv(s)
    ensures WellFormed(s)
  {
  }

  lemma SameModes(s: Vm, t: Vm)
    requires t.modes == s.modes && t.current == s.current && t.interrupted == s.interrupted
    ensures WellFormed(s) ==> WellFormed(t)
    ensures AllLowClear(s) ==> AllLowClear(t)
  {
  }

  lemma IrqKeepsLow(s: Vm, irq: Word)
    requires WellFormed(s) && AllLowClear(s)
    ensures AllLowClear(Irq(s, irq))
  {
    hide W, Load, DomainAc, SetMask;
    LowWritten(Ctx(s, INTERRUPT).psr);
  }

  lemma AbortKeepsLow(s: Vm, addr: Word, status: Word, data: bool)
    requires WellFormed(s) && AllLowClear(s)
    ensures AllLowClear(AbortEntry(s, addr, status, data))
  {
    hide W, Load, DomainAc, SetMask, ClearMask, StoreWords, Words, AbortRegisters;
    LowWritten(Ctx(s, KERNEL).psr);
  }

  lemma SyscallKeepsLow(s: Vm)
    requires WellFormed(s) && AllLowClear(s)
    ensures AllLowClear(SyscallEntry(s))
  {
    hide W, Load, DomainAc, SetMask, ClearMask, StoreWords, Words, SyscallFrame;
    LowWritten(Ctx(s, KERNEL).psr);
  }

  lemma RestoreKeepsLow(s: Vm, result: Word, syscall: bool)
    requires WellFormed(s) && AllLowClear(s)
    ensures AllLowClear(RestoreLinux(s, result, syscall))
  {
    LowWritten(Load(s.memory, Ctx(s, KERNEL).sp + 4 * (if syscall then 18 else 16)));
    hide W, Load, LoadWords, DomainAc, ForceUser, UserRange, KernelPointer;
  }

  lemma RestoreRegsKeepsLow(s: Vm, regs: Word)
    requires WellFormed(s) && AllLowClear(s)
    ensures AllLowClear(RestoreRegs(s, regs))
  {
    LowWritten(Load(s.memory, regs + 4 * 16));
    hide W, Load, LoadWords, ForceUser, KernelPointer;
  }

  lemma InterruptSetKeepsLow(s: Vm, interrupt: Word, op: Word)
    requires WellFormed(s) && AllLowClear(s)
    ensures AllLowClear(InterruptSet(s, interrupt, op))
  {
    hide Masked;
    var p := Ctx(s, s.current).psr;
    var irq, fiq := interrupt / IRQ_MASK % 2 == 1, interrupt / FIQ_MASK % 2 == 1;
    LowMasked(p, irq, fiq, op != 1);
    LowMasked(p, true, true, false);
    LowMasked(Masked(p, true, true, false), irq, fiq, true);
  }

  lemma RpcKeepsLow(s: Vm, op: Word, arg: Word)
    requires WellFormed(s) && AllLowClear(s)
    ensures AllLowClear(Rpc(s, op, arg)) && AllLowClear(EndRpc(s)) && AllLowClear(EndInterrupt(s))
  {
    hide W, DomainAc;
  }

  lemma CallKeepsLow(s: Vm, p0: Word, p1: Word, number: Word)
    requires WellFormed(s) && AllLowClear(s)
    ensures AllLowClear(Swi(s, p0, p1, number))
  {
    SyscallKeepsLow(s);
    RpcKeepsLow(s, p0, p1);
    InterruptSetKeepsLow(s, p0, p1);
    RestoreKeepsLow(s, p0, p1 != 0);
    RestoreRegsKeepsLow(s, p0);
    SameModes(s, Panic(s));
    hide AllLowClear, SyscallEntry, Rpc, EndRpc, InterruptSet, EndInterrupt, RestoreLinux, RestoreRegs;
  }

  /** In every reachable state all saved status registers have their low four bits clear, as long as guest code keeps its own so. */
  lemma {:induction false} AlwaysLowClear(s: Vm, es: seq<Event>)
    requires Inv(s) && AllLowClear(s) && forall e | e in es :: KeepsLow(e)
    ensures AllLowClear(Run(s, es))
    decreases |es|
  {
    hide Step, AllLowClear, KeepsLow;
    if es != [] {
      StepKeepsLow(s, es[0]);
      StepKeeps(s, es[0]);
      AlwaysLowClear(Step(s, es[0]), es[1..]);
    }
  }

  /** So an abort in a reachable state, and the return from it, give back every register, the status register included. */
  lemma AbortIsTransparent(s0: Vm, es: seq<Event>, addr: Word, status: Word, data: bool, result: Word)
    requires Inv(s0) && AllLowClear(s0) && forall e | e in es :: KeepsLow(e)
    requires var s := Run(s0, es);
      && (s.current == TASK || s.current == KERNEL) && KernelPointer(W(Ctx(s, KERNEL).sp as int - 72))
      && (UserRange(Ctx(s, s.current).pc) <==> s.current == TASK)
    ensures var s := Run(s0, es);
      WellFormed(AbortEntry(s, addr, status, data)) &&
      var u := RestoreLinux(AbortEntry(s, addr, status, data), result, false);
      && u.current == s.current && Ctx(u, u.current) == Ctx(s, s.current) && Ctx(u, KERNEL).sp == Ctx(s, KERNEL).sp
  {
    var s := Run(s0, es);
    AlwaysLowClear(s0, es);
    LowWritten(Ctx(s, s.current).psr);
    hide Run, RestoreLinux, AbortEntry, KernelPointer, UserRange, ForceUser;
    AbortThenReturn(s, addr, status, data, result);
  }
}
