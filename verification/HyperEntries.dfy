/** What code finds in its registers after each entry, in terms of the call numbers and vector offsets guests use. */
module HyperEntries {
  import opened HyperState
  import opened HyperSpec
  import opened HyperRuns
  import opened HyperFrames
  import opened HyperStatus

  /** The registers of all modes but one, and everything that is not a register or a mode, are as before. */
  ghost predicate OnlyMode(s: Vm, t: Vm, m: int)
    requires WellFormed(s) && WellFormed(t)
  {
    && (forall n | IsMode(n) && n != m :: Ctx(t, n) == Ctx(s, n))
    && t.vector == s.vector && t.nrSyscalls == s.nrSyscalls && t.halted == s.halted
  }

  /** The call to the service: operation and argument in r0 and r1, at the entry point, with interrupts off. */
  lemma RpcDelivers(s: Vm, op: Word, arg: Word)
    requires Inv(s) && !s.halted && !Outstanding(s) && op <= 4
    ensures var t := Step(s, Call(op, arg, 1020));
      && WellFormed(t) && OnlyMode(s, t, TRUSTED) && t.current == TRUSTED && t.memory == s.memory && t.interrupted == s.interrupted
      && var c, before := Ctx(t, TRUSTED), Ctx(s, TRUSTED);
         && c.reg[0] == op && c.reg[1] == arg && c.reg[2..] == before.reg[2..]
         && c.sp == before.sp && c.lr == before.lr && c.pc == 0xF010_0004 && c.psr == 0xD0
  {
    hide W, DomainAc;
    RpcAcceptedIff(s, op, arg);
    StepKeeps(s, Call(op, arg, 1020));
  }

  /** Its end leaves all registers alone; what the service returns lies where caller and service agreed. */
  lemma EndRpcDelivers(s: Vm, p0: Word, p1: Word)
    requires Inv(s) && !s.halted && s.current == TRUSTED
    ensures var t := Step(s, Call(p0, p1, 1021));
      && WellFormed(t) && OnlyMode(s, t, MODES) && t.memory == s.memory && t.interrupted == s.interrupted
      && t.current == s.modes[TRUSTED].rpcFor
      && forall n | IsMode(n) :: t.modes[n].rpcFor == MODE_NONE && t.modes[n].rpcTo == MODE_NONE
  {
    hide W, DomainAc;
    StepKeeps(s, Call(p0, p1, 1021));
  }

  /** The interrupt handler: the number in r0, on the kernel's stack, with further interrupts masked. */
  lemma InterruptDelivers(s: Vm, irq: Word)
    requires WellFormed(s) && !s.halted && s.current != INTERRUPT
    ensures var t := Step(s, Interrupt(irq));
      && WellFormed(t) && OnlyMode(s, t, INTERRUPT) && t.current == INTERRUPT && t.interrupted == s.current && t.memory == s.memory
      && var c, before := Ctx(t, INTERRUPT), Ctx(s, INTERRUPT);
         && c.reg[0] == irq && c.reg[1..] == before.reg[1..] && c.sp == Ctx(s, KERNEL).sp && c.lr == before.lr
         && c.pc == Load(s.memory, s.vector as int + 24)
         && SameButMasks(before.psr, c.psr) && HasMask(c.psr, IRQ_MASK) && (HasMask(c.psr, FIQ_MASK) <==> HasMask(before.psr, FIQ_MASK))
  {
    hide W, DomainAc, Load, SetMask;
    IrqMaskWritten(Ctx(s, INTERRUPT).psr);
  }

  /** An interrupt during the handler only masks. */
  lemma NestedInterrupt(s: Vm, irq: Word)
    requires WellFormed(s) && !s.halted && s.current == INTERRUPT
    ensures var t := Step(s, Interrupt(irq));
      && WellFormed(t) && OnlyMode(s, t, INTERRUPT) && t.current == INTERRUPT && t.interrupted == s.interrupted && t.memory == s.memory
      && var before := Ctx(s, INTERRUPT);
         && Ctx(t, INTERRUPT) == before.(psr := Ctx(t, INTERRUPT).psr)
         && SameButMasks(before.psr, Ctx(t, INTERRUPT).psr) && HasMask(Ctx(t, INTERRUPT).psr, IRQ_MASK)
  {
    hide W, DomainAc, SetMask;
    IrqMaskWritten(Ctx(s, INTERRUPT).psr);
  }

  /** The end of the handler resumes the interrupted mode with its registers. */
  lemma EndInterruptDelivers(s: Vm, p0: Word, p1: Word)
    requires WellFormed(s) && !s.halted && s.current == INTERRUPT && IsMode(s.interrupted)
    ensures var t := Step(s, Call(p0, p1, 1002));
      && WellFormed(t) && OnlyMode(s, t, MODES) && t.memory == s.memory && t.current == s.interrupted && t.interrupted == MODE_NONE
  {
    hide W, DomainAc;
  }

  lemma SyscallKeeps(k: Context, task: Context, sp: Word, m: Memory, vector: Word, nrSyscalls: Word)
    ensures var c := SyscallContext(k, task, sp, m, vector, nrSyscalls);
      c.sp == sp && c.lr == Load(m, vector as int + 36) && c.psr == ClearMask(k.psr, IRQ_MASK)
      && c.reg[7] == task.reg[7] && c.reg[8..] == k.reg[8..]
  {
    hide W, Load, ClearMask;
  }

  lemma SyscallGives(k: Context, task: Context, sp: Word, m: Memory, vector: Word, nrSyscalls: Word)
    ensures var c, nr := SyscallContext(k, task, sp, m, vector, nrSyscalls), task.reg[7];
      c.sp == sp &&
      if nr < nrSyscalls then
        && (forall i | 0 <= i <= 5 :: c.reg[i] == task.reg[i]) && c.reg[6] == k.reg[6]
        && c.pc == Load(m, Load(m, vector as int + 8) as int + 4 * nr as int)
      else
        && c.reg[0] == nr && c.reg[1] == W(sp as int + 8) && (forall i | 2 <= i <= 6 :: c.reg[i] == k.reg[i])
        && c.pc == Load(m, vector as int + 32)
  {
    hide W, Load, ClearMask;
  }

  /** The kernel's registers after a system call, whatever the call number in r7 says. */
  lemma SyscallDelivers(s: Vm, p0: Word, p1: Word, number: Word)
    requires WellFormed(s) && !s.halted && s.current == TASK && number !in {1020, 1021}
    ensures var t := Step(s, Call(p0, p1, number));
      && WellFormed(t) && OnlyMode(s, t, KERNEL) && t.current == KERNEL && t.interrupted == s.interrupted
      && var c, before, nr := Ctx(t, KERNEL), Ctx(s, KERNEL), Ctx(s, TASK).reg[7];
         && c.sp == W(before.sp as int - 80) && c.lr == Load(t.memory, s.vector as int + 36)
         && SameButMasks(before.psr, c.psr) && !HasMask(c.psr, IRQ_MASK) && (HasMask(c.psr, FIQ_MASK) <==> HasMask(before.psr, FIQ_MASK))
         && c.reg[7] == nr && c.reg[8..] == before.reg[8..]
  {
    hide W, DomainAc, Load, StoreWords, SyscallFrame, ClearMask, SyscallContext, HasMask, SameButMasks;
    IrqMaskWritten(Ctx(s, KERNEL).psr);
    var sp := W(Ctx(s, KERNEL).sp as int - 80);
    SyscallKeeps(Ctx(s, KERNEL), Ctx(s, TASK), sp, StoreWords(s.memory, sp, SyscallFrame(Ctx(s, TASK))), s.vector, s.nrSyscalls);
  }

  /** A regular call finds its six arguments and is started from the table; any other is handed over by number and frame. */
  lemma SyscallArguments(s: Vm, p0: Word, p1: Word, number: Word)
    requires WellFormed(s) && !s.halted && s.current == TASK && number !in {1020, 1021}
    ensures var t := Step(s, Call(p0, p1, number));
      && WellFormed(t)
      && var c, before, task, nr := Ctx(t, KERNEL), Ctx(s, KERNEL), Ctx(s, TASK), Ctx(s, TASK).reg[7];
         if nr < s.nrSyscalls then
           && (forall i | 0 <= i <= 5 :: c.reg[i] == task.reg[i]) && c.reg[6] == before.reg[6]
           && c.pc == Load(t.memory, Load(t.memory, s.vector as int + 8) as int + 4 * nr as int)
         else
           && c.reg[0] == nr && c.reg[1] == W(c.sp as int + 8) && (forall i | 2 <= i <= 6 :: c.reg[i] == before.reg[i])
           && c.pc == Load(t.memory, s.vector as int + 32)
  {
    hide W, DomainAc, Load, StoreWords, SyscallFrame, ClearMask, SyscallContext;
    var sp := W(Ctx(s, KERNEL).sp as int - 80);
    SyscallGives(Ctx(s, KERNEL), Ctx(s, TASK), sp, StoreWords(s.memory, sp, SyscallFrame(Ctx(s, TASK))), s.vector, s.nrSyscalls);
  }

  /** The kernel's registers after an abort: fault address, status and frame in r0 to r2. */
  lemma AbortDelivers(s: Vm, addr: Word, status: Word, data: bool)
    requires WellFormed(s) && !s.halted
    ensures var t := Step(s, if data then DataAbort(addr, status) else PrefetchAbort(addr, status));
      && WellFormed(t) && OnlyMode(s, t, KERNEL) && t.current == KERNEL && t.interrupted == s.interrupted
      && var c, before := Ctx(t, KERNEL), Ctx(s, KERNEL);
         && c.sp == W(before.sp as int - 72) && c.reg[0] == addr && c.reg[1] == status && c.reg[2] == c.sp
         && c.reg[3..] == before.reg[3..]
         && c.lr == Load(t.memory, s.vector as int + 40) && c.pc == Load(t.memory, s.vector as int + if data then 16 else 12)
         && SameButMasks(before.psr, c.psr) && (HasMask(c.psr, IRQ_MASK) <==> LowClear(before.psr))
         && (HasMask(c.psr, FIQ_MASK) <==> HasMask(before.psr, FIQ_MASK))
  {
    hide W, DomainAc, Load, StoreWords, Words, AbortRegisters, SetMask, ClearMask;
    IrqMaskWritten(Ctx(s, KERNEL).psr);
  }

  /** Entries write memory only below the kernel's stack pointer. */
  lemma EntryMemory(s: Vm, e: Event, b: int)
    requires WellFormed(s) && !s.halted
    requires e.DataAbort? || e.PrefetchAbort? || (e.Call? && s.current == TASK && e.number !in {1020, 1021})
    requires forall k | 0 <= k < 20 :: W(Ctx(s, KERNEL).sp as int - 80 + 4 * k) != W(b)
    ensures Load(Step(s, e).memory, b) == Load(s.memory, b)
  {
    hide W, Load, StoreWords, DomainAc, SyscallFrame, Words, AbortRegisters, SyscallContext, AbortContext;
    var sp := Ctx(s, KERNEL).sp;
    if e.Call? {
      FrameElsewhere(s.memory, sp, 80, SyscallFrame(Ctx(s, TASK)), b);
    } else {
      FrameElsewhere(s.memory, sp, 72, Words(AbortRegisters(s, e.DataAbort?)) + [0xFFFF_FFFF], b);
    }
  }

  /** A frame stored `down` bytes below the stack pointer and ending there. */
  lemma FrameElsewhere(m: Memory, sp: Word, down: nat, f: seq<Word>, b: int)
    requires down == 4 * |f| && |f| <= 20 && forall k | 0 <= k < 20 :: W(sp as int - 80 + 4 * k) != W(b)
    ensures Load(StoreWords(m, W(sp as int - down), f), b) == Load(m, b)
  {
    hide W;
    forall k | 0 <= k < |f| ensures W(W(sp as int - down) + 4 * k) != W(b) {
      WAdd(sp as int - down, 4 * k);
      assert sp as int - down + 4 * k == sp as int - 80 + 4 * (k + 20 - |f|);
    }
    StoreElsewhere(m, W(sp as int - down), f, b);
  }

  /** A return touches the registers of kernel and task only, and no memory. */
  lemma RestoreTouches(s: Vm, result: Word, syscall: bool)
    requires WellFormed(s)
    ensures var t := RestoreLinux(s, result, syscall);
      && WellFormed(t) && t.memory == s.memory && t.interrupted == s.interrupted && t.vector == s.vector
      && (forall n | IsMode(n) && n != KERNEL && n != TASK :: Ctx(t, n) == Ctx(s, n))
      && (forall n | IsMode(n) :: t.modes[n].rpcFor == s.modes[n].rpcFor && t.modes[n].rpcTo == s.modes[n].rpcTo)
      && (t.halted <==> s.halted || !KernelPointer(Ctx(s, KERNEL).sp))
      && (t.current == KERNEL && !t.halted ==> Ctx(t, TASK) == Ctx(s, TASK) && Ctx(t, KERNEL).sp == W(Ctx(s, KERNEL).sp as int + 72))
      && (t.current == TASK && !t.halted ==> Ctx(t, KERNEL) == Ctx(s, KERNEL).(sp := Ctx(t, KERNEL).sp))
  {
    hide W, Load, LoadWords, DomainAc, ForceUser, UserRange, KernelPointer, FromWords;
  }

  lemma WAdd(x: int, y: int)
    ensures W(W(x) as int + y) == W(x + y)
  {
  }

  /** Which number does what, for modes other than the task. */
  lemma CallNumbers(s: Vm, p0: Word, p1: Word)
    requires WellFormed(s) && !s.halted && s.current != TASK
    ensures Step(s, Call(p0, p1, 1001)) == InterruptSet(s, p0, p1)
    ensures Step(s, Call(p0, p1, 1012)) == RestoreLinux(s, p0, p1 != 0)
    ensures Step(s, Call(p0, p1, 1013)) == RestoreRegs(s, p0)
    ensures forall number: Word | number !in {1001, 1002, 1012, 1013, 1020, 1021} && !Unrelated(number) ::
              Step(s, Call(p0, p1, number)) == Panic(s)
  {
    hide Rpc, EndRpc, InterruptSet, EndInterrupt, RestoreLinux, RestoreRegs, SyscallEntry;
  }
}
