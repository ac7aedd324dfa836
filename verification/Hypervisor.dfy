/** The hypervisor's handlers and hypercalls, working on the virtual machine in place. */
module Hypervisor {
  import opened HyperState
  import opened HyperSpec

  class VirtualMachine {
    var current: int
    var interrupted: int
    var modes: array<ModeState>
    var memory: Memory
    var domain: Word
    var vector: Word
    var nrSyscalls: Word
    var halted: bool

    ghost function State(): Vm
      reads this, modes
    {
      Vm(current, interrupted, modes[..], memory, domain, vector, nrSyscalls, halted)
    }

    ghost predicate Valid()
      reads this, modes
    {
      modes.Length == MODES && WellFormed(State())
    }

    /** `guests_init` and `start_guest`: no call under way, kernel mode entered. */
    constructor (contexts: seq<Context>, memory: Memory, vector: Word, nrSyscalls: Word)
      requires |contexts| == MODES
      ensures Valid() && fresh(modes) && !halted && current == KERNEL && interrupted == MODE_NONE
      ensures domain == DomainAc(KERNEL)
      ensures forall m | IsMode(m) :: modes[m] == ModeState(contexts[m], MODE_NONE, MODE_NONE)
    {
      modes := new ModeState[MODES](i requires 0 <= i < MODES => ModeState(contexts[i], MODE_NONE, MODE_NONE));
      this.memory, this.vector, this.nrSyscalls := memory, vector, nrSyscalls;
      interrupted, halted := MODE_NONE, false;
      current, domain := KERNEL, DomainAc(KERNEL);
    }

    /** `change_guest_mode` */
    method ChangeGuestMode(mode: nat)
      requires Valid()
      modifies this`current, this`domain, this`halted
      ensures Valid() && State() == if IsMode(mode) then Enter(old(State()), mode) else Panic(old(State()))
    {
      if mode >= MODES {
        HyperPanic();
        return;
      }
      current := mode;
      domain := DomainAc(mode);
    }

    /** `hyper_panic` */
    method HyperPanic()
      requires Valid()
      modifies this`halted
      ensures Valid() && State() == Panic(old(State()))
    {
      halted := true;
    }

    /** `hypercall_rpc` */
    method HypercallRpc(op: Word, arg: Word)
      requires Valid()
      modifies this, modes
      ensures modes == old(modes) && Valid() && State() == Rpc(old(State()), op, arg)
    {
      if modes[current].rpcTo != MODE_NONE || current == TRUSTED || modes[TRUSTED].rpcFor != MODE_NONE || op > 4 {
        HyperPanic();
        return;
      }
      ghost var s0 := State();
      modes[current] := modes[current].(rpcTo := TRUSTED);
      modes[TRUSTED] := modes[TRUSTED].(rpcFor := current);
      ChangeGuestMode(TRUSTED);
      var c := modes[TRUSTED].ctx;
      c := c.(reg := c.reg[0 := op]);
      c := c.(reg := c.reg[1 := arg]);
      modes[TRUSTED] := modes[TRUSTED].(ctx := c.(pc := RPC_ENTRY, psr := 0xD0));
      assert modes[..] == Rpc(s0, op, arg).modes;
    }

    /** `hypercall_end_rpc` */
    method HypercallEndRpc()
      requires Valid()
      modifies this, modes
      ensures modes == old(modes) && Valid() && State() == EndRpc(old(State()))
    {
      var calling := modes[current].rpcFor;
      if calling == MODE_NONE || modes[calling].rpcTo != current {
        HyperPanic();
        return;
      }
      ghost var s0 := State();
      modes[current] := modes[current].(rpcFor := MODE_NONE);
      modes[calling] := modes[calling].(rpcTo := MODE_NONE);
      assert modes[..] == EndRpc(s0).modes;
      ChangeGuestMode(calling);
    }

    /** `hypercall_end_interrupt` */
    method HypercallEndInterrupt()
      requires Valid()
      modifies this
      ensures modes == old(modes) && Valid() && State() == EndInterrupt(old(State()))
    {
      if current != INTERRUPT || !IsMode(interrupted) {
        HyperPanic();
        return;
      }
      ChangeGuestMode(interrupted);
      interrupted := MODE_NONE;
    }

    /** Replace the registers of a mode. */
    method SetCtx(mode: int, c: Context)
      requires Valid() && IsMode(mode)
      modifies modes
      ensures Valid() && State() == WithCtx(old(State()), mode, c)
    {
      ghost var s0 := State();
      modes[mode] := modes[mode].(ctx := c);
      assert modes[..] == WithCtx(s0, mode, c).modes;
    }

    /** `hypercall_interrupt_set`; only the two mask bits of the argument are used. */
    method HypercallInterruptSet(interrupt: Word, op: Word)
      requires Valid()
      modifies this, modes
      ensures modes == old(modes) && Valid() && State() == InterruptSet(old(State()), interrupt, op)
    {
      var irq, fiq := interrupt / IRQ_MASK % 2 == 1, interrupt / FIQ_MASK % 2 == 1;
      var c := modes[current].ctx;
      if op == 1 {
        SetCtx(current, c.(psr := Masked(c.psr, irq, fiq, false)));
      } else if op == 0 {
        SetCtx(current, c.(psr := Masked(c.psr, irq, fiq, true)));
      } else if op == 2 {
        c := c.(psr := Masked(c.psr, true, true, false));
        SetCtx(current, c.(psr := Masked(c.psr, irq, fiq, true)));
      } else {
        HyperPanic();
      }
    }

    /** `irq_handler` */
    method IrqHandler(irq: Word)
      requires Valid()
      modifies this, modes
      ensures modes == old(modes) && Valid() && State() == Irq(old(State()), irq)
    {
      var c := modes[INTERRUPT].ctx;
      if current == INTERRUPT {
        SetCtx(INTERRUPT, c.(psr := SetMask(c.psr, IRQ_MASK)));
        return;
      }
      interrupted := current;
      ChangeGuestMode(INTERRUPT);
      c := c.(reg := c.reg[0 := irq]);
      c := c.(pc := Vector(memory, vector, V_IRQ));
      c := c.(psr := SetMask(c.psr, IRQ_MASK));
      SetCtx(INTERRUPT, c.(sp := modes[KERNEL].ctx.sp));
    }

    /** The loop `*sp++ = *context++` over a run of words. */
    method PushWords(sp: Word, ws: seq<Word>)
      requires Valid()
      modifies this`memory
      ensures Valid() && memory == StoreWords(old(memory), sp, ws)
    {
      var i := 0;
      while i < |ws|
        invariant 0 <= i <= |ws|
        invariant StoreWords(memory, sp as int + 4 * i, ws[i..]) == StoreWords(old(memory), sp, ws)
      {
        assert ws[i..][1..] == ws[i + 1..];
        memory := memory[W(sp as int + 4 * i) := ws[i]];
        i := i + 1;
      }
    }

    /** The loop `*context++ = *sp++` over n words. */
    method PopWords(a: int, n: nat) returns (ws: seq<Word>)
      ensures ws == LoadWords(memory, a, n)
    {
      ws := [];
      while |ws| < n
        invariant |ws| <= n && ws == LoadWords(memory, a, |ws|)
      {
        ws := ws + [Load(memory, a + 4 * |ws|)];
      }
    }

    /** The system call part of `swi_handler`: push the frame, then set up the kernel's registers. */
    method EnterSyscall()
      requires Valid()
      modifies this, modes
      ensures modes == old(modes) && Valid() && State() == SyscallEntry(old(State()))
    {
      hide W, Load, Vector, StoreWords, SyscallContext, SyscallFrame, DomainAc, Words;
      ChangeGuestMode(KERNEL);
      var task, k := modes[TASK].ctx, modes[KERNEL].ctx;
      var sp := W(k.sp as int - 80);
      PushWords(sp, SyscallFrame(task));
      var c := SyscallRegisters(k, task, sp);
      SetCtx(KERNEL, c);
    }

    /** The registers the kernel finds: six arguments and the handler of the call, or those of a private call. */
    method SyscallRegisters(k: Context, task: Context, sp: Word) returns (c: Context)
      ensures c == SyscallContext(k, task, sp, memory, vector, nrSyscalls)
    {
      hide W, Load, Vector, ClearMask;
      c := k.(sp := sp, psr := ClearMask(k.psr, IRQ_MASK), lr := Vector(memory, vector, V_RET_FAST_SYSCALL));
      c := c.(reg := c.reg[7 := task.reg[7]]);
      if task.reg[7] < nrSyscalls {
        ghost var before := c.reg;
        var reg, i := c.reg, 0;
        while i <= 5
          invariant 0 <= i <= 6 && reg == task.reg[..i] + before[i..]
        {
          reg := reg[i := task.reg[i]];
          i := i + 1;
        }
        c := c.(reg := reg, pc := Load(memory, Vector(memory, vector, V_SWI) as int + 4 * reg[7] as int));
      } else {
        c := c.(reg := c.reg[0 := task.reg[7]]);
        c := c.(reg := c.reg[1 := W(c.sp as int + 8)]);
        c := c.(pc := Vector(memory, vector, V_ARM_SYSCALL));
      }
      assert c.reg == SyscallContext(k, task, sp, memory, vector, nrSyscalls).reg;
    }

    /** The shared body of the abort handlers. */
    method EnterAbort(addr: Word, status: Word, data: bool)
      requires Valid()
      modifies this, modes
      ensures modes == old(modes) && Valid() && State() == AbortEntry(old(State()), addr, status, data)
    {
      ghost var s0 := State();
      hide W, Load, Vector, StoreWords, Words, DomainAc, SetMask, ClearMask;
      var mode := current;
      ChangeGuestMode(KERNEL);
      var k := modes[KERNEL].ctx;
      var sp := W(k.sp as int - 72);
      var frame := if mode == KERNEL then k.(sp := sp) else modes[mode].ctx;
      if data && mode == KERNEL {
        frame := frame.(sp := W(sp as int + 72));
        WrapAround(k.sp, 72);
      }
      assert frame == AbortRegisters(s0, data);
      PushWords(sp, Words(frame) + [0xFFFF_FFFF]);
      k := k.(sp := sp);
      var c := k.(reg := k.reg[0 := addr]);
      c := c.(reg := c.reg[1 := status]);
      c := c.(reg := c.reg[2 := c.sp]);
      if c.psr % 16 == 0 {
        c := c.(psr := SetMask(c.psr, IRQ_MASK));
      } else {
        c := c.(psr := ClearMask(c.psr, IRQ_MASK));
      }
      c := c.(pc := Vector(memory, vector, if data then V_DATA_ABORT else V_PREFETCH_ABORT));
      c := c.(lr := Vector(memory, vector, V_RET_FROM_EXCEPTION));
      assert c.reg == AbortContext(k, addr, status, sp, memory, vector, data).reg;
      SetCtx(KERNEL, c);
    }

    /** `prefetch_abort_handler` and `data_abort_handler` */
    method PrefetchAbortHandler(addr: Word, status: Word)
      requires Valid()
      modifies this, modes
      ensures modes == old(modes) && Valid() && State() == AbortEntry(old(State()), addr, status, false)
    {
      EnterAbort(addr, status, false);
    }

    method DataAbortHandler(addr: Word, status: Word)
      requires Valid()
      modifies this, modes
      ensures modes == old(modes) && Valid() && State() == AbortEntry(old(State()), addr, status, true)
    {
      EnterAbort(addr, status, true);
    }

    /** `hypercall_restore_linux_regs` */
    method HypercallRestoreLinuxRegs(result: Word, syscall: bool)
      requires Valid()
      modifies this, modes
      ensures modes == old(modes) && Valid() && State() == RestoreLinux(old(State()), result, syscall)
    {
      hide W, Load, ForceUser, FromWords, UserRange, LoadWords, DomainAc;
      var k := modes[KERNEL].ctx;
      var sp := k.sp;
      if !KernelPointer(sp) {
        HyperPanic();
        return;
      }
      var psr := ForceUser(Load(memory, sp + 4 * (if syscall then 18 else 16)));
      var pc := Load(memory, sp + 4 * 15);
      if !UserRange(pc) {
        var reg := PopWords(sp, 13);
        SetCtx(KERNEL, Context(reg, W(sp as int + 72), Load(memory, sp + 4 * 14), pc, psr));
        ChangeGuestMode(KERNEL);
      } else {
        var regs;
        if syscall {
          regs := PopWords(sp + 4 * 3, 15);
          regs := [result] + regs;
        } else {
          regs := PopWords(sp, 16);
        }
        SetCtx(TASK, FromWords(regs + [psr]));
        SetCtx(KERNEL, k.(sp := W(sp as int + (if syscall then 80 else 72))));
        ChangeGuestMode(TASK);
      }
    }

    /** `hypercall_restore_regs` */
    method HypercallRestoreRegs(regs: Word)
      requires Valid()
      modifies this, modes
      ensures modes == old(modes) && Valid() && State() == RestoreRegs(old(State()), regs)
    {
      if !KernelPointer(regs) {
        HyperPanic();
        return;
      }
      var ws := PopWords(regs, 16);
      SetCtx(current, FromWords(ws + [ForceUser(Load(memory, regs + 4 * 16))]));
    }

    /** `swi_handler` */
    method SwiHandler(p0: Word, p1: Word, number: Word)
      requires Valid()
      modifies this, modes
      ensures modes == old(modes) && Valid() && State() == Swi(old(State()), p0, p1, number)
    {
      if current == TASK {
        if number == HYPERCALL_RPC {
          HypercallRpc(p0, p1);
          return;
        } else if number == HYPERCALL_END_RPC {
          HypercallEndRpc();
          return;
        }
        EnterSyscall();
        return;
      }
      if number == HYPERCALL_INTERRUPT_SET {
        HypercallInterruptSet(p0, p1);
      } else if number == HYPERCALL_END_INTERRUPT {
        HypercallEndInterrupt();
      } else if number == HYPERCALL_RESTORE_LINUX_REGS {
        HypercallRestoreLinuxRegs(p0, p1 != 0);
      } else if number == HYPERCALL_RESTORE_REGS {
        HypercallRestoreRegs(p0);
      } else if number == HYPERCALL_RPC {
        HypercallRpc(p0, p1);
      } else if number == HYPERCALL_END_RPC {
        HypercallEndRpc();
      } else if !Unrelated(number) {
        HyperPanic();
      }
    }
  }
}
