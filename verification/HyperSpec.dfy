/** What each entry point of the hypervisor does to the virtual machine, as functions on its state. */
module HyperSpec {
  import opened HyperState

  /** `virtual_machine`, with the memory its handlers touch and the domain access register. */
  datatype Vm = Vm(current: int, interrupted: int, modes: seq<ModeState>, memory: Memory, domain: Word,
                   vector: Word, nrSyscalls: Word, halted: bool)

  predicate IsMode(m: int) {
    0 <= m < MODES
  }

  predicate IsModeOrNone(m: int) {
    IsMode(m) || m == MODE_NONE
  }

  ghost predicate WellFormed(s: Vm) {
    && |s.modes| == MODES && IsMode(s.current) && IsModeOrNone(s.interrupted)
    && forall m | 0 <= m < MODES :: IsModeOrNone(s.modes[m].rpcFor) && IsModeOrNone(s.modes[m].rpcTo)
  }

  /** `hyper_panic` stops the machine for good. */
  function Panic(s: Vm): Vm {
    s.(halted := true)
  }

  /** `change_guest_mode` */
  function Enter(s: Vm, mode: int): Vm {
    s.(current := mode, domain := DomainAc(mode))
  }

  function WithCtx(s: Vm, mode: int, c: Context): Vm
    requires |s.modes| == MODES && IsMode(mode)
  {
    s.(modes := s.modes[mode := s.modes[mode].(ctx := c)])
  }

  function Ctx(s: Vm, mode: int): Context
    requires |s.modes| == MODES && IsMode(mode)
  {
    s.modes[mode].ctx
  }

  /** Entry i of the guest's exception vector. */
  function Vector(m: Memory, base: Word, i: nat): Word {
    Load(m, base as int + 4 * i)
  }

  const V_SWI := 2
  const V_PREFETCH_ABORT := 3
  const V_DATA_ABORT := 4
  const V_IRQ := 6
  const V_ARM_SYSCALL := 8
  const V_RET_FAST_SYSCALL := 9
  const V_RET_FROM_EXCEPTION := 10

  const KERNEL_START := 0xC000_0000
  const HAL_VIRT_START := 0xF000_0000

  // ----- remote procedure calls

  function Rpc(s: Vm, op: Word, arg: Word): Vm
    requires WellFormed(s)
  {
    if s.modes[s.current].rpcTo != MODE_NONE || s.current == TRUSTED || s.modes[TRUSTED].rpcFor != MODE_NONE || op > 4
    then Panic(s)
    else
      var caller := s.modes[s.current].(rpcTo := TRUSTED);
      var t := s.modes[TRUSTED].ctx;
      var c := t.(reg := t.reg[0 := op][1 := arg], pc := RPC_ENTRY, psr := 0xD0);
      var handler := s.modes[TRUSTED].(rpcFor := s.current, ctx := c);
      Enter(s.(modes := s.modes[s.current := caller][TRUSTED := handler]), TRUSTED)
  }

  function EndRpc(s: Vm): Vm
    requires WellFormed(s)
  {
    var m := s.modes[s.current].rpcFor;
    if m == MODE_NONE || s.modes[m].rpcTo != s.current then Panic(s)
    else
      var modes := s.modes[s.current := s.modes[s.current].(rpcFor := MODE_NONE)];
      Enter(s.(modes := modes[m := modes[m].(rpcTo := MODE_NONE)]), m)
  }

  // ----- interrupts

  function InterruptSet(s: Vm, interrupt: Word, op: Word): Vm
    requires WellFormed(s)
  {
    var c := Ctx(s, s.current);
    var irq, fiq := interrupt / IRQ_MASK % 2 == 1, interrupt / FIQ_MASK % 2 == 1;
    if op == 1 then
      WithCtx(s, s.current, c.(psr := Masked(c.psr, irq, fiq, false)))
    else if op == 0 then
      WithCtx(s, s.current, c.(psr := Masked(c.psr, irq, fiq, true)))
    else if op == 2 then
      WithCtx(s, s.current, c.(psr := Masked(Masked(c.psr, true, true, false), irq, fiq, true)))
    else Panic(s)
  }

  /** Set or clear the chosen mask bits. */
  function Masked(p: Word, irq: bool, fiq: bool, set_: bool): Word {
    var q := if !irq then p else if set_ then SetMask(p, IRQ_MASK) else ClearMask(p, IRQ_MASK);
    if !fiq then q else if set_ then SetMask(q, FIQ_MASK) else ClearMask(q, FIQ_MASK)
  }

  function EndInterrupt(s: Vm): Vm
    requires WellFormed(s)
  {
    if s.current != INTERRUPT || !IsMode(s.interrupted) then Panic(s)
    else Enter(s, s.interrupted).(interrupted := MODE_NONE)
  }

  function Irq(s: Vm, irq: Word): Vm
    requires WellFormed(s)
  {
    var c := Ctx(s, INTERRUPT);
    var masked := c.(psr := SetMask(c.psr, IRQ_MASK));
    if s.current == INTERRUPT then WithCtx(s, INTERRUPT, masked)
    else
      var c' := masked.(reg := c.reg[0 := irq], sp := Ctx(s, KERNEL).sp, pc := Vector(s.memory, s.vector, V_IRQ));
      Enter(WithCtx(s.(interrupted := s.current), INTERRUPT, c'), INTERRUPT)
  }

  // ----- exception frames

  /** The frame of a system call: two extra arguments, the 17 task registers, the old r0. */
  function SyscallFrame(task: Context): (f: seq<Word>)
    ensures |f| == 20
  {
    [task.reg[4], task.reg[5]] + Words(task) + [task.reg[0]]
  }

  /** The kernel's registers as a system call finds them; `sp` is the frame's address. */
  function SyscallContext(k: Context, task: Context, sp: Word, m: Memory, vector: Word, nrSyscalls: Word): Context {
    var psr, lr := ClearMask(k.psr, IRQ_MASK), Vector(m, vector, V_RET_FAST_SYSCALL);
    var number := task.reg[7];
    if number < nrSyscalls then
      var pc := Load(m, Vector(m, vector, V_SWI) as int + 4 * number as int);
      Context(task.reg[..6] + [k.reg[6], number] + k.reg[8..], sp, lr, pc, psr)
    else
      var reg := [number, W(sp as int + 8)] + k.reg[2..7] + [number] + k.reg[8..];
      Context(reg, sp, lr, Vector(m, vector, V_ARM_SYSCALL), psr)
  }

  function SyscallEntry(s: Vm): Vm
    requires WellFormed(s)
  {
    var task, k := Ctx(s, TASK), Ctx(s, KERNEL);
    var sp := W(k.sp as int - 80);
    var mem := StoreWords(s.memory, sp, SyscallFrame(task));
    Enter(WithCtx(s.(memory := mem), KERNEL, SyscallContext(k, task, sp, mem, s.vector, s.nrSyscalls)), KERNEL)
  }

  /**
   * The registers an abort handler stores.  From kernel mode the stack pointer has already been moved; the
   * data abort handler undoes that in the frame, the prefetch abort handler does not.
   */
  function AbortRegisters(s: Vm, data: bool): Context
    requires WellFormed(s)
  {
    var c := Ctx(s, s.current);
    if s.current == KERNEL && !data then c.(sp := W(c.sp as int - 72)) else c
  }

  /** The kernel's registers as an abort handler finds them. */
  function AbortContext(k: Context, addr: Word, status: Word, sp: Word, m: Memory, vector: Word, data: bool): Context {
    Context([addr, status, sp] + k.reg[3..], sp, Vector(m, vector, V_RET_FROM_EXCEPTION),
            Vector(m, vector, if data then V_DATA_ABORT else V_PREFETCH_ABORT),
            if k.psr % 16 == 0 then SetMask(k.psr, IRQ_MASK) else ClearMask(k.psr, IRQ_MASK))
  }

  function AbortEntry(s: Vm, addr: Word, status: Word, data: bool): Vm
    requires WellFormed(s)
  {
    var k := Ctx(s, KERNEL);
    var sp := W(k.sp as int - 72);
    var mem := StoreWords(s.memory, sp, Words(AbortRegisters(s, data)) + [0xFFFF_FFFF]);
    Enter(WithCtx(s.(memory := mem), KERNEL, AbortContext(k, addr, status, sp, mem, s.vector, data)), KERNEL)
  }

  /** Addresses from which code runs in user mode, the kernel's user helpers included. */
  predicate UserRange(a: Word) {
    a < KERNEL_START || 0xFFFF_0FA0 <= a < 0xFFFF_1000
  }

  predicate KernelPointer(a: Word) {
    KERNEL_START <= a <= HAL_VIRT_START - 68
  }

  /** `hypercall_restore_linux_regs`: word 15 of the frame decides between kernel and task. */
  function RestoreLinux(s: Vm, result: Word, syscall: bool): Vm
    requires WellFormed(s)
  {
    var k := Ctx(s, KERNEL);
    var sp := k.sp;
    if !KernelPointer(sp) then Panic(s)
    else
      var psr := ForceUser(Load(s.memory, sp + 4 * (if syscall then 18 else 16)));
      var pc := Load(s.memory, sp + 4 * 15);
      if !UserRange(pc) then
        var k' := Context(LoadWords(s.memory, sp, 13), W(sp as int + 72), Load(s.memory, sp + 4 * 14), pc, psr);
        Enter(WithCtx(s, KERNEL, k'), KERNEL)
      else
        var regs := if syscall then [result] + LoadWords(s.memory, sp + 4 * 3, 15) else LoadWords(s.memory, sp, 16);
        var s' := WithCtx(s, TASK, FromWords(regs + [psr]));
        Enter(WithCtx(s', KERNEL, k.(sp := W(sp as int + (if syscall then 80 else 72)))), TASK)
  }

  /** `hypercall_restore_regs` */
  function RestoreRegs(s: Vm, regs: Word): Vm
    requires WellFormed(s)
  {
    if !KernelPointer(regs) then Panic(s)
    else WithCtx(s, s.current, FromWords(LoadWords(s.memory, regs, 16) + [ForceUser(Load(s.memory, regs + 4 * 16))]))
  }

  // ----- dispatch

  const HYPERCALL_GUEST_INIT := 1000
  const HYPERCALL_INTERRUPT_SET := 1001
  const HYPERCALL_END_INTERRUPT := 1002
  const HYPERCALL_RESTORE_LINUX_REGS := 1012
  const HYPERCALL_RESTORE_REGS := 1013
  const HYPERCALL_RPC := 1020
  const HYPERCALL_END_RPC := 1021

  /** Hypercalls on caches, page tables and coprocessors, which leave the control state alone. */
  predicate Unrelated(number: Word) {
    number in {1000, 1004, 1006, 1007, 1008, 1009, 1010, 1011, 1014, 1015}
  }

  function Swi(s: Vm, p0: Word, p1: Word, number: Word): Vm
    requires WellFormed(s)
  {
    if s.current == TASK && number != HYPERCALL_RPC && number != HYPERCALL_END_RPC then SyscallEntry(s)
    else if number == HYPERCALL_RPC then Rpc(s, p0, p1)
    else if number == HYPERCALL_END_RPC then EndRpc(s)
    else if number == HYPERCALL_INTERRUPT_SET then InterruptSet(s, p0, p1)
    else if number == HYPERCALL_END_INTERRUPT then EndInterrupt(s)
    else if number == HYPERCALL_RESTORE_LINUX_REGS then RestoreLinux(s, p0, p1 != 0)
    else if number == HYPERCALL_RESTORE_REGS then RestoreRegs(s, p0)
    else if Unrelated(number) then s
    else Panic(s)
  }
}
