/** Exception frames: what `hypercall_restore_linux_regs` makes of the frame an entry pushed. */
module HyperFrames {
  import opened HyperState
  import opened HyperSpec

  /** The words at the kernel's stack pointer. */
  predicate FrameAt(s: Vm, frame: seq<Word>)
    requires WellFormed(s)
  {
    LoadWords(s.memory, Ctx(s, KERNEL).sp, |frame|) == frame
  }

  lemma FrameWord(s: Vm, frame: seq<Word>, i: nat)
    requires WellFormed(s) && FrameAt(s, frame) && i < |frame|
    ensures Load(s.memory, Ctx(s, KERNEL).sp + 4 * i) == frame[i]
  {
    assert LoadWords(s.memory, Ctx(s, KERNEL).sp, |frame|)[i] == frame[i];
  }

  lemma FrameSlice(s: Vm, frame: seq<Word>, i: nat, n: nat)
    requires WellFormed(s) && FrameAt(s, frame) && i + n <= |frame|
    ensures LoadWords(s.memory, Ctx(s, KERNEL).sp + 4 * i, n) == frame[i..i + n]
  {
    forall k | 0 <= k < n ensures Load(s.memory, Ctx(s, KERNEL).sp + 4 * i + 4 * k) == frame[i + k] {
      FrameWord(s, frame, i + k);
    }
  }

  /** The registers a frame of 17 words gives back, word by word. */
  lemma ContextBack(c: Context, psr: Word)
    ensures FromWords(Words(c)[..16] + [psr]) == c.(psr := psr)
  {
    assert (Words(c)[..16] + [psr])[..13] == c.reg;
  }

  lemma SyscallPushesFrame(s: Vm)
    requires WellFormed(s)
    ensures var t := SyscallEntry(s);
      WellFormed(t) && FrameAt(t, SyscallFrame(Ctx(s, TASK))) && Ctx(t, KERNEL).sp == W(Ctx(s, KERNEL).sp as int - 80)
  {
    hide Load, LoadWords, StoreWords, Words, SetMask, ClearMask, DomainAc;
    FrameReadsBack(s.memory, W(Ctx(s, KERNEL).sp as int - 80), SyscallFrame(Ctx(s, TASK)));
  }

  /**
   * A system call and the return from it, from any later state that still has the frame on the kernel stack.
   * The return decides between task and kernel by word 15 of the frame, which here is the task's stack pointer.
   */
  lemma SyscallReturn(s: Vm, t: Vm, result: Word)
    requires WellFormed(s) && WellFormed(t) && FrameAt(t, SyscallFrame(Ctx(s, TASK)))
    requires Ctx(t, KERNEL).sp == W(Ctx(s, KERNEL).sp as int - 80) && KernelPointer(Ctx(t, KERNEL).sp)
    ensures var task, u := Ctx(s, TASK), RestoreLinux(t, result, true);
      && u.halted == t.halted
      && (u.current == TASK <==> UserRange(task.sp))
      && (u.current == TASK ==>
            && Ctx(u, TASK) == task.(reg := task.reg[0 := result], psr := ForceUser(task.psr))
            && Ctx(u, KERNEL).sp == Ctx(s, KERNEL).sp
            && u.domain == DomainAc(TASK))
      && (u.current != TASK ==> u.current == KERNEL && Ctx(u, TASK) == Ctx(t, TASK) && Ctx(u, KERNEL).pc == task.sp)
  {
    hide W, Load, LoadWords, FrameAt, DomainAc, ForceUser, UserRange, KernelPointer, FromWords;
    var task := Ctx(s, TASK);
    var f := SyscallFrame(task);
    FrameWord(t, f, 15);
    FrameWord(t, f, 18);
    FrameSlice(t, f, 3, 15);
    WrapAround(Ctx(s, KERNEL).sp, 80);
    var c := task.(reg := task.reg[0 := result]);
    ContextBack(c, ForceUser(task.psr));
    assert [result] + f[3..18] == Words(c)[..16];
  }

  lemma AbortPushesFrame(s: Vm, addr: Word, status: Word, data: bool)
    requires WellFormed(s)
    ensures var t := AbortEntry(s, addr, status, data);
      && WellFormed(t) && FrameAt(t, Words(AbortRegisters(s, data)) + [0xFFFF_FFFF])
      && Ctx(t, KERNEL).sp == W(Ctx(s, KERNEL).sp as int - 72)
  {
    hide Load, LoadWords, StoreWords, Words, SetMask, ClearMask, DomainAc, AbortRegisters;
    FrameReadsBack(s.memory, W(Ctx(s, KERNEL).sp as int - 72), Words(AbortRegisters(s, data)) + [0xFFFF_FFFF]);
  }

  /** The stack pointer in the frame is the one at the abort, except that a kernel's prefetch abort stores the moved one. */
  lemma FrameStackPointer(s: Vm, data: bool)
    requires WellFormed(s)
    ensures AbortRegisters(s, data).sp == Ctx(s, s.current).sp <==> data || s.current != KERNEL
  {
  }

  /**
   * An abort and the return from it.  Task and kernel registers come back exactly when the interrupted pc lies in
   * the address range of the interrupted mode; the stack pointer of the frame is not used for the kernel.
   */
  lemma AbortReturn(s: Vm, t: Vm, data: bool, result: Word)
    requires WellFormed(s) && WellFormed(t) && (s.current == TASK || s.current == KERNEL)
    requires FrameAt(t, Words(AbortRegisters(s, data)) + [0xFFFF_FFFF])
    requires Ctx(t, KERNEL).sp == W(Ctx(s, KERNEL).sp as int - 72) && KernelPointer(Ctx(t, KERNEL).sp)
    ensures var c, u := Ctx(s, s.current), RestoreLinux(t, result, false);
      && u.halted == t.halted
      && (u.current == s.current <==> (UserRange(c.pc) <==> s.current == TASK))
      && (u.current == s.current ==>
            && Ctx(u, u.current) == c.(psr := ForceUser(c.psr))
            && Ctx(u, KERNEL).sp == Ctx(s, KERNEL).sp
            && u.domain == DomainAc(s.current))
  {
    hide W, Load, LoadWords, FrameAt, DomainAc, ForceUser, UserRange, KernelPointer, FromWords;
    var c := AbortRegisters(s, data);
    var f := Words(c) + [0xFFFF_FFFF];
    FrameWord(t, f, 14);
    FrameWord(t, f, 15);
    FrameWord(t, f, 16);
    FrameSlice(t, f, 0, 13);
    FrameSlice(t, f, 0, 16);
    WrapAround(Ctx(s, KERNEL).sp, 72);
    ContextBack(c, ForceUser(c.psr));
    assert f[0..16] == Words(c)[..16] && f[0..13] == c.reg;
  }

  /** The whole trip when nothing intervenes. */
  lemma AbortThenReturn(s: Vm, addr: Word, status: Word, data: bool, result: Word)
    requires WellFormed(s) && (s.current == TASK || s.current == KERNEL)
    requires KernelPointer(W(Ctx(s, KERNEL).sp as int - 72))
    requires UserRange(Ctx(s, s.current).pc) <==> s.current == TASK
    ensures WellFormed(AbortEntry(s, addr, status, data))
    ensures var c, u := Ctx(s, s.current), RestoreLinux(AbortEntry(s, addr, status, data), result, false);
      && u.current == s.current && Ctx(u, u.current) == c.(psr := ForceUser(c.psr)) && Ctx(u, KERNEL).sp == Ctx(s, KERNEL).sp
  {
    hide W, FrameAt, RestoreLinux, AbortEntry, Words, AbortRegisters, UserRange, KernelPointer, ForceUser;
    AbortPushesFrame(s, addr, status, data);
    AbortReturn(s, AbortEntry(s, addr, status, data), data, result);
  }

  /** A restored status register has its low four bits clear; the others, bit 4 of the mode field too, come from the frame. */
  lemma ForcedUser(p: Word)
    ensures ForceUser(p) % 16 == 0 && ForceUser(p) / 16 == p / 16
  {
  }

  /**
   * `hypercall_restore_regs` on a context as it lies in memory: the current mode gets every register back and the
   * status register with its low bits cleared, and nothing else changes; a pointer outside the kernel's range stops
   * the machine.
   */
  lemma RestoreRegsReadsBack(s: Vm, regs: Word, c: Context)
    requires WellFormed(s) && LoadWords(s.memory, regs, 17) == Words(c)
    ensures var t := RestoreRegs(s, regs);
      if KernelPointer(regs) then
        && Ctx(t, s.current) == c.(psr := ForceUser(c.psr))
        && t == s.(modes := s.modes[s.current := s.modes[s.current].(ctx := Ctx(t, s.current))])
      else t == Panic(s)
  {
    var ws := LoadWords(s.memory, regs, 17);
    assert ws[16] == c.psr && LoadWords(s.memory, regs, 16) == ws[..16];
    hide W, Load, ForceUser, FromWords, KernelPointer;
    ContextBack(c, ForceUser(c.psr));
  }

  /** Stored and restored, a context comes back. */
  lemma StoreThenRestoreRegs(s: Vm, regs: Word, c: Context)
    requires WellFormed(s) && KernelPointer(regs)
    ensures Ctx(RestoreRegs(s.(memory := StoreWords(s.memory, regs, Words(c))), regs), s.current) == c.(psr := ForceUser(c.psr))
  {
    FrameReadsBack(s.memory, regs, Words(c));
    hide W, Load, ForceUser, KernelPointer, Words, StoreWords, LoadWords, RestoreRegs;
    RestoreRegsReadsBack(s.(memory := StoreWords(s.memory, regs, Words(c))), regs, c);
  }
}
