/** The control state of the hypervisor's virtual machine and what each entry point does to it. */
module HyperState {

  const WORD_MOD := 0x1_0000_0000

  type Word = x: int | 0 <= x < 0x1_0000_0000

  /** Unsigned 32-bit wrap-around. */
  function W(x: int): Word {
    x % WORD_MOD
  }

  // ----- guest modes and their configuration

  const TRUSTED := 0
  const KERNEL := 1
  const TASK := 2
  const INTERRUPT := 3
  const MODES := 4
  const MODE_NONE := 0xFFFF_FFFF

  const DOM_DEFAULT := 0
  const DOM_KERNEL := 1
  const DOM_TASK := 2
  const DOM_TRUSTED := 3

  /** Each domain has a two-bit access field. */
  function DomainBit(d: nat): Word
    requires d < 4
  {
    if d == 0 then 0x01 else if d == 1 then 0x04 else if d == 2 then 0x10 else 0x40
  }

  /** `domain_ac` of the modes in `linux_config`. */
  function DomainAc(mode: int): Word {
    if mode == TRUSTED then DomainBit(DOM_DEFAULT) + DomainBit(DOM_TRUSTED)
    else if mode == TASK then DomainBit(DOM_DEFAULT) + DomainBit(DOM_TASK)
    else DomainBit(DOM_DEFAULT) + DomainBit(DOM_KERNEL) + DomainBit(DOM_TASK)
  }

  /** Is any access to the domain granted? */
  predicate Opens(ac: Word, d: nat)
    requires d < 4
  {
    ac / DomainBit(d) % 4 != 0
  }

  const RPC_ENTRY: Word := 0xF010_0004

  // ----- register contexts

  const IRQ_MASK := 0x80
  const FIQ_MASK := 0x40

  type Registers = r: seq<Word> | |r| == 13 witness seq(13, _ => 0)

  /** `context` */
  datatype Context = Context(reg: Registers, sp: Word, lr: Word, pc: Word, psr: Word)

  /** The context as it lies in memory: r0-r12, sp, lr, pc, psr. */
  function Words(c: Context): (ws: seq<Word>)
    ensures |ws| == 17
  {
    c.reg + [c.sp, c.lr, c.pc, c.psr]
  }

  function FromWords(ws: seq<Word>): Context
    requires |ws| == 17
  {
    Context(ws[..13], ws[13], ws[14], ws[15], ws[16])
  }

  /** `hyper_mode_state` */
  datatype ModeState = ModeState(ctx: Context, rpcFor: int, rpcTo: int)

  function SetMask(p: Word, bit: Word): Word
    requires bit == IRQ_MASK || bit == FIQ_MASK
  {
    if p / bit % 2 == 1 then p else W(p + bit)
  }

  function ClearMask(p: Word, bit: Word): Word
    requires bit == IRQ_MASK || bit == FIQ_MASK
  {
    if p / bit % 2 == 1 then W(p - bit) else p
  }

  /** `0xFFFFFFF0 & psr` */
  function ForceUser(p: Word): Word {
    W(p - p % 16)
  }

  lemma WrapAround(x: Word, d: nat)
    requires d < WORD_MOD
    ensures W(W(x as int - d) as int + d) == x
  {
  }

  // ----- memory

  type Memory = map<Word, Word>

  function Load(m: Memory, a: int): Word {
    if W(a) in m then m[W(a)] else 0
  }

  /** The words `ws` stored upwards from address `a`. */
  function StoreWords(m: Memory, a: int, ws: seq<Word>): Memory
    decreases |ws|
  {
    if ws == [] then m else StoreWords(m[W(a) := ws[0]], a + 4, ws[1..])
  }

  /** The n words from address `a` up. */
  function LoadWords(m: Memory, a: int, n: nat): (ws: seq<Word>)
    ensures |ws| == n
  {
    seq(n, i requires 0 <= i => Load(m, a + 4 * i))
  }

  lemma {:induction false} StoreElsewhere(m: Memory, a: int, ws: seq<Word>, b: int)
    requires forall k | 0 <= k < |ws| :: W(a + 4 * k) != W(b)
    ensures Load(StoreWords(m, a, ws), b) == Load(m, b)
    decreases |ws|
  {
    if ws != [] {
      assert W(a + 4 * 0) != W(b);
      forall k | 0 <= k < |ws[1..]| ensures W(a + 4 + 4 * k) != W(b) {
        assert W(a + 4 * (k + 1)) != W(b);
      }
      StoreElsewhere(m[W(a) := ws[0]], a + 4, ws[1..], b);
    }
  }

  /** Stored words are read back, as long as they do not wrap onto each other. */
  lemma {:induction false} StoreThenLoad(m: Memory, a: int, ws: seq<Word>, k: nat)
    requires k < |ws| <= 64
    ensures Load(StoreWords(m, a, ws), a + 4 * k) == ws[k]
    decreases |ws|
  {
    if k == 0 {
      forall j | 0 <= j < |ws[1..]| ensures W(a + 4 + 4 * j) != W(a) {
        Apart(a, 4 + 4 * j);
      }
      StoreElsewhere(m[W(a) := ws[0]], a + 4, ws[1..], a);
    } else {
      StoreThenLoad(m[W(a) := ws[0]], a + 4, ws[1..], k - 1);
    }
  }

  lemma Apart(a: int, d: int)
    requires 0 < d < WORD_MOD
    ensures W(a + d) != W(a)
  {
  }

  lemma FrameReadsBack(m: Memory, a: int, ws: seq<Word>)
    requires |ws| <= 64
    ensures LoadWords(StoreWords(m, a, ws), a, |ws|) == ws
  {
    forall k | 0 <= k < |ws| ensures Load(StoreWords(m, a, ws), a + 4 * k) == ws[k] {
      StoreThenLoad(m, a, ws, k);
    }
  }
}
