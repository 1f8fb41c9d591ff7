/**
 Registers and stacks across interrupts and task switches: trap_entry,
 trap_exit, cpu_switch_to and ret_from_fork of arch/arm64/core/entry.S, and
 copy_thread of kernel/fork.c, over a memory of 64-bit words.
 */
module Context {
  import opened Pgtable
  import opened PageTable

  /** x0..x30, the stack pointer, and the exception registers; spEl0 holds the current task, pc the next instruction. */
  datatype Cpu = Cpu(x: seq<nat>, sp: nat, elr: nat, spsr: nat, spEl0: nat, pc: nat)

  /** sizeof(struct pt_regs): 31 registers, sp, pc and pstate. */
  const FRAME: nat := 272
  const S_LR: nat := 240
  const S_PC: nat := 256
  /** offsetof(struct task_struct, cpu_context), and its 13 words x19..x28, fp, sp, pc. */
  const CPU_CONTEXT: nat := 24
  const CONTEXT_WORDS: nat := 13
  const TASK_STRUCT_SIZE: nat := 168
  const PSR_MODE_EL1h: nat := 5

  // ---------- stores of consecutive words ----------

  /** Words stored one after the other from base. */
  function StoreWords(mem: Mem, base: nat, ws: seq<nat>): Mem
    decreases |ws|
  {
    if ws == [] then mem
    else
      var rest := StoreWords(mem, base, ws[..|ws| - 1]);
      rest[base + 8 * (|ws| - 1) := ws[|ws| - 1]]
  }

  /** The words are there, and memory around them is as before. */
  lemma {:induction false} StoredWords(mem: Mem, base: nat, ws: seq<nat>)
    ensures forall i :: 0 <= i < |ws| ==> Load(StoreWords(mem, base, ws), base + 8 * i) == ws[i]
    ensures forall a :: a < base || a >= base + 8 * |ws| ==> Load(StoreWords(mem, base, ws), a) == Load(mem, a)
    decreases |ws|
  {
    if ws != [] { StoredWords(mem, base, ws[..|ws| - 1]); }
  }

  /** stp u, v, [a] */
  function StorePair(mem: Mem, a: nat, u: nat, v: nat): Mem {
    mem[a := u][a + 8 := v]
  }

  lemma StoredPair(mem: Mem, a: nat, u: nat, v: nat)
    ensures Load(StorePair(mem, a, u, v), a) == u && Load(StorePair(mem, a, u, v), a + 8) == v
    ensures forall b :: b != a && b != a + 8 ==> Load(StorePair(mem, a, u, v), b) == Load(mem, b)
  {
  }

  function LoadWords(mem: Mem, base: nat, n: nat): (ws: seq<nat>)
    ensures |ws| == n && forall i :: 0 <= i < n ==> ws[i] == Load(mem, base + 8 * i)
  {
    seq(n, i requires 0 <= i < n => Load(mem, base + 8 * i))
  }

  ghost predicate Agree(m: Mem, m': Mem, lo: int, hi: int) {
    forall a :: lo <= a < hi ==> Load(m', a) == Load(m, a)
  }

  lemma AgreeTrans(a: Mem, b: Mem, c: Mem, lo: int, hi: int)
    requires Agree(a, b, lo, hi) && Agree(b, c, lo, hi)
    ensures Agree(a, c, lo, hi)
  {
  }

  // ---------- the interrupt frame ----------

  predicate Shaped(c: Cpu) {
    |c.x| == 31
  }

  /** trap_entry: x0..x29, then lr, the old sp, elr and spsr, through x21, x22 and x23. */
  function TrapEntry(c: Cpu, mem: Mem): (Cpu, Mem)
    requires Shaped(c) && c.sp >= FRAME
  {
    var sp := c.sp - FRAME;
    var m1 := StoreWords(mem, sp, c.x[..30]);
    var x := c.x[21 := sp + FRAME][22 := c.elr][23 := c.spsr];
    var m2 := StorePair(m1, sp + S_LR, x[30], x[21]);
    var m3 := StorePair(m2, sp + S_PC, x[22], x[23]);
    (c.(x := x, sp := sp), m3)
  }

  /** trap_exit and eret. */
  function TrapExit(c: Cpu, mem: Mem): Cpu
    requires Shaped(c)
  {
    var elr, spsr := Load(mem, c.sp + S_PC), Load(mem, c.sp + S_PC + 8);
    var x := LoadWords(mem, c.sp, 30) + [Load(mem, c.sp + S_LR)];
    Cpu(x, c.sp + FRAME, elr, spsr, c.spEl0, elr)
  }

  /** Whatever happens to the registers in between, an intact frame gives back the interrupted state. */
  lemma TrapRoundTrip(c: Cpu, mem: Mem, c': Cpu, mem': Mem)
    requires Shaped(c) && c.sp >= FRAME && Shaped(c')
    requires c'.sp == c.sp - FRAME && Agree(TrapEntry(c, mem).1, mem', c.sp - FRAME, c.sp)
    ensures var r := TrapExit(c', mem');
            r.x == c.x && r.sp == c.sp && r.elr == c.elr && r.spsr == c.spsr && r.pc == c.elr
  {
    FrameReadBack(c, mem, mem', c'.sp);
    ExitLoads(c', mem', c.x, c.elr, c.spsr);
  }

  lemma ExitLoads(c: Cpu, mem: Mem, x: seq<nat>, elr: nat, spsr: nat)
    requires Shaped(c) && |x| == 31 && LoadWords(mem, c.sp, 30) == x[..30] && Load(mem, c.sp + S_LR) == x[30]
    requires Load(mem, c.sp + S_PC) == elr && Load(mem, c.sp + S_PC + 8) == spsr
    ensures TrapExit(c, mem) == Cpu(x, c.sp + FRAME, elr, spsr, c.spEl0, elr)
  {
    assert x[..30] + [x[30]] == x;
  }

  /** An intact frame, as trap_exit loads it. */
  lemma FrameReadBack(c: Cpu, mem: Mem, mem': Mem, sp: nat)
    requires Shaped(c) && sp + FRAME == c.sp && Agree(TrapEntry(c, mem).1, mem', sp, c.sp)
    ensures LoadWords(mem', sp, 30) == c.x[..30] && Load(mem', sp + S_LR) == c.x[30]
    ensures Load(mem', sp + S_PC) == c.elr && Load(mem', sp + S_PC + 8) == c.spsr
  {
    FrameContents(c, mem);
    WordsReadBack(TrapEntry(c, mem).1, mem', sp, c.x[..30], c.sp);
  }

  lemma WordsReadBack(m: Mem, m': Mem, base: nat, ws: seq<nat>, top: nat)
    requires base + 8 * |ws| <= top && Agree(m, m', base, top)
    requires forall i :: 0 <= i < |ws| ==> Load(m, base + 8 * i) == ws[i]
    ensures LoadWords(m', base, |ws|) == ws
  {
    forall i | 0 <= i < |ws| ensures LoadWords(m', base, |ws|)[i] == ws[i] {
      assert Load(m', base + 8 * i) == Load(m, base + 8 * i);
    }
  }

  /** The frame holds x0..x30, elr and spsr as they were when the exception was taken. */
  lemma FrameContents(c: Cpu, mem: Mem)
    requires Shaped(c) && c.sp >= FRAME
    ensures var m, sp := TrapEntry(c, mem).1, c.sp - FRAME;
            && (forall i :: 0 <= i < 30 ==> Load(m, sp + 8 * i) == c.x[i])
            && Load(m, sp + S_LR) == c.x[30] && Load(m, sp + S_PC) == c.elr && Load(m, sp + S_PC + 8) == c.spsr
  {
    var sp := c.sp - FRAME;
    var m1 := FrameStores(c, mem);
    StoredWords(mem, sp, c.x[..30]);
    forall i | 0 <= i < 30 ensures Load(TrapEntry(c, mem).1, sp + 8 * i) == c.x[i] {
      assert Load(m1, sp + 8 * i) == c.x[..30][i];
    }
  }

  /** The stores of trap_entry one after the other. */
  lemma FrameStores(c: Cpu, mem: Mem) returns (m1: Mem)
    requires Shaped(c) && c.sp >= FRAME
    ensures var sp, m3 := c.sp - FRAME, TrapEntry(c, mem).1;
            && m1 == StoreWords(mem, sp, c.x[..30])
            && Load(m3, sp + S_LR) == c.x[30] && Load(m3, sp + S_PC) == c.elr && Load(m3, sp + S_PC + 8) == c.spsr
            && (forall a :: a < sp + S_LR || sp + FRAME <= a ==> Load(m3, a) == Load(m1, a))
  {
    var sp := c.sp - FRAME;
    m1 := StoreWords(mem, sp, c.x[..30]);
    var m2 := StorePair(m1, sp + S_LR, c.x[30], sp + FRAME);
    StoredPair(m1, sp + S_LR, c.x[30], sp + FRAME);
    StoredPair(m2, sp + S_PC, c.elr, c.spsr);
    assert TrapEntry(c, mem).1 == StorePair(m2, sp + S_PC, c.elr, c.spsr);
  }

  // ---------- cpu_switch_to ----------

  /** The callee-saved state of a task at a switch: x19..x29, sp and lr. */
  function Saved(c: Cpu): (ws: seq<nat>)
    requires Shaped(c)
    ensures |ws| == CONTEXT_WORDS
  {
    c.x[19..30] + [c.sp, c.x[30]]
  }

  function ContextAt(task: nat): nat {
    task + CPU_CONTEXT
  }

  function CpuSwitchTo(c: Cpu, mem: Mem, prev: nat, next: nat): (Cpu, Mem)
    requires Shaped(c)
  {
    var m := StoreWords(mem, ContextAt(prev), Saved(c));
    var ws := LoadWords(m, ContextAt(next), CONTEXT_WORDS);
    // x8 and x9 are scratch: x8 ends at the pc slot of next, x9 holds its sp
    var x := c.x[8 := ContextAt(next) + 96][9 := ws[11]][..19] + ws[..11] + [ws[12]];
    (Cpu(x, ws[11], c.elr, c.spsr, next, ws[12]), m)
  }

  lemma SwitchLoads(c: Cpu, mem: Mem, prev: nat, next: nat, ws: seq<nat>)
    requires Shaped(c) && |ws| == CONTEXT_WORDS
    requires forall i :: 0 <= i < CONTEXT_WORDS ==> Load(mem, ContextAt(next) + 8 * i) == ws[i]
    requires ContextAt(prev) + 104 <= ContextAt(next) || ContextAt(next) + 104 <= ContextAt(prev)
    ensures var c' := CpuSwitchTo(c, mem, prev, next).0;
            Shaped(c') && Saved(c') == ws && c'.pc == ws[12] && c'.spEl0 == next
  {
    var m := StoreWords(mem, ContextAt(prev), Saved(c));
    StoredWords(mem, ContextAt(prev), Saved(c));
    assert LoadWords(m, ContextAt(next), CONTEXT_WORDS) == ws;
    var c' := CpuSwitchTo(c, mem, prev, next).0;
    forall i | 0 <= i < CONTEXT_WORDS ensures Saved(c')[i] == ws[i] {}
  }

  // ---------- copy_thread ----------

  /** task_pt_regs: the frame at the top of the task's page. */
  function TaskPtRegs(p: nat): nat {
    p + PAGE_SIZE - FRAME
  }

  /** The context of a new kernel thread: fn, arg, a zeroed rest, its frame and ret_from_fork. */
  function NewContext(p: nat, fn: nat, arg: nat, entry: nat): seq<nat> {
    [fn, arg, 0, 0, 0, 0, 0, 0, 0, 0, 0, TaskPtRegs(p), entry]
  }

  /** copy_thread with PF_KTHREAD: zero the frame, set its pstate, fill the context. */
  function CopyThread(mem: Mem, p: nat, fn: nat, arg: nat, entry: nat): Mem {
    var m1 := StoreWords(mem, TaskPtRegs(p), seq(33, i => 0) + [PSR_MODE_EL1h]);
    StoreWords(m1, ContextAt(p), NewContext(p, fn, arg, entry))
  }

  /** ret_from_fork after schedule_tail, which keeps x19 and x20: call fn(arg), unless fn is null. */
  function RetFromFork(c: Cpu): Cpu
    requires Shaped(c)
  {
    if c.x[19] == 0 then c else c.(x := c.x[0 := c.x[20]], pc := c.x[19])
  }

  // ---------- the instruction sequences ----------

  lemma StorePairNext(mem: Mem, base: nat, ws: seq<nat>, n: nat)
    requires n + 2 <= |ws|
    ensures StorePair(StoreWords(mem, base, ws[..n]), base + 8 * n, ws[n], ws[n + 1]) ==
              StoreWords(mem, base, ws[..n + 2])
  {
    assert ws[..n + 2][..n + 1] == ws[..n + 1] && ws[..n + 1][..n] == ws[..n];
  }

  /** One processor core; every method is the sequence of loads and stores of the assembly. */
  class Core {
    var x: seq<nat>
    var sp: nat
    var elr: nat
    var spsr: nat
    var spEl0: nat
    var pc: nat
    var mem: Mem

    ghost function C(): Cpu
      reads this
    {
      Cpu(x, sp, elr, spsr, spEl0, pc)
    }

    /** stp u, v, [base, #8*n], the next pair of a block of words ws. */
    method Stp(base: nat, n: nat, u: nat, v: nat, ghost m0: Mem, ghost ws: seq<nat>)
      requires n + 2 <= |ws| && ws[n] == u && ws[n + 1] == v && mem == StoreWords(m0, base, ws[..n])
      modifies this`mem
      ensures mem == StoreWords(m0, base, ws[..n + 2])
    {
      StorePairNext(m0, base, ws, n);
      mem := StorePair(mem, base + 8 * n, u, v);
    }

    /** ldp xr, xs, [base, #8*n], the next pair of a block loaded into registers from r - n on. */
    method Ldp(base: nat, n: nat, r: nat, ghost x0: seq<nat>)
      requires |x| == |x0| == 31 && n <= r && r + 2 <= 31
      requires x == x0[..r - n] + LoadWords(mem, base, n) + x0[r..]
      modifies this`x
      ensures x == x0[..r - n] + LoadWords(mem, base, n + 2) + x0[r + 2..]
    {
      x := x[r := Load(mem, base + 8 * n)][r + 1 := Load(mem, base + 8 * (n + 1))];
    }

    /** Three stp instructions in a row, of x(n) to x(n+5). */
    method Stp3(base: nat, n: nat, ghost m0: Mem)
      requires |x| == 31 && n + 6 <= 31 && mem == StoreWords(m0, base, x[..n])
      modifies this`mem
      ensures mem == StoreWords(m0, base, x[..n + 6])
    {
      Stp(base, n, x[n], x[n + 1], m0, x);
      Stp(base, n + 2, x[n + 2], x[n + 3], m0, x);
      Stp(base, n + 4, x[n + 4], x[n + 5], m0, x);
    }

    /** Six stp instructions in a row. */
    method Stp6(base: nat, n: nat, ghost m0: Mem)
      requires |x| == 31 && n + 12 <= 31 && mem == StoreWords(m0, base, x[..n])
      modifies this`mem
      ensures mem == StoreWords(m0, base, x[..n + 12])
    {
      Stp3(base, n, m0);
      Stp3(base, n + 6, m0);
    }

    /** Three ldp instructions in a row, into x(n) to x(n+5). */
    method Ldp3(base: nat, n: nat, r: nat, ghost x0: seq<nat>)
      requires |x| == |x0| == 31 && n <= r && r + 6 <= 31
      requires x == x0[..r - n] + LoadWords(mem, base, n) + x0[r..]
      modifies this`x
      ensures x == x0[..r - n] + LoadWords(mem, base, n + 6) + x0[r + 6..]
    {
      Ldp(base, n, r, x0);
      Ldp(base, n + 2, r + 2, x0);
      Ldp(base, n + 4, r + 4, x0);
    }

    /** The stores of x0 to x29 in trap_entry. */
    method StoreFrame()
      requires |x| == 31
      modifies this`mem
      ensures mem == StoreWords(old(mem), sp, x[..30])
    {
      ghost var m0 := mem;
      Stp6(sp, 0, m0);
      Stp6(sp, 12, m0);
      Stp3(sp, 24, m0);
    }

    /** trap_entry */
    method DoTrapEntry()
      requires |x| == 31 && sp >= FRAME
      modifies this
      ensures (C(), mem) == TrapEntry(old(C()), old(mem))
    {
      sp := sp - FRAME;
      StoreFrame();
      StoreSpecial();
    }

    /** The scratch registers x21 to x23, and the last two pairs of the frame. */
    method StoreSpecial()
      requires |x| == 31
      modifies this`x, this`mem
      ensures x == old(x)[21 := sp + FRAME][22 := elr][23 := spsr]
      ensures mem == StorePair(StorePair(old(mem), sp + S_LR, x[30], x[21]), sp + S_PC, x[22], x[23])
    {
      x := x[21 := sp + FRAME];
      x := x[22 := elr];
      x := x[23 := spsr];
      mem := StorePair(mem, sp + S_LR, x[30], x[21]);
      mem := StorePair(mem, sp + S_PC, x[22], x[23]);
    }

    /** trap_exit and eret */
    method DoTrapExit()
      requires |x| == 31
      modifies this
      ensures C() == TrapExit(old(C()), mem) && mem == old(mem)
    {
      x := x[21 := Load(mem, sp + S_PC)][22 := Load(mem, sp + S_PC + 8)];
      elr := x[21];
      spsr := x[22];
      LoadFrame();
      x := x[30 := Load(mem, sp + S_LR)];
      sp := sp + FRAME;
      pc := elr;
    }

    /** The loads of x0 to x29 in trap_exit. */
    method LoadFrame()
      requires |x| == 31
      modifies this`x
      ensures x == LoadWords(mem, sp, 30) + old(x[30..])
    {
      ghost var x0 := x;
      assert x0[..0] + LoadWords(mem, sp, 0) + x0[0..] == x0;
      Ldp3(sp, 0, 0, x0);
      Ldp3(sp, 6, 6, x0);
      Ldp3(sp, 12, 12, x0);
      Ldp3(sp, 18, 18, x0);
      Ldp3(sp, 24, 24, x0);
    }

    /** cpu_switch_to(x0, x1) */
    method DoSwitch()
      requires |x| == 31
      modifies this
      ensures (C(), mem) == CpuSwitchTo(old(C()), old(mem), old(x[0]), old(x[1]))
    {
      x := x[8 := x[0] + CPU_CONTEXT];
      x := x[9 := sp];
      assert Saved(C()) == Saved(old(C())) && x[0] == old(x[0]) && x[1] == old(x[1]);
      SaveContext();
      x := x[8 := x[1] + CPU_CONTEXT];
      ghost var x0, ws := x, LoadWords(mem, x[8], CONTEXT_WORDS);
      RestoreContext();
      assert x0[8 := x0[8] + 96][9 := ws[11]][..19] == old(x)[8 := x0[8] + 96][9 := ws[11]][..19];
    }

    /** The stores of cpu_switch_to, post-indexed through x8. */
    method SaveContext()
      requires |x| == 31 && x[9] == sp
      modifies this`mem
      ensures mem == StoreWords(old(mem), x[8], Saved(C()))
    {
      ghost var m0, ws := mem, Saved(C());
      assert forall i :: 0 <= i < 11 ==> ws[i] == x[19 + i];
      SaveThree(x[8], 0, m0, ws);
      SaveRest(x[8], m0, ws);
    }

    /** stp x25, x26; stp x27, x28; stp x29, x9; str x30 */
    method SaveRest(base: nat, ghost m0: Mem, ghost ws: seq<nat>)
      requires |x| == 31 && |ws| == CONTEXT_WORDS && (forall i :: 0 <= i < 11 ==> ws[i] == x[19 + i])
      requires ws[11] == x[9] && ws[12] == x[30] && mem == StoreWords(m0, base, ws[..6])
      modifies this`mem
      ensures mem == StoreWords(m0, base, ws)
    {
      Stp(base, 6, x[25], x[26], m0, ws);
      Stp(base, 8, x[27], x[28], m0, ws);
      Stp(base, 10, x[29], x[9], m0, ws);
      SaveLast(base, x[30], m0, ws);
    }

    /** stp x19, x20; stp x21, x22; stp x23, x24 */
    method SaveThree(base: nat, n: nat, ghost m0: Mem, ghost ws: seq<nat>)
      requires |x| == 31 && |ws| == CONTEXT_WORDS && n + 6 <= 11 && (forall i :: 0 <= i < 11 ==> ws[i] == x[19 + i])
      requires mem == StoreWords(m0, base, ws[..n])
      modifies this`mem
      ensures mem == StoreWords(m0, base, ws[..n + 6])
    {
      Stp(base, n, x[19 + n], x[20 + n], m0, ws);
      Stp(base, n + 2, x[21 + n], x[22 + n], m0, ws);
      Stp(base, n + 4, x[23 + n], x[24 + n], m0, ws);
    }

    /** str x30 */
    method SaveLast(base: nat, v: nat, ghost m0: Mem, ghost ws: seq<nat>)
      requires |ws| == CONTEXT_WORDS && ws[12] == v && mem == StoreWords(m0, base, ws[..12])
      modifies this`mem
      ensures mem == StoreWords(m0, base, ws)
    {
      mem := mem[base + 96 := v];
    }

    /** The loads of cpu_switch_to, the stack, the current task, and ret. */
    method RestoreContext()
      requires |x| == 31
      modifies this
      ensures mem == old(mem) && elr == old(elr) && spsr == old(spsr)
      ensures var ws := LoadWords(mem, old(x[8]), CONTEXT_WORDS);
              && x == old(x)[8 := old(x[8]) + 96][9 := ws[11]][..19] + ws[..11] + [ws[12]]
              && sp == ws[11] && spEl0 == old(x[1]) && pc == ws[12]
    {
      var base := x[8];
      ghost var x0, ws := x, LoadWords(mem, base, CONTEXT_WORDS);
      LoadCallee(base);
      ghost var x1 := x;
      assert ws[..10] == LoadWords(mem, base, 10);
      // ldp x29, x9: the second word is the saved sp
      x := x[29 := Load(mem, base + 80)][9 := Load(mem, base + 88)];
      x := x[8 := base + 96];
      x := x[30 := Load(mem, base + 96)];
      sp := x[9];
      spEl0 := x[1];
      pc := x[30];
      assert ws[10] == Load(mem, base + 8 * 10);
      assert ws[11] == Load(mem, base + 8 * 11);
      assert ws[12] == Load(mem, base + 8 * 12);
      RestoredRegisters(x0, x1, x, ws, base + 96);
    }

    /** The loads of x19 to x28. */
    method LoadCallee(base: nat)
      requires |x| == 31
      modifies this`x
      ensures |x| == 31 && x[..19] == old(x[..19]) && x[19..29] == LoadWords(mem, base, 10) && x[29..] == old(x[29..])
    {
      ghost var x0 := x;
      assert x0[..19] + LoadWords(mem, base, 0) + x0[19..] == x0;
      Ldp3(base, 0, 19, x0);
      Ldp(base, 6, 25, x0);
      Ldp(base, 8, 27, x0);
    }
  }

  /** x0 before cpu_switch_to loads, x1 after x19..x28, x at the end. */
  lemma RestoredRegisters(x0: seq<nat>, x1: seq<nat>, x: seq<nat>, ws: seq<nat>, x8: nat)
    requires |x0| == |x1| == 31 && |ws| == CONTEXT_WORDS
    requires x1[..19] == x0[..19] && x1[19..29] == ws[..10]
    requires x == x1[29 := ws[10]][9 := ws[11]][8 := x8][30 := ws[12]]
    ensures x == x0[8 := x8][9 := ws[11]][..19] + ws[..11] + [ws[12]]
  {
    var r := x0[8 := x8][9 := ws[11]][..19] + ws[..11] + [ws[12]];
    forall i | 0 <= i < 31 ensures x[i] == r[i] {
      if i < 19 {
        assert x1[i] == x1[..19][i] && x0[i] == x0[..19][i];
      } else if i < 29 {
        assert x1[i] == x1[19..29][i - 19] && ws[..10][i - 19] == ws[i - 19];
      }
    }
  }

  lemma ContextRegisters(c: Cpu)
    requires Shaped(c)
    ensures var ws := Saved(c);
            && ws[0] == c.x[19] && ws[1] == c.x[20] && ws[2] == c.x[21] && ws[3] == c.x[22] && ws[4] == c.x[23]
            && ws[5] == c.x[24] && ws[6] == c.x[25] && ws[7] == c.x[26] && ws[8] == c.x[27] && ws[9] == c.x[28]
            && ws[10] == c.x[29] && ws[11] == c.sp && ws[12] == c.x[30]
  {
  }
}
