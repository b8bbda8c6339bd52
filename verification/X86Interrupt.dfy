/** Real-mode memory, the stack, and the software interrupt and its return. */
module X86Interrupt {
  import opened Bits
  import opened Endian
  import opened Wrappers

  const TF: nat := 8
  const IF: nat := 9

  const MEM: nat := 0x10_0000
  const STUB_SEG: u16 := 0xF000
  const STUB_OFF_BASE: u16 := 0x1000
  const VECTORS: nat := 0x20

  type Memory = m: seq<u8> | |m| == MEM witness seq(MEM, i => 0)

  /** The registers that INT and IRET touch, and memory. */
  datatype Machine = Machine(cs: u16, ip: u16, ss: u16, sp: u16, flg: nat, mem: Memory)

  /** x86emu_mem: every address wraps at 1 MiB. */
  function Phys(addr: nat): (r: nat)
    ensures r < MEM
  {
    addr % MEM
  }

  function Linear(seg: u16, off: u16): nat {
    seg * 16 + off
  }

  function Rdw(mem: Memory, addr: nat): u16 {
    Word(mem[Phys(addr)], mem[Phys(addr + 1)])
  }

  function Wrw(mem: Memory, addr: nat, v: u16): Memory {
    mem[Phys(addr) := v % 0x100][Phys(addr + 1) := v / 0x100]
  }

  function Down2(x: u16): u16 {
    if x >= 2 then x - 2 else x + 0xFFFE
  }

  function Up(x: u16, n: nat): u16 {
    (x + n) % 0x1_0000
  }

  function Push(m: Machine, v: u16): Machine {
    m.(sp := Down2(m.sp), mem := Wrw(m.mem, Linear(m.ss, Down2(m.sp)), v))
  }

  function Popped(m: Machine): u16 {
    Rdw(m.mem, Linear(m.ss, m.sp))
  }

  function Pop(m: Machine): Machine {
    m.(sp := Up(m.sp, 2))
  }

  function Fetched(m: Machine): u8 {
    m.mem[Phys(Linear(m.cs, m.ip))]
  }

  function Advance(m: Machine): Machine {
    m.(ip := Up(m.ip, 1))
  }

  /** Enter the handler of interrupt n: no emulator-side handler is installed for any number. */
  function Deliver(m: Machine, n: u8): Machine {
    var m1 := Push(m, m.flg % 0x1_0000);
    var m2 := m1.(flg := SetBit(SetBit(m1.flg, IF, false), TF, false));
    var m3 := Push(m2, m2.cs);
    var m4 := m3.(cs := Rdw(m3.mem, n * 4 + 2));
    var m5 := Push(m4, m4.ip);
    m5.(ip := Rdw(m5.mem, n * 4))
  }

  /** x86emuOp_int_IMM after its opcode. */
  function IntImm(m: Machine): Machine {
    Deliver(Advance(m), Fetched(m))
  }

  function Iret(m: Machine): Machine {
    var m1 := Pop(m).(ip := Popped(m));
    var m2 := Pop(m1).(cs := Popped(m1));
    Pop(m2).(flg := Popped(m2))
  }

  /** One instruction, for the two opcodes modelled here. */
  function Step(m: Machine): Option<Machine> {
    var m1 := Advance(m);
    match Fetched(m)
    case 0xCD => Some(IntImm(m1))
    case 0xCF => Some(Iret(m1))
    case _ => None
  }

  /** Where the interrupt frame is written: three words below SP, each a pair of neighbouring bytes. */
  function FrameWord(m: Machine, i: nat): nat {
    Linear(m.ss, Below(m.sp, i))
  }

  function Below(sp: u16, i: nat): u16
    decreases i
  {
    if i == 0 then Down2(sp) else Below(Down2(sp), i - 1)
  }

  predicate InFrame(m: Machine, a: nat) {
    exists i, b :: 0 <= i < 3 && 0 <= b < 2 && a == FrameByte(m, i, b)
  }

  function FrameByte(m: Machine, i: nat, b: nat): (r: nat)
    ensures r < MEM
  {
    Phys(FrameWord(m, i) + b)
  }

  /** Vector n and its stub as ivt_init leaves them. */
  predicate VectorReady(mem: Memory, n: nat)
    requires n < VECTORS
  {
    && mem[4 * n] == (STUB_OFF_BASE + n) % 0x100
    && mem[4 * n + 1] == (STUB_OFF_BASE + n) / 0x100
    && mem[4 * n + 2] == STUB_SEG % 0x100
    && mem[4 * n + 3] == STUB_SEG / 0x100
    && mem[Phys(Linear(STUB_SEG, STUB_OFF_BASE + n))] == 0xCF
  }

  /** The five bytes the interrupt relies on. */
  predicate VectorByte(n: nat, a: nat)
    requires n < VECTORS
  {
    4 * n <= a < 4 * n + 4 || a == Phys(Linear(STUB_SEG, STUB_OFF_BASE + n))
  }

  predicate FrameClear(m: Machine, n: nat)
    requires n < VECTORS
  {
    forall i, b :: 0 <= i < 3 && 0 <= b < 2 ==> !VectorByte(n, FrameByte(m, i, b))
  }

  /** The six frame bytes are six different bytes, whatever SS:SP is. */
  lemma FrameDistinct(m: Machine, i: nat, b: nat, j: nat, c: nat)
    requires i < 3 && b < 2 && j < 3 && c < 2 && (i != j || b != c)
    ensures FrameByte(m, i, b) != FrameByte(m, j, c)
  {
    OffsetsDistinct(m.sp, i, b, j, c);
    PhysDistinct(m.ss * 16, Below(m.sp, i) + b, Below(m.sp, j) + c);
  }

  lemma OffsetsDistinct(sp: u16, i: nat, b: nat, j: nat, c: nat)
    requires i < 3 && b < 2 && j < 3 && c < 2 && (i != j || b != c)
    ensures Below(sp, i) + b != Below(sp, j) + c
  {
    BelowIs(sp, i);
    BelowIs(sp, j);
  }

  lemma BelowIs(sp: u16, i: nat)
    requires i < 3
    ensures Below(sp, i) == if sp >= 2 * i + 2 then sp - 2 * i - 2 else sp - 2 * i - 2 + 0x1_0000
  {
    assert Below(sp, 0) == Down2(sp);
    assert Below(sp, 1) == Below(Down2(sp), 0);
    assert Below(sp, 2) == Below(Down2(sp), 1) == Below(Down2(Down2(sp)), 0);
  }

  lemma PhysDistinct(base: nat, x: nat, y: nat)
    requires base < MEM && x <= 0x1_0000 && y <= 0x1_0000 && x != y
    ensures Phys(base + x) != Phys(base + y)
  {
  }

  /** Memory with the interrupt frame of m: flags, CS and IP. */
  function Framed(m: Machine): Memory {
    var m1 := Wrw(m.mem, FrameWord(m, 0), m.flg % 0x1_0000);
    var m2 := Wrw(m1, FrameWord(m, 1), m.cs);
    Wrw(m2, FrameWord(m, 2), m.ip)
  }

  /** Two words without a common byte, each of two different bytes. */
  predicate Apart(a: nat, b: nat) {
    && Phys(a) != Phys(a + 1) && Phys(b) != Phys(b + 1)
    && Phys(a) != Phys(b) && Phys(a) != Phys(b + 1) && Phys(a + 1) != Phys(b) && Phys(a + 1) != Phys(b + 1)
  }

  lemma ReadWritten(mem: Memory, a: nat, v: u16, b: nat)
    requires Apart(a, b)
    ensures Rdw(Wrw(mem, a, v), a) == v && Rdw(Wrw(mem, a, v), b) == Rdw(mem, b)
  {
    hide Phys;
  }

  lemma FrameApart(m: Machine, i: nat, j: nat)
    requires i < 3 && j < 3 && i != j
    ensures Apart(FrameWord(m, i), FrameWord(m, j))
  {
    hide Phys, FrameWord;
    FrameDistinct(m, i, 0, i, 1);
    FrameDistinct(m, j, 0, j, 1);
    FrameDistinct(m, i, 0, j, 0);
    FrameDistinct(m, i, 0, j, 1);
    FrameDistinct(m, i, 1, j, 0);
    FrameDistinct(m, i, 1, j, 1);
  }

  lemma FramedReads(m: Machine)
    ensures Rdw(Framed(m), FrameWord(m, 0)) == m.flg % 0x1_0000
    ensures Rdw(Framed(m), FrameWord(m, 1)) == m.cs
    ensures Rdw(Framed(m), FrameWord(m, 2)) == m.ip
  {
    hide FrameWord, Rdw, Wrw, Apart;
    var a, b, c := FrameWord(m, 0), FrameWord(m, 1), FrameWord(m, 2);
    FrameApart(m, 0, 1);
    FrameApart(m, 1, 0);
    FrameApart(m, 2, 0);
    FrameApart(m, 2, 1);
    var m1 := Wrw(m.mem, a, m.flg % 0x1_0000);
    var m2 := Wrw(m1, b, m.cs);
    ReadWritten(m.mem, a, m.flg % 0x1_0000, b);
    ReadWritten(m1, b, m.cs, a);
    ReadWritten(m2, c, m.ip, a);
    ReadWritten(m2, c, m.ip, b);
  }

  lemma FramedElsewhere(m: Machine, a: nat)
    requires a < MEM && !InFrame(m, a)
    ensures Framed(m)[a] == m.mem[a]
  {
    hide FrameWord, Phys;
    assert a != FrameByte(m, 0, 0) && a != FrameByte(m, 0, 1);
    assert a != FrameByte(m, 1, 0) && a != FrameByte(m, 1, 1);
    assert a != FrameByte(m, 2, 0) && a != FrameByte(m, 2, 1);
  }

  /** Any memory that agrees with the vector's bytes reads the same vector and stub. */
  lemma VectorReads(mem: Memory, n: nat)
    requires n < VECTORS && VectorReady(mem, n)
    ensures Rdw(mem, n * 4) == STUB_OFF_BASE + n && Rdw(mem, n * 4 + 2) == STUB_SEG
    ensures mem[Phys(Linear(STUB_SEG, STUB_OFF_BASE + n))] == 0xCF
  {
  }

  /** Writing a frame word outside the vector keeps it ready. */
  lemma VectorKept(mem: Memory, n: nat, addr: nat, v: u16)
    requires n < VECTORS && VectorReady(mem, n)
    requires !VectorByte(n, Phys(addr)) && !VectorByte(n, Phys(addr + 1))
    ensures VectorReady(Wrw(mem, addr, v), n)
  {
    hide Phys;
  }

  /** Where a delivered interrupt n arrives, with interrupts and single-stepping off. */
  function AtStub(m: Machine, n: nat): Machine
    requires n < VECTORS
  {
    Machine(STUB_SEG, STUB_OFF_BASE + n, m.ss, Below(m.sp, 2), SetBit(SetBit(m.flg, IF, false), TF, false), Framed(m))
  }

  /** Delivering interrupt n writes the frame and arrives at the stub, which is still in place. */
  lemma EntersStub(m: Machine, n: nat)
    requires n < VECTORS && VectorReady(m.mem, n) && FrameClear(m, n)
    ensures Deliver(m, n) == AtStub(m, n) && VectorReady(Framed(m), n)
  {
    hide Phys, Rdw, Wrw, VectorReady, SetBit, VectorByte;
    var a, b, c := FrameWord(m, 0), FrameWord(m, 1), FrameWord(m, 2);
    assert forall i :: 0 <= i < 3 ==>
      FrameByte(m, i, 0) == Phys(FrameWord(m, i)) && FrameByte(m, i, 1) == Phys(FrameWord(m, i) + 1);
    var m1 := Wrw(m.mem, a, m.flg % 0x1_0000);
    var m2 := Wrw(m1, b, m.cs);
    VectorKept(m.mem, n, a, m.flg % 0x1_0000);
    VectorKept(m1, n, b, m.cs);
    VectorKept(m2, n, c, m.ip);
    VectorReads(m2, n);
    VectorReads(Framed(m), n);
    assert Below(m.sp, 1) == Down2(Down2(m.sp)) && Below(m.sp, 2) == Down2(Down2(Down2(m.sp)));
  }

  /** An interrupt frame as the architecture lays it out: IP on top, then CS, then the flags; IF and TF are off. */
  lemma FrameLayout(m: Machine, n: u8)
    ensures var d := Deliver(m, n);
      && d.ss == m.ss && Up(d.sp, 6) == m.sp
      && Rdw(d.mem, Linear(m.ss, d.sp)) == m.ip
      && Rdw(d.mem, Linear(m.ss, Up(d.sp, 2))) == m.cs
      && Rdw(d.mem, Linear(m.ss, Up(d.sp, 4))) == m.flg % 0x1_0000
      && forall j: nat :: Bit(d.flg, j) == (j != 8 && j != 9 && Bit(m.flg, j))
  {
    hide Phys, Rdw, Wrw, SetBit, Bit, Below, Up;
    FramedReads(m);
    BelowSteps(m.sp);
    UpFromBelow(m.sp);
    forall j: nat
      ensures Bit(SetBit(SetBit(m.flg, IF, false), TF, false), j) == (j != 8 && j != 9 && Bit(m.flg, j))
    {
      BitOfSetBit(m.flg, IF, false, j);
      BitOfSetBit(SetBit(m.flg, IF, false), TF, false, j);
    }
  }

  lemma BelowSteps(sp: u16)
    ensures Below(sp, 0) == Down2(sp) && Below(sp, 1) == Down2(Down2(sp)) && Below(sp, 2) == Down2(Down2(Down2(sp)))
  {
  }

  lemma UpFromBelow(sp: u16)
    ensures Up(Below(sp, 2), 2) == Below(sp, 1) && Up(Below(sp, 2), 4) == Below(sp, 0) && Up(Below(sp, 2), 6) == sp
  {
    hide Below, Up;
    PopsBack(sp);
    UpTwice(Below(sp, 2), 2, 2);
    UpTwice(Below(sp, 2), 4, 2);
  }

  lemma UpTwice(x: u16, a: nat, b: nat)
    ensures Up(Up(x, a), b) == Up(x, a + b)
  {
  }

  /** m with the frame left behind in memory and the upper half of the flags lost. */
  function Returned(m: Machine): Machine {
    m.(flg := m.flg % 0x1_0000, mem := Framed(m))
  }

  /** The stub's IRET undoes the delivery. */
  lemma StubReturns(m: Machine, n: nat)
    requires n < VECTORS && VectorReady(Framed(m), n)
    ensures Step(AtStub(m, n)) == Some(Returned(m))
  {
    hide Phys, Rdw, Wrw, VectorReady, SetBit, Framed, Up, Below;
    FramedReads(m);
    VectorReads(Framed(m), n);
    PopsBack(m.sp);
  }

  lemma PopsBack(sp: u16)
    ensures Up(Below(sp, 2), 2) == Below(sp, 1) && Up(Below(sp, 1), 2) == Below(sp, 0) && Up(Below(sp, 0), 2) == sp
  {
    BelowIs(sp, 0);
    BelowIs(sp, 1);
    BelowIs(sp, 2);
  }

  ghost predicate OnlyFrame(m: Machine, after: Memory) {
    forall a :: 0 <= a < MEM && !InFrame(m, a) ==> after[a] == m.mem[a]
  }

  lemma FramedOnlyFrame(m: Machine)
    ensures OnlyFrame(m, Framed(m))
  {
    hide InFrame, Framed;
    forall a | 0 <= a < MEM && !InFrame(m, a)
      ensures Framed(m)[a] == m.mem[a]
    {
      FramedElsewhere(m, a);
    }
  }

  /** A vector the frame misses is as ready afterwards as before. */
  lemma FrameKeepsVector(m: Machine, after: Memory, n: nat)
    requires n < VECTORS && FrameClear(m, n) && VectorReady(m.mem, n) && OnlyFrame(m, after)
    ensures VectorReady(after, n)
  {
    hide FrameByte, Phys;
    forall a | 0 <= a < MEM && VectorByte(n, a)
      ensures after[a] == m.mem[a]
    {
      assert !InFrame(m, a);
    }
    var stub := Phys(Linear(STUB_SEG, STUB_OFF_BASE + n));
    assert VectorByte(n, 4 * n) && VectorByte(n, 4 * n + 1) && VectorByte(n, 4 * n + 2) && VectorByte(n, 4 * n + 3);
    assert VectorByte(n, stub);
  }

  // ---------- the execution loop ----------

  const SYNCH_BIT: nat := 0
  const HALTED_BIT: nat := 2

  /** The machine with its pending interrupt. */
  datatype Core = Core(m: Machine, intr: nat, intno: u8)

  datatype Passed = Halted | Unknown(c: Core) | Running(c: Core)

  /** Is a pending interrupt looked at now? The test of IF is the source's: it must be clear. */
  predicate Due(c: Core) {
    c.intr != 0 && ((Bit(c.intr, SYNCH_BIT) && (c.intno == 0 || c.intno == 2)) || !Bit(c.m.flg, IF))
  }

  /** x86emu_intr_handle. */
  function Handled(c: Core): Core {
    if Bit(c.intr, SYNCH_BIT) then Core(Deliver(c.m, c.intno), 0, c.intno) else c
  }

  /** One pass of X86EMU_exec below its instruction limit. */
  function Pass(c: Core): Passed {
    if Bit(c.intr, HALTED_BIT) then Halted
    else
      var d := if Due(c) then Handled(c) else c;
      match Step(d.m)
      case None => Unknown(d.(m := Advance(d.m)))
      case Some(m) => Running(d.(m := m))
  }

  datatype Ending = OutOfTime(c: Core) | Stopped(c: Core) | Stuck(c: Core)

  /** Up to n passes, after which the loop halts the machine itself. */
  function Passes(c: Core, n: nat): Ending
    decreases n
  {
    if n == 0 then OutOfTime(c.(intr := Or(c.intr, 4)))
    else
      match Pass(c)
      case Halted => Stopped(c)
      case Unknown(d) => Stuck(d)
      case Running(d) => Passes(d, n - 1)
  }

  /** n passes from c, none of which stops, lead to d. */
  ghost predicate Runs(c: Core, n: nat, d: Core)
    decreases n
  {
    if n == 0 then c == d else Pass(c).Running? && Runs(Pass(c).c, n - 1, d)
  }

  /** A program that is still running when the limit is reached is halted there. */
  lemma {:induction false} RunsOut(c: Core, n: nat, d: Core)
    requires Runs(c, n, d)
    ensures Passes(c, n) == OutOfTime(d.(intr := Or(d.intr, 4)))
    decreases n
  {
    hide Pass;
    if n > 0 {
      RunsOut(Pass(c).c, n - 1, d);
    }
  }

  /** Bit 2 of the pending word stops the machine before anything else. */
  lemma HaltStops(c: Core)
    requires Bit(c.intr, 2)
    ensures Pass(c) == Halted && forall n: nat :: n > 0 ==> Passes(c, n) == Stopped(c)
  {
  }

  /**
   INT n followed by the stub's IRET resumes after the instruction: CS, SS, SP and
   the low 16 flags are as before, and only the six frame bytes of memory changed.
   */
  lemma InterruptReturns(m: Machine, intno: u8, n: nat)
    requires n < 0x20 && VectorReady(m.mem, n) && FrameClear(m, n)
    requires Fetched(m) == 0xCD && Fetched(Advance(m)) == n
    ensures var c := Core(m, 0, intno); Pass(c).Running? && Pass(Pass(c).c).Running?
    ensures var r := Pass(Pass(Core(m, 0, intno)).c).c.m;
      && Pass(Pass(Core(m, 0, intno)).c).c == Core(r, 0, intno)
      && r == m.(ip := Up(m.ip, 2), flg := m.flg % 0x1_0000, mem := r.mem)
      && OnlyFrame(m, r.mem)
  {
    hide Step, Pass, VectorReady, FrameClear, Framed, InFrame, OnlyFrame;
    var after := Advance(Advance(m));
    SameFrame(m, after, n);
    EntersStub(after, n);
    IntStep(m);
    QuietPass(m, intno);
    StubReturns(after, n);
    QuietPass(AtStub(after, n), intno);
    FramedOnlyFrame(after);
    UpTwice(m.ip, 1, 1);
  }

  lemma IntStep(m: Machine)
    requires Fetched(m) == 0xCD
    ensures Step(m) == Some(Deliver(Advance(Advance(m)), Fetched(Advance(m))))
  {
    hide Deliver, Iret;
  }

  /** With nothing pending a pass is one instruction. */
  lemma QuietPass(m: Machine, intno: u8)
    requires Step(m).Some?
    ensures Pass(Core(m, 0, intno)) == Running(Core(Step(m).value, 0, intno))
  {
    hide Step;
    NotHalted();
  }

  lemma NotHalted()
    ensures !Bit(0, HALTED_BIT)
  {
    ZeroHasNoBits(HALTED_BIT);
  }

  /** The frame depends on SS and SP alone. */
  lemma SameFrame(m: Machine, after: Machine, n: nat)
    requires n < VECTORS && m.ss == after.ss && m.sp == after.sp && m.mem == after.mem
    ensures FrameClear(m, n) ==> FrameClear(after, n)
    ensures OnlyFrame(after, Framed(after)) ==> OnlyFrame(m, Framed(after))
  {
    hide Phys, Framed, VectorByte;
    assert forall i, b :: 0 <= i < 3 && 0 <= b < 2 ==> FrameByte(m, i, b) == FrameByte(after, i, b);
    forall a
      ensures InFrame(after, a) ==> InFrame(m, a)
    {
      if InFrame(after, a) {
        var i, b :| 0 <= i < 3 && 0 <= b < 2 && a == FrameByte(after, i, b);
        assert a == FrameByte(m, i, b);
      }
    }
  }

  /**
   A pending interrupt is delivered and returned from in a single pass, the program
   then going on where it was: numbers 0 and 2, such as the divide error, whatever
   IF is, and any other number while IF is clear.
   */
  lemma PendingReturns(c: Core)
    requires c.intr == 1 && c.intno < 0x20 && (c.intno == 0 || c.intno == 2 || !Bit(c.m.flg, 9))
    requires VectorReady(c.m.mem, c.intno) && FrameClear(c.m, c.intno)
    ensures Pass(c).Running?
    ensures var d := Pass(c).c;
      d == Core(c.m.(flg := c.m.flg % 0x1_0000, mem := d.m.mem), 0, c.intno) && OnlyFrame(c.m, d.m.mem)
  {
    hide Deliver, Step, VectorReady, FrameClear, Framed, InFrame, OnlyFrame;
    assert Bit(1, SYNCH_BIT) && !Bit(1, HALTED_BIT);
    EntersStub(c.m, c.intno);
    StubReturns(c.m, c.intno);
    FramedOnlyFrame(c.m);
  }

  /** Any other number waits while IF is set: the pass is one instruction and the interrupt stays pending. */
  lemma PendingWaits(c: Core)
    requires c.intr == 1 && c.intno != 0 && c.intno != 2 && Bit(c.m.flg, 9)
    ensures match Step(c.m)
      case Some(m) => Pass(c) == Running(Core(m, 1, c.intno))
      case None => Pass(c) == Unknown(Core(Advance(c.m), 1, c.intno))
  {
    hide Step;
    assert Bit(1, SYNCH_BIT) && !Bit(1, HALTED_BIT);
  }
}
