/** The emulated processor: registers, flags and memory changed in place by the primitives. */
module X86Cpu {
  import opened Bits
  import opened Endian
  import opened Wrappers
  import opened X86Parity
  import F = X86Flags
  import opened X86Status
  import opened X86Wide
  import opened X86Interrupt

  const INTR_SYNCH: nat := 1

  class Cpu {
    var eax: u32
    var ebx: u32
    var ecx: u32
    var edx: u32
    var esi: u32
    var edi: u32
    var ebp: u32
    var cs: u16
    var ds: u16
    var es: u16
    var ss: u16
    var ip: u16
    var sp: u16
    var flg: nat
    var intno: u8
    var intr: nat
    const mem: array<u8>

    /** All registers and memory zero. */
    constructor ()
      ensures Valid() && fresh(mem) && intr == 0
    {
      eax, ebx, ecx, edx, esi, edi, ebp := 0, 0, 0, 0, 0, 0, 0;
      cs, ds, es, ss, ip, sp, flg, intno, intr := 0, 0, 0, 0, 0, 0, 0, 0, 0;
      mem := new u8[MEM](_ => 0);
    }

    ghost predicate Valid()
      reads this
    {
      mem.Length == MEM
    }

    /** The part of the state that stack and interrupts act on. */
    ghost function State(): Machine
      requires Valid()
      reads this, mem
    {
      Machine(cs, ip, ss, sp, flg, mem[..])
    }

    /** With the pending interrupt. */
    ghost function CoreState(): Core
      requires Valid()
      reads this, mem
    {
      Core(State(), intr, intno)
    }

    // ---------- flags ----------

    method ConditionalSetFlag(cond: bool, flag: nat)
      modifies this`flg
      ensures flg == SetBit(old(flg), flag, cond)
    {
      flg := SetBit(flg, flag, cond);
    }

    method SetSzpFlags(w: nat, res: nat)
      requires w > 0
      modifies this`flg
      ensures flg == F.SetSzp(old(flg), w, res)
    {
      ConditionalSetFlag(Bit(res, w - 1), F.SF);
      ConditionalSetFlag(Low(res, w) == 0, F.ZF);
      ConditionalSetFlag(Parity(res), F.PF);
    }

    method CalcCarryChain(bits: nat, d: nat, s: nat, res: nat, setCarry: bool)
      requires bits >= 2 && res < Pow2(32)
      modifies this`flg
      ensures flg == F.CalcCarryChain(old(flg), bits, d, s, res, setCarry)
    {
      var cc := F.CarryBits(d, s, res);
      ConditionalSetFlag(F.Xor2(F.Shr(cc, bits - 2)), F.OF);
      ConditionalSetFlag(Bit(cc, 3), F.AF);
      if setCarry {
        ConditionalSetFlag(Bit(res, bits), F.CF);
      }
    }

    method CalcBorrowChain(bits: nat, d: nat, s: nat, res: nat, setCarry: bool)
      requires bits >= 2 && d < Pow2(32)
      modifies this`flg
      ensures flg == F.CalcBorrowChain(old(flg), bits, d, s, res, setCarry)
    {
      var bc := F.BorrowBits(d, s, res);
      ConditionalSetFlag(F.Xor2(F.Shr(bc, bits - 2)), F.OF);
      ConditionalSetFlag(Bit(bc, 3), F.AF);
      if setCarry {
        ConditionalSetFlag(Bit(bc, bits - 1), F.CF);
      }
    }

    // ---------- addition and subtraction ----------

    /** add_byte, add_word, add_long. */
    method Add(w: nat, d: nat, s: nat) returns (r: nat)
      requires F.Width(w) && d < Pow2(w) && s < Pow2(w)
      modifies this`flg
      ensures F.Out(flg, r) == F.Add(old(flg), w, d, s)
      ensures r == F.Sum(w, d, s, 0) && forall j :: Bit(flg, j) == FlagAfterAdd(old(flg), w, d, s, 0, true, j)
    {
      hide F.CalcCarryChain, F.SetSzp, Pow2, Low, SetBit, Bit;
      forall j ensures Bit(F.Add(flg, w, d, s).flg, j) == FlagAfterAdd(flg, w, d, s, 0, true, j) {
        AddMeaning(flg, w, d, s, 0, false, j);
      }
      AddMeaning(flg, w, d, s, 0, false, F.CF);
      PowMonotone(w, 32);
      var res := F.Sum(32, d, s, 0);
      SetSzpFlags(w, res);
      CalcCarryChain(w, s, d, res, w < 32);
      if w == 32 {
        ConditionalSetFlag(res < d || res < s, F.CF);
      }
      r := Low(res, w);
    }

    /** adc_byte, adc_word, adc_long. */
    method Adc(w: nat, d: nat, s: nat) returns (r: nat)
      requires F.Width(w) && d < Pow2(w) && s < Pow2(w)
      modifies this`flg
      ensures F.Out(flg, r) == F.Adc(old(flg), w, d, s)
      ensures r == F.Sum(w, d, s, F.Carry(old(flg)))
      ensures forall j :: Bit(flg, j) == FlagAfterAdd(old(flg), w, d, s, F.Carry(old(flg)), true, j)
    {
      hide F.CalcCarryChain, F.SetSzp, Pow2, Low, SetBit, Bit;
      var c := F.Carry(flg);
      forall j ensures Bit(F.Adc(flg, w, d, s).flg, j) == FlagAfterAdd(flg, w, d, s, c, true, j) {
        AddMeaning(flg, w, d, s, c, true, j);
      }
      AddMeaning(flg, w, d, s, c, true, F.CF);
      PowMonotone(w, 32);
      var lo := d % 0x1_0000 + s % 0x1_0000 + c;
      var res := F.Sum(32, d, s, c);
      var hi := lo / 0x1_0000 + d / 0x1_0000 + s / 0x1_0000;
      SetSzpFlags(w, res);
      CalcCarryChain(w, s, d, res, w < 32);
      if w == 32 {
        ConditionalSetFlag(Bit(hi, 16), F.CF);
      }
      r := Low(res, w);
    }

    /** sub and sbb; c is the borrow in. */
    method Subtract(w: nat, d: nat, s: nat, c: nat) returns (r: nat)
      requires F.Width(w) && d < Pow2(w) && s < Pow2(w) && c <= 1
      modifies this`flg
      ensures F.Out(flg, r) == F.SubWith(old(flg), w, d, s, c)
      ensures r == F.Diff(w, d, s, c) && forall j :: Bit(flg, j) == FlagAfterSub(old(flg), w, d, s, c, true, j)
    {
      hide F.CalcBorrowChain, F.SetSzp, Pow2, Low, SetBit, Bit;
      forall j ensures Bit(F.SubWith(flg, w, d, s, c).flg, j) == FlagAfterSub(flg, w, d, s, c, true, j) {
        SubMeaning(flg, w, d, s, c, j);
      }
      SubMeaning(flg, w, d, s, c, F.CF);
      PowMonotone(w, 32);
      var res := F.Diff(32, d, s, c);
      SetSzpFlags(w, res);
      CalcBorrowChain(w, d, s, res, true);
      r := Low(res, w);
    }

    /** cmp_byte, cmp_word, cmp_long. */
    method Cmp(w: nat, d: nat, s: nat) returns (r: nat)
      requires F.Width(w) && d < Pow2(w) && s < Pow2(w)
      modifies this`flg
      ensures F.Out(flg, r) == F.Cmp(old(flg), w, d, s)
    {
      var _ := Subtract(w, d, s, 0);
      r := d;
    }

    method Inc(w: nat, d: nat) returns (r: nat)
      requires F.Width(w) && d < Pow2(w)
      modifies this`flg
      ensures F.Out(flg, r) == F.Inc(old(flg), w, d)
      ensures Bit(flg, F.CF) == Bit(old(flg), F.CF)
    {
      hide F.CalcCarryChain, F.SetSzp, Pow2, Low, SetBit, Bit;
      IncMeaning(flg, w, d, F.CF);
      PowMonotone(w, 32);
      var res := F.Sum(32, d, 1, 0);
      SetSzpFlags(w, res);
      CalcCarryChain(w, d, 1, res, false);
      r := Low(res, w);
    }

    method Dec(w: nat, d: nat) returns (r: nat)
      requires F.Width(w) && d < Pow2(w)
      modifies this`flg
      ensures F.Out(flg, r) == F.Dec(old(flg), w, d)
      ensures Bit(flg, F.CF) == Bit(old(flg), F.CF)
    {
      hide F.CalcBorrowChain, F.SetSzp, Pow2, Low, SetBit, Bit;
      DecMeaning(flg, w, d, F.CF);
      PowMonotone(w, 32);
      var res := F.Diff(32, d, 1, 0);
      SetSzpFlags(w, res);
      CalcBorrowChain(w, d, 1, res, false);
      r := Low(res, w);
    }

    // ---------- multiplication and division ----------

    /** Set or clear both of CF and OF. */
    method SetWide(wide: bool)
      modifies this`flg
      ensures flg == SetBit(SetBit(old(flg), F.CF, wide), F.OF, wide)
    {
      ConditionalSetFlag(wide, F.CF);
      ConditionalSetFlag(wide, F.OF);
    }

    /** imul_long: CF and OF tell whether the product needs more than 32 bits. */
    method ImulLong(s: u32)
      modifies this`eax, this`edx, this`flg
      ensures Signed64(edx, eax) == Signed32(old(eax)) * Signed32(s)
      ensures var wide := !(-0x8000_0000 <= Signed32(old(eax)) * Signed32(s) < 0x8000_0000);
              flg == SetBit(SetBit(old(flg), F.CF, wide), F.OF, wide)
    {
      eax, edx := ImulLongDirect(eax, s);
      SetWide(!((eax < 0x8000_0000 && edx == 0) || (eax >= 0x8000_0000 && edx == 0xFFFF_FFFF)));
    }

    method MulLong(s: u32)
      modifies this`eax, this`edx, this`flg
      ensures edx * B32 + eax == old(eax) * s - if CrossSum(old(eax), s) < B32 then 0 else B16 * B32
      ensures flg == SetBit(SetBit(old(flg), F.CF, edx != 0), F.OF, edx != 0)
    {
      eax, edx := LimbMultiply(eax, s);
      SetWide(edx != 0);
    }

    /** x86emu_intr_raise. */
    method IntrRaise(n: u8)
      modifies this`intno, this`intr
      ensures intno == n && intr == Or(old(intr), INTR_SYNCH)
    {
      intno := n;
      intr := Or(intr, INTR_SYNCH);
    }

    /** div_long: EDX:EAX by s. */
    method DivLong(s: u32)
      modifies this`eax, this`edx, this`flg, this`intno, this`intr
      ensures match LongDivision(old(edx) * B32 + old(eax), s)
        case Raise =>
          intno == 0 && intr == Or(old(intr), INTR_SYNCH) && eax == old(eax) && edx == old(edx) && flg == old(flg)
        case Quotient(div, mod) =>
          && eax == div && edx == mod && intno == old(intno) && intr == old(intr)
          && flg == SetBit(SetBit(SetBit(SetBit(SetBit(old(flg), F.CF, false), F.AF, false), F.SF, false),
                                  F.ZF, true), F.PF, EvenParity(Low(mod, 8)))
    {
      hide Scaled, Restored, Pow2, SetBit, EvenParity, Parity, Low, Or;
      if s == 0 {
        IntrRaise(0);
        return;
      }
      var div, h, l := RestoringDivision(edx, eax, s);
      assert (h != 0 || l > s) <==> h * B32 + l > s;
      if h != 0 || l > s {
        IntrRaise(0);
        return;
      }
      ConditionalSetFlag(false, F.CF);
      ConditionalSetFlag(false, F.AF);
      ConditionalSetFlag(false, F.SF);
      ConditionalSetFlag(true, F.ZF);
      TableCountsBits(l);
      ConditionalSetFlag(Parity(l), F.PF);
      eax, edx := div, l;
    }

    // ---------- memory, stack, interrupts ----------

    method WriteWord(addr: nat, v: u16)
      requires Valid()
      modifies mem
      ensures mem[..] == Wrw(old(mem[..]), addr, v)
    {
      mem[Phys(addr)] := v % 0x100;
      mem[Phys(addr + 1)] := v / 0x100;
    }

    method ReadWord(addr: nat) returns (v: u16)
      requires Valid()
      ensures v == Rdw(mem[..], addr)
    {
      v := Word(mem[Phys(addr)], mem[Phys(addr + 1)]);
    }

    method PushWord(v: u16)
      requires Valid()
      modifies this`sp, mem
      ensures State() == Push(old(State()), v)
    {
      sp := Down2(sp);
      WriteWord(Linear(ss, sp), v);
    }

    method PopWord() returns (v: u16)
      requires Valid()
      modifies this`sp
      ensures v == Popped(old(State())) && State() == Pop(old(State()))
    {
      v := ReadWord(Linear(ss, sp));
      sp := Up(sp, 2);
    }

    method FetchByte() returns (v: u8)
      requires Valid()
      modifies this`ip
      ensures v == Fetched(old(State())) && State() == Advance(old(State()))
    {
      v := mem[Phys(Linear(cs, ip))];
      ip := Up(ip, 1);
    }

    /** The frame and the jump to the vector that INT and a pending interrupt share. */
    method EnterInterrupt(n: u8)
      requires Valid()
      modifies this`cs, this`ip, this`sp, this`flg, mem
      ensures State() == Deliver(old(State()), n)
    {
      hide Push, Rdw, SetBit;
      var vector: nat := n;
      PushWord(flg % 0x1_0000);
      ConditionalSetFlag(false, IF);
      ConditionalSetFlag(false, TF);
      PushWord(cs);
      cs := ReadWord(vector * 4 + 2);
      PushWord(ip);
      ip := ReadWord(vector * 4);
    }

    method OpInt()
      requires Valid()
      modifies this`cs, this`ip, this`sp, this`flg, mem
      ensures State() == IntImm(old(State()))
    {
      hide Deliver, Fetched;
      var n := FetchByte();
      EnterInterrupt(n);
    }

    method OpIret()
      requires Valid()
      modifies this`cs, this`ip, this`sp, this`flg
      ensures State() == Iret(old(State()))
    {
      ip := PopWord();
      cs := PopWord();
      flg := PopWord();
    }

    /** Fetch and dispatch, for the opcodes modelled. */
    method ExecOne() returns (known: bool)
      requires Valid()
      modifies this`cs, this`ip, this`sp, this`flg, mem
      ensures known == Step(old(State())).Some?
      ensures State() == if known then Step(old(State())).value else Advance(old(State()))
    {
      hide IntImm, Iret;
      var op := FetchByte();
      known := true;
      if op == 0xCD {
        OpInt();
      } else if op == 0xCF {
        OpIret();
      } else {
        known := false;
      }
    }

    /** x86emu_intr_handle. */
    method IntrHandle()
      requires Valid()
      modifies this`cs, this`ip, this`sp, this`flg, this`intr, mem
      ensures CoreState() == Handled(old(CoreState()))
    {
      hide Deliver;
      if Bit(intr, SYNCH_BIT) {
        EnterInterrupt(intno);
        intr := 0;
      }
    }

    /** The body of X86EMU_exec's loop below the instruction limit. */
    method ExecPass() returns (halted: bool, known: bool)
      requires Valid()
      modifies this`cs, this`ip, this`sp, this`flg, this`intr, mem
      ensures match Pass(old(CoreState()))
        case Halted => halted && CoreState() == old(CoreState())
        case Unknown(c) => !halted && !known && CoreState() == c
        case Running(c) => !halted && known && CoreState() == c
    {
      hide Deliver, Step, Handled;
      halted, known := false, true;
      if intr != 0 {
        if Bit(intr, HALTED_BIT) {
          return true, true;
        }
        if (Bit(intr, SYNCH_BIT) && (intno == 0 || intno == 2)) || !Bit(flg, IF) {
          IntrHandle();
        }
      }
      NotHalted();
      known := ExecOne();
    }

    /** X86EMU_exec with its instruction limit; it gives up at an opcode outside the model. */
    method Exec(limit: nat) returns (stuck: bool)
      requires Valid()
      modifies this`cs, this`ip, this`sp, this`flg, this`intr, mem
      ensures match Passes(old(CoreState()).(intr := 0), if limit == 0 then 0 else limit - 1)
        case OutOfTime(c) => !stuck && CoreState() == c
        case Stopped(c) => !stuck && CoreState() == c
        case Stuck(c) => stuck && CoreState() == c
    {
      hide Pass;
      intr := 0;
      ghost var start := CoreState();
      ghost var budget: nat := if limit == 0 then 0 else limit - 1;
      var loops: nat := 0;
      while true
        invariant loops <= budget && Passes(start, budget) == Passes(CoreState(), budget - loops)
        decreases budget - loops
      {
        loops := loops + 1;
        if loops >= limit {
          intr := Or(intr, 4);
          return false;
        }
        var halted, known := ExecPass();
        if halted {
          return false;
        }
        if !known {
          return true;
        }
      }
    }

    /**
     With the vectors in place, INT n and the stub's IRET leave every register but
     IP as it was, the low 16 flags, and all memory outside the six frame bytes.
     */
    method CallInterrupt(n: nat)
      requires Valid() && intr == 0 && n < 0x20 && VectorReady(mem[..], n) && FrameClear(State(), n)
      requires Fetched(State()) == 0xCD && Fetched(Advance(State())) == n
      modifies this`cs, this`ip, this`sp, this`flg, this`intr, mem
      ensures eax == old(eax) && ebx == old(ebx) && ecx == old(ecx) && edx == old(edx)
      ensures esi == old(esi) && edi == old(edi) && ebp == old(ebp)
      ensures ds == old(ds) && es == old(es) && ss == old(ss) && cs == old(cs) && sp == old(sp)
      ensures ip == Up(old(ip), 2) && flg == old(flg) % 0x1_0000 && intr == 0 && intno == old(intno)
      ensures OnlyFrame(old(State()), mem[..])
      ensures forall k :: 0 <= k < VECTORS && FrameClear(old(State()), k) && VectorReady(old(mem[..]), k) ==>
        VectorReady(mem[..], k)
    {
      hide Pass, VectorReady, FrameClear, OnlyFrame, Fetched;
      ghost var m := State();
      InterruptReturns(m, intno, n);
      var _, _ := ExecPass();
      var _, _ := ExecPass();
      forall k | 0 <= k < VECTORS && FrameClear(m, k) && VectorReady(m.mem, k)
        ensures VectorReady(mem[..], k)
      {
        FrameKeepsVector(m, mem[..], k);
      }
    }

    /**
     A division by zero and the next pass: the divide error is delivered and returned
     from, whatever IF is, and nothing but the upper flags and the frame is lost.
     */
    method DivideByZero()
      requires Valid() && intr == 0 && VectorReady(mem[..], 0) && FrameClear(State(), 0)
      modifies this`eax, this`edx, this`cs, this`ip, this`sp, this`flg, this`intno, this`intr, mem
      ensures eax == old(eax) && edx == old(edx) && ss == old(ss) && cs == old(cs) && sp == old(sp) && ip == old(ip)
      ensures flg == old(flg) % 0x1_0000 && intr == 0 && OnlyFrame(old(State()), mem[..])
    {
      hide Pass, VectorReady, FrameClear, OnlyFrame, LongDivision;
      ghost var m := State();
      ByZero(edx * B32 + eax);
      DivLong(0);
      PendingReturns(Core(m, 1, 0));
      var _, _ := ExecPass();
    }

    /** One turn of ivt_init: the stub and the four vector bytes. */
    method InitVector(i: nat)
      requires Valid() && i < VECTORS
      modifies mem
      ensures VectorReady(mem[..], i)
      ensures forall a :: 0 <= a < MEM && !VectorByte(i, a) ==> mem[a] == old(mem[a])
    {
      hide Phys;
      var off := STUB_OFF_BASE + i;
      StubAt(i);
      mem[Phys(Linear(STUB_SEG, off))] := 0xCF;
      mem[i * 4 + 0] := off % 0x100;
      mem[i * 4 + 1] := off / 0x100;
      mem[i * 4 + 2] := STUB_SEG % 0x100;
      mem[i * 4 + 3] := STUB_SEG / 0x100;
    }

    /** ivt_init: 32 vectors to 32 IRET stubs, and nothing else touched. */
    method IvtInit()
      requires Valid()
      modifies mem
      ensures forall n :: 0 <= n < 0x20 ==> VectorReady(mem[..], n)
      ensures forall a :: 0 <= a < MEM && (forall n :: 0 <= n < VECTORS ==> !VectorByte(n, a)) ==> mem[a] == old(mem[a])
    {
      hide VectorReady, VectorByte;
      var i: nat := 0;
      while i < VECTORS
        invariant i <= VECTORS
        invariant forall n :: 0 <= n < i ==> VectorReady(mem[..], n)
        invariant forall a :: 0 <= a < MEM && (forall n :: 0 <= n < VECTORS ==> !VectorByte(n, a)) ==>
          mem[a] == old(mem[a])
      {
        ghost var before := mem[..];
        InitVector(i);
        forall n | 0 <= n < i
          ensures VectorReady(mem[..], n)
        {
          VectorsApart(before, mem[..], n, i);
        }
        i := i + 1;
      }
    }
  }

  /** Setting up one vector leaves the others as they are. */
  lemma VectorsApart(before: Memory, after: Memory, n: nat, i: nat)
    requires n < i < VECTORS && VectorReady(before, n)
    requires forall a :: 0 <= a < MEM && !VectorByte(i, a) ==> after[a] == before[a]
    ensures VectorReady(after, n)
  {
    hide Phys;
    StubAt(n);
    StubAt(i);
    assert after[0xF_1000 + n] == before[0xF_1000 + n];
    assert forall b :: 4 * n <= b < 4 * n + 4 ==> after[b] == before[b];
  }

  lemma StubAt(n: nat)
    requires n < VECTORS
    ensures Phys(Linear(STUB_SEG, STUB_OFF_BASE + n)) == 0xF_1000 + n
  {
  }

  lemma ByZero(dvd: u64)
    ensures LongDivision(dvd, 0) == Raise && Or(0, INTR_SYNCH) == 1
  {
  }
}
