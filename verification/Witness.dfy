// Small programs: one that meets every hypothesis of the refinement for runs of
// any length, and two that show what happens without the stable code bytes and
// without the implemented CSRs.
module Witness {
  import opened Bits
  import opened BitFields
  import opened Words
  import opened Decode
  import opened Machine
  import opened Blocks
  import opened Reference
  import opened CacheMachine
  import opened Immediates
  import opened Instructions
  import opened ShortInstructions
  import opened Masks
  import opened HandlerFacts

  // c.j to itself, twice
  const SPIN: U32 := 0xa001_a001

  lemma ZerosBelow(n: nat, hi: nat)
    ensures Cat(0, n, hi) == Pow2(n) * hi
  {
    hide Cat, Low, Pow2;
    CatIsSum(0, n, hi);
    SplitIsDivMod(0, n);
  }

  lemma SpinWord()
    ensures EncodeCJ(0, 1, 5) == 0xa001
  {
    hide Cat, Low, Shr, Slice, Pow2;
    Pow2Values();
    ZeroSlice(5, 5); ZeroSlice(3, 1); ZeroSlice(7, 7); ZeroSlice(6, 6); ZeroSlice(10, 10);
    ZeroSlice(9, 8); ZeroSlice(4, 4); ZeroSlice(11, 11);
    CatIsSum(5, 3, 0);
    LowSmall(5, 3);
    ZerosBelow(1, 5); ZerosBelow(1, 10); ZerosBelow(2, 20); ZerosBelow(1, 80); ZerosBelow(1, 160);
    ZerosBelow(1, 320); ZerosBelow(3, 640); ZerosBelow(1, 5120);
    CatIsSum(1, 2, 10240);
    LowSmall(1, 2);
    SplitIsDivMod(0xa001, 32);
  }

  lemma SpinDecodes(pc: Word)
    ensures DecodeInsn(pc, SPIN) == Jump(pc, 2, 0, 0)
  {
    hide DecodeInsn, EncodeCJ;
    SpinWord();
    CJDecodes(pc, SPIN, 0);
  }

  function SpinMemory(): Memory {
    map[0 := 0x01, 1 := 0xa0, 2 := 0x01, 3 := 0xa0]
  }

  function SpinBlock(): seq<Fetched> {
    [Fetched(0, SPIN)]
  }

  function FourBytes(b0: nat, b1: nat, b2: nat, b3: nat): nat {
    b0 + 0x100 * (b1 + 0x100 * (b2 + 0x100 * b3))
  }

  lemma LoadFourBytes(mem: Memory, a: Word)
    requires a + 4 < TWO64 && a in mem && a + 1 in mem && a + 2 in mem && a + 3 in mem
    ensures LoadBytes(mem, a, 4) == Some(FourBytes(mem[a], mem[a + 1], mem[a + 2], mem[a + 3]))
  {
    hide LoadBytes;
    LoadNothing(mem, a + 4);
    LoadOneMore(mem, a + 3, 0);
    LoadOneMore(mem, a + 2, 1);
    LoadOneMore(mem, a + 1, 2);
    LoadOneMore(mem, a, 3);
  }

  lemma SpinIsFetched()
    ensures Fetch(SpinMemory(), 0) == Some(SPIN)
  {
    hide LoadBytes;
    LoadFourBytes(SpinMemory(), 0);
  }

  predicate Spins(m: Machine) {
    m.mem == SpinMemory() && m.pc == 0 && m.gpr[0] == 0 && m.exception == NoException
  }

  lemma SpinExecutes(m: Machine)
    requires Spins(m)
    ensures ExecChecked(Fetched(0, SPIN).Insn(), m) == Next(m)
    ensures DecodeBlock(m.mem, 0) == Some(SpinBlock())
    ensures Complete(SpinBlock()) && CsrsOk(SpinBlock())
  {
    hide DecodeInsn, Fetch;
    SpinDecodes(0);
    SpinIsFetched();
  }

  lemma SpinSteps(sys: Kernel, m: Machine)
    requires Spins(m)
    ensures RefStep(sys, Next(m)) == Next(m)
    ensures CacheStep(sys, Live(m, map[], 0)) == Live(m, map[0 := SpinBlock()], 2)
    ensures CacheStep(sys, Live(m, map[0 := SpinBlock()], 2)) == Live(m, map[0 := SpinBlock()], 2)
  {
    hide DecodeInsn, Fetch, DecodeFrom, ExecChecked;
    SpinExecutes(m);
    SpinDecodes(0);
    SpinIsFetched();
    RunStep(SpinBlock(), m);
    assert SpinBlock()[1..] == [];
    assert Insns([]) == [];
  }

  lemma {:induction false} SpinRuns(sys: Kernel, m: Machine, n: nat)
    requires Spins(m)
    ensures RefRun(sys, Next(m), n) == Next(m)
    ensures CacheRun(sys, Live(m, map[], 0), n) ==
      if n == 0 then Live(m, map[], 0) else Live(m, map[0 := SpinBlock()], 2)
  {
    hide RefStep, CacheStep;
    if n > 0 {
      SpinRuns(sys, m, n - 1);
      SpinSteps(sys, m);
    }
  }

  lemma SpinIsUnmodified(sys: Kernel, m: Machine)
    requires Spins(m)
    ensures GoodBoundary(sys, Next(m))
  {
    hide DecodeFrom, DecodeInsn, Fetch;
    SpinExecutes(m);
    SpinIsFetched();
    assert RefRun(sys, Next(m), 0) == Next(m);
    assert Unmodified(sys, SpinBlock(), m);
  }

  lemma HypothesesCanBeMet(sys: Kernel, m: Machine, n: nat)
    requires Spins(m)
    ensures GoodRun(sys, Next(m), n)
    ensures RoomThroughout(sys, Live(m, map[], 0), n)
  {
    hide RefRun, CacheRun, DecodeFrom, DecodeInsn, Steps, GoodBoundary;
    SpinExecutes(m);
    SpinIsUnmodified(sys, m);
    forall k: nat ensures Boundary(sys, Next(m), k) == Next(m) {
      SpinRuns(sys, m, Steps(sys, Next(m), k));
    }
    forall j | 0 <= j < n ensures HasRoom(sys, CacheRun(sys, Live(m, map[], 0), j)) {
      SpinRuns(sys, m, j);
    }
  }

  // ---- Code that modifies itself ----

  // c.swsp x0, 0(sp) and the jump it overwrites when sp is 2
  const STORE: U32 := 0xa001_c002

  function SelfModifying(): Memory {
    map[0 := 0x02, 1 := 0xc0, 2 := 0x01, 3 := 0xa0, 4 := 0x01, 5 := 0xa0]
  }

  function AfterStore(): Memory {
    map[0 := 0x02, 1 := 0xc0, 2 := 0, 3 := 0, 4 := 0, 5 := 0]
  }

  predicate Modifies(m: Machine) {
    m.mem == SelfModifying() && m.pc == 0 && m.gpr[0] == 0 && m.gpr[2] == 2 && m.exception == NoException
  }

  lemma StoreWord()
    ensures EncodeCSwsp(0, 2, 0, 6) == 0xc002
  {
    hide Cat, Low, Shr, Slice, Pow2;
    Pow2Values();
    ZeroSlice(7, 6); ZeroSlice(5, 2);
    CatIsSum(6, 3, 0);
    LowSmall(6, 3);
    ZerosBelow(4, 6); ZerosBelow(2, 96); ZerosBelow(5, 384);
    CatIsSum(2, 2, 12288);
    LowSmall(2, 2);
    SplitIsDivMod(0xc002, 32);
  }

  function ModifyingBlock(): seq<Fetched> {
    [Fetched(0, STORE), Fetched(2, SPIN)]
  }

  lemma ModifyingDecodes()
    ensures DecodeInsn(0, STORE) == Straight(Insn(DoStore(4), 2, 0, 0, 0, 0))
    ensures InsnLen(STORE) == 2
    ensures DecodeInsn(2, 0) == Illegal(2)
  {
    hide DecodeInsn, EncodeCSwsp, And, Extract32;
    StoreWord();
    CSwspDecodes(0, STORE, 0, 0);
    LengthMask(STORE);
    NoWord(2);
    assert Extract32(STORE, 0, 2) == 2 by { ExtractMeaning(STORE, 0, 2); Pow2Values(); }
  }

  lemma NoWord(pc: Word)
    ensures DecodeInsn(pc, 0) == Illegal(pc)
  {
    hide TransCAddi, TransCLui, DecodeCArith, DecodeCMove, Guarded, RegAt, CRegAt, ImmCAddi4spn, Extract32;
  }

  lemma ModifyingBlockDecodes()
    ensures DecodeBlock(SelfModifying(), 0) == Some(ModifyingBlock())
    ensures Complete(ModifyingBlock()) && CsrsOk(ModifyingBlock())
  {
    hide DecodeInsn, LoadBytes, InsnLen;
    ModifyingDecodes();
    SpinDecodes(2);
    LoadFourBytes(SelfModifying(), 0);
    LoadFourBytes(SelfModifying(), 2);
    var fs := ModifyingBlock();
    assert fs[0].After() == 2;
    TranslationIsExact(SelfModifying(), 0, TRANS_MAX, fs);
  }

  lemma StoreErases(m: Machine)
    requires Modifies(m)
    ensures Exec(Fetched(0, STORE).Insn(), m) == Next(m.(mem := AfterStore()))
  {
    hide DecodeInsn, StoreBytes;
    ModifyingDecodes();
    ErasedBytes();
  }

  lemma ErasedBytes()
    ensures StoreBytes(SelfModifying(), 2, 4, 0) == Some(AfterStore())
  {
    hide StoreBytes;
    var b0 := SelfModifying();
    var b1, b2, b3 := b0[2 := 0], b0[2 := 0][3 := 0], b0[2 := 0][3 := 0][4 := 0];
    StoreOneMore(b0, 2, 3, 0);
    StoreOneMore(b1, 3, 2, 0);
    StoreOneMore(b2, 4, 1, 0);
    StoreOneMore(b3, 5, 0, 0);
    StoreNothing(b3[5 := 0], 6, 0);
    assert b3[5 := 0] == AfterStore();
  }

  lemma ModifyingEmulator(sys: Kernel, m: Machine)
    requires Modifies(m)
    ensures CacheStep(sys, Live(m, map[], 0)) == Live(m.(mem := AfterStore(), pc := 2), map[0 := ModifyingBlock()], 2)
  {
    hide DecodeInsn, RunInsns, Insns, DecodeFrom;
    ModifyingBlockDecodes();
    ModifyingRun(m);
  }

  lemma JumpsTo(m: Machine, pc: Word)
    requires m.gpr[0] == 0
    ensures Exec(Fetched(pc, SPIN).Insn(), m) == Next(m.(pc := pc))
  {
    hide DecodeInsn;
    SpinDecodes(pc);
  }

  lemma ModifyingReference(sys: Kernel, m: Machine)
    requires Modifies(m)
    ensures RefRun(sys, Next(m), 2) == Next(m.(mem := AfterStore(), pc := 2, exception := IllegalInst))
  {
    hide RefStep;
    ModifyingSteps(sys, m);
    assert RefRun(sys, Next(m), 0) == Next(m);
    assert RefRun(sys, Next(m), 1) == RefStep(sys, Next(m));
    assert RefRun(sys, Next(m), 2) == RefStep(sys, RefRun(sys, Next(m), 1));
  }

  lemma ModifyingFetches()
    ensures Fetch(SelfModifying(), 0) == Some(STORE) && Fetch(AfterStore(), 2) == Some(0)
  {
    hide LoadBytes;
    LoadFourBytes(SelfModifying(), 0);
    LoadFourBytes(AfterStore(), 2);
  }

  lemma ModifyingSteps(sys: Kernel, m: Machine)
    requires Modifies(m)
    ensures var m1 := m.(mem := AfterStore(), pc := 2);
      RefStep(sys, Next(m)) == Next(m1) && RefStep(sys, Next(m1)) == Next(m1.(exception := IllegalInst))
  {
    hide DecodeInsn, Exec, Fetch, InsnLen, RefStep, SelfModifying, AfterStore;
    var m1 := m.(mem := AfterStore(), pc := 2);
    ModifyingDecodes();
    ModifyingFetches();
    StoreErases(m);
    IllegalRaises(2, m1);
    FetchStep(sys, m, STORE);
    FetchStep(sys, m1, 0);
  }

  lemma IllegalRaises(pc: Word, m: Machine)
    ensures Exec(Illegal(pc).insn, m) == Next(m.(exception := IllegalInst, pc := pc))
  {
  }

  // The block is good where it is entered and there is room for it, but it is
  // modified while it runs: afterwards the emulator is about to jump for ever,
  // and the interpreter has met an illegal instruction.
  lemma StableCodeIsNeeded(sys: Kernel, m: Machine)
    requires Modifies(m)
    ensures GoodBlock(m.mem, m.pc) && RoomThroughout(sys, Live(m, map[], 0), 1)
    ensures !Unmodified(sys, DecodeBlock(m.mem, m.pc).value, m)
    ensures !Agrees(sys, Next(m), 1, CacheRun(sys, Live(m, map[], 0), 1))
  {
    hide RefRun, CacheStep, DecodeFrom, DecodeInsn, Unmodified;
    ModifyingBlockDecodes();
    ModifyingEmulator(sys, m);
    ModifyingReference(sys, m);
    assert CacheRun(sys, Live(m, map[], 0), 0) == Live(m, map[], 0);
    assert CacheRun(sys, Live(m, map[], 0), 1) == CacheStep(sys, Live(m, map[], 0));
    assert BlockLength(sys, Next(m)) == 2;
    RunZero(sys, Next(m));
    BoundaryStep(sys, Next(m), 0);
    if Unmodified(sys, ModifyingBlock(), m) {
      BlockAgrees(sys, ModifyingBlock(), m);
      ModifyingRun(m);
      assert false;
    }
  }

  lemma ModifyingRun(m: Machine)
    requires Modifies(m)
    ensures RunInsns(Insns(ModifyingBlock()), m) == Next(m.(mem := AfterStore(), pc := 2))
  {
    hide DecodeInsn, Exec;
    ModifyingDecodes();
    StoreErases(m);
    var m1 := m.(mem := AfterStore());
    RunStep(ModifyingBlock(), m);
    JumpsTo(m1, 2);
    assert ModifyingBlock()[1..] == [Fetched(2, SPIN)];
    RunStep([Fetched(2, SPIN)], m1);
    assert [Fetched(2, SPIN)][1..] == [] && Insns([]) == [];
  }

  // ---- A failing CSR access before an ecall ----

  // csrrw x0, 0x7ff, x0 and ecall
  const CSRRW: U32 := 0x7ff0_1073
  const ECALL: U32 := 0x0000_0073

  function CsrProgram(): Memory {
    map[0 := 0x73, 1 := 0x10, 2 := 0xf0, 3 := 0x7f, 4 := 0x73, 5 := 0, 6 := 0, 7 := 0]
  }

  predicate Unimplemented(m: Machine) {
    m.mem == CsrProgram() && m.pc == 0 && m.gpr[0] == 0 && m.exception == NoException
  }

  lemma CsrWords()
    ensures EncodeI(0x7ff, 0x73, 0, 1, 0) == CSRRW
    ensures EncodeI(0, 0x73, 0, 0, 0) == ECALL
  {
    hide Cat, Low, Shr, Pow2;
    Pow2Values();
    HighPowers();
    Whole(0x7ff);
    Whole(0);
    LowSmall(0x7ff, 12);
    LowSmall(0, 12);
    CatIsSum(0x7ff, 12, 0); CatIsSum(0, 12, 0);
    ZerosBelow(5, 0x7ff); ZerosBelow(5, 0);
    CatIsSum(1, 3, 0xffe0); CatIsSum(0, 3, 0);
    LowSmall(1, 3); LowSmall(0, 3);
    ZerosBelow(5, 0x7ff01);
    CatIsSum(0x73, 7, 0xffe020); CatIsSum(0x73, 7, 0);
    LowSmall(0x73, 7);
    SplitIsDivMod(0x7ff0_1073, 32); SplitIsDivMod(0x73, 32);
  }

  function CsrBlock(): seq<Fetched> {
    [Fetched(0, CSRRW), Fetched(4, ECALL)]
  }

  lemma CsrInsnsDecode()
    ensures DecodeInsn(0, CSRRW) == Straight(Insn(DoCsr(Write, false), 0, 0, 0, 0x7ff, 0))
    ensures DecodeInsn(4, ECALL) == Ecall(4)
    ensures InsnLen(CSRRW) == 4
  {
    hide DecodeInsn, InsnLen, EncodeI, Extract32, ImmI, Slice;
    CsrWords();
    CsrDecodes(0, 0x7ff, 0, 1, 0);
    EcallDecodes(4, 0, 0, 0);
    DecodeEncodeI(0x7ff, 0x73, 0, 1, 0);
    LongOpcode(CSRRW, 0x73);
  }

  lemma CsrBlockDecodes()
    ensures DecodeBlock(CsrProgram(), 0) == Some(CsrBlock()) && Complete(CsrBlock()) && !CsrsOk(CsrBlock())
  {
    hide DecodeInsn, LoadBytes, InsnLen;
    CsrInsnsDecode();
    LoadFourBytes(CsrProgram(), 0);
    LoadFourBytes(CsrProgram(), 4);
    var fs := CsrBlock();
    assert fs[0].After() == 4;
    TranslationIsExact(CsrProgram(), 0, TRANS_MAX, fs);
    assert !CsrOk(fs[0].Insn());
  }

  // No instruction of this block writes memory.
  lemma CsrBlockIsUnmodified(sys: Kernel, m: Machine)
    requires Unimplemented(m)
    ensures Unmodified(sys, CsrBlock(), m)
  {
    hide DecodeInsn, Fetch, InsnLen, RefStep, CsrProgram;
    CsrInsnsDecode();
    CsrFetches();
    FailingExec(m);
    FetchStep(sys, m, CSRRW);
    assert RefRun(sys, Next(m), 0) == Next(m);
    assert RefRun(sys, Next(m), 1) == RefStep(sys, Next(m));
  }

  lemma CsrFetches()
    ensures Fetch(CsrProgram(), 0) == Some(CSRRW) && Fetch(CsrProgram(), 4) == Some(ECALL)
  {
    hide LoadBytes;
    LoadFourBytes(CsrProgram(), 0);
    LoadFourBytes(CsrProgram(), 4);
  }

  lemma FailingExec(m: Machine)
    requires m.gpr[0] == 0
    ensures Exec(Fetched(0, CSRRW).Insn(), m) == Next(m.(exception := IllegalInst, pc := 0))
  {
    hide DecodeInsn;
    CsrInsnsDecode();
  }

  // Every other hypothesis holds: the block is closed by an exit, is not
  // modified, and there is room for it.  The interpreter stops at the illegal
  // access.  In the emulator the ecall that follows in the same block overwrites
  // the exception, and the run goes on.
  lemma ImplementedCsrsAreNeeded(sys: Kernel, m: Machine)
    requires Unimplemented(m)
    ensures DecodeBlock(m.mem, m.pc) == Some(CsrBlock()) && Complete(CsrBlock()) && Unmodified(sys, CsrBlock(), m)
    ensures RoomThroughout(sys, Live(m, map[], 0), 1)
    ensures CacheRun(sys, Live(m, map[], 0), 1) == Live(m.(exception := UserEcall, pc := 4), map[0 := CsrBlock()], 2)
    ensures Boundary(sys, Next(m), 1) == Halted(IllegalExit)
  {
    hide DecodeInsn, RefRun, DecodeFrom, Unmodified, RunInsns, Insns, CsrProgram, CsrBlock;
    CsrBlockDecodes();
    CsrBlockIsUnmodified(sys, m);
    CsrStep(sys, m);
    CsrReference(sys, m);
  }

  lemma CsrStep(sys: Kernel, m: Machine)
    requires Unimplemented(m)
    ensures RoomThroughout(sys, Live(m, map[], 0), 1)
    ensures CacheRun(sys, Live(m, map[], 0), 1) == Live(m.(exception := UserEcall, pc := 4), map[0 := CsrBlock()], 2)
  {
    hide DecodeInsn, DecodeFrom, RunInsns, Insns;
    CsrBlockDecodes();
    CsrRun(m);
    assert CacheRun(sys, Live(m, map[], 0), 0) == Live(m, map[], 0);
    assert CacheRun(sys, Live(m, map[], 0), 1) == CacheStep(sys, Live(m, map[], 0));
  }

  lemma CsrReference(sys: Kernel, m: Machine)
    requires Unimplemented(m)
    ensures Boundary(sys, Next(m), 1) == Halted(IllegalExit)
  {
    hide DecodeInsn, RefRun, DecodeFrom, Unmodified, RunInsns, Insns;
    CsrBlockDecodes();
    CsrBlockIsUnmodified(sys, m);
    CsrRun(m);
    DecodedIsStraightLine(m.mem, m.pc, TRANS_MAX);
    FailingCsrIsSeenExactly(sys, CsrBlock(), m);
    assert BlockLength(sys, Next(m)) == 2;
    RunZero(sys, Next(m));
    BoundaryStep(sys, Next(m), 0);
  }

  lemma CsrRun(m: Machine)
    requires Unimplemented(m)
    ensures RunInsns(Insns(CsrBlock()), m) == Next(m.(exception := UserEcall, pc := 4))
  {
    hide DecodeInsn;
    CsrInsnsDecode();
    var m1 := m.(exception := IllegalInst, pc := 0);
    assert Exec(Fetched(0, CSRRW).Insn(), m) == Next(m1);
    assert Exec(Fetched(4, ECALL).Insn(), m1) == Next(m.(exception := UserEcall, pc := 4));
    RunStep(CsrBlock(), m);
    assert CsrBlock()[1..] == [Fetched(4, ECALL)];
    RunStep([Fetched(4, ECALL)], m1);
    assert [Fetched(4, ECALL)][1..] == [] && Insns([]) == [];
  }

  // ---- Code that arrives through a system call ----

  function EcallMemory(): Memory {
    map[0 := 0x73, 1 := 0, 2 := 0, 3 := 0]
  }

  // The kernel maps the spinning jump at 4.
  function Mapped(): Memory {
    map[0 := 0x73, 1 := 0, 2 := 0, 3 := 0, 4 := 0x01, 5 := 0xa0, 6 := 0x01, 7 := 0xa0]
  }

  predicate Maps(sys: Kernel, m: Machine) {
    && m.mem == EcallMemory() && m.pc == 0 && m.gpr[0] == 0 && m.exception == NoException
    && sys(m.calls, m.gpr, m.mem) == SysReturn(0, Mapped())
  }

  function AfterCall(m: Machine): Machine {
    m.(pc := 4, gpr := m.gpr[A0 := 0], mem := Mapped(), calls := m.calls + 1)
  }

  function EcallBlock(): seq<Fetched> {
    [Fetched(0, ECALL)]
  }

  function JumpBlock(): seq<Fetched> {
    [Fetched(4, SPIN)]
  }

  lemma EcallBlockDecodes()
    ensures DecodeInsn(0, ECALL) == Ecall(0)
    ensures Fetch(EcallMemory(), 0) == Some(ECALL)
    ensures DecodeBlock(EcallMemory(), 0) == Some(EcallBlock())
    ensures Complete(EcallBlock()) && CsrsOk(EcallBlock())
  {
    hide DecodeInsn, LoadBytes;
    EcallWord(0);
    LoadFourBytes(EcallMemory(), 0);
  }

  lemma EcallWord(pc: Word)
    ensures DecodeInsn(pc, ECALL) == Ecall(pc)
  {
    hide DecodeInsn, EncodeI;
    CsrWords();
    EcallDecodes(pc, 0, 0, 0);
  }

  lemma JumpBlockDecodes()
    ensures Fetch(Mapped(), 4) == Some(SPIN)
    ensures DecodeBlock(Mapped(), 4) == Some(JumpBlock())
    ensures Complete(JumpBlock()) && CsrsOk(JumpBlock())
  {
    hide DecodeInsn, LoadBytes;
    SpinDecodes(4);
    LoadFourBytes(Mapped(), 4);
  }

  lemma OneInsn(f: Fetched, m: Machine)
    ensures RunInsns(Insns([f]), m) == ExecChecked(f.Insn(), m)
  {
    hide DecodeInsn, ExecChecked;
    RunStep([f], m);
    assert [f][1..] == [] && Insns([]) == [];
  }

  // The boundaries of the run: the ecall, the pending ecall, and then the jump
  // for ever.
  lemma MappedSteps(sys: Kernel, m: Machine)
    requires Maps(sys, m)
    ensures var pending, after := m.(exception := UserEcall, pc := 0), AfterCall(m);
      && RefStep(sys, Next(m)) == Next(pending)
      && CacheStep(sys, Live(m, map[], 0)) == Live(pending, map[0 := EcallBlock()], 2)
      && Resume(sys, pending) == Next(after)
      && RefStep(sys, Next(pending)) == Next(after) == RefStep(sys, Next(after))
      && CacheStep(sys, Live(pending, map[0 := EcallBlock()], 2))
        == Live(after, map[0 := EcallBlock(), 4 := JumpBlock()], 4)
      && CacheStep(sys, Live(after, map[0 := EcallBlock(), 4 := JumpBlock()], 4))
         == Live(after, map[0 := EcallBlock(), 4 := JumpBlock()], 4)
  {
    hide DecodeInsn, Fetch, DecodeFrom, RunInsns, Insns;
    EcallBlockDecodes();
    JumpBlockDecodes();
    SpinDecodes(4);
    OneInsn(Fetched(0, ECALL), m);
    JumpsTo(AfterCall(m), 4);
    OneInsn(Fetched(4, SPIN), AfterCall(m));
    assert map[0 := EcallBlock()][4 := JumpBlock()] == map[0 := EcallBlock(), 4 := JumpBlock()];
  }

  function MappedAt(m: Machine, n: nat): Machine {
    if n == 0 then m else if n == 1 then m.(exception := UserEcall, pc := 0) else AfterCall(m)
  }

  lemma {:induction false} MappedRuns(sys: Kernel, m: Machine, n: nat)
    requires Maps(sys, m)
    ensures RefRun(sys, Next(m), n) == Next(MappedAt(m, n))
    ensures CacheRun(sys, Live(m, map[], 0), n) ==
      if n == 0 then Live(m, map[], 0)
      else if n == 1 then Live(MappedAt(m, 1), map[0 := EcallBlock()], 2)
      else Live(AfterCall(m), map[0 := EcallBlock(), 4 := JumpBlock()], 4)
  {
    hide RefStep, CacheStep;
    if n > 0 {
      MappedRuns(sys, m, n - 1);
      MappedSteps(sys, m);
    }
  }

  // Boundary n is step n: every block here has one instruction.
  lemma {:induction false} MappedBoundaries(sys: Kernel, m: Machine, n: nat)
    requires Maps(sys, m)
    ensures Steps(sys, Next(m), n) == n && Boundary(sys, Next(m), n) == Next(MappedAt(m, n))
    ensures GoodBoundary(sys, Next(MappedAt(m, n)))
  {
    hide RefRun, DecodeFrom, DecodeInsn, Fetch;
    EcallBlockDecodes();
    JumpBlockDecodes();
    MappedSteps(sys, m);
    MappedRuns(sys, m, n);
    if n > 0 {
      MappedBoundaries(sys, m, n - 1);
    }
    RunZero(sys, Next(m));
    RunZero(sys, Next(AfterCall(m)));
  }

  // The jump is nowhere in the initial memory, and the hypotheses hold for runs
  // of any length.
  lemma CodeMayArriveLater(sys: Kernel, m: Machine, n: nat)
    requires Maps(sys, m)
    ensures DecodeBlock(m.mem, 4).None?
    ensures GoodRun(sys, Next(m), n) && RoomThroughout(sys, Live(m, map[], 0), n)
  {
    hide RefRun, CacheRun, DecodeFrom, DecodeInsn, Steps, GoodBoundary;
    EcallBlockDecodes();
    JumpBlockDecodes();
    MappedSteps(sys, m);
    NotYetMapped();
    forall k: nat ensures Boundary(sys, Next(m), k) == Next(MappedAt(m, k)) && GoodBoundary(sys, Next(MappedAt(m, k))) {
      MappedBoundaries(sys, m, k);
    }
    forall j | 0 <= j < n ensures HasRoom(sys, CacheRun(sys, Live(m, map[], 0), j)) {
      MappedRuns(sys, m, j);
    }
  }

  lemma NotYetMapped()
    ensures DecodeBlock(EcallMemory(), 4).None?
  {
    hide DecodeInsn;
    assert LoadBytes(EcallMemory(), 4, 4).None?;
  }

  // ---- Code that is replaced after it has run ----

  // c.jr x1, twice
  const RETURN: U32 := 0x8082_8082

  // The kernel puts the spinning jump over the ecall, and a return after it.
  function Replaced(): Memory {
    map[0 := 0x01, 1 := 0xa0, 2 := 0x01, 3 := 0xa0, 4 := 0x82, 5 := 0x80, 6 := 0x82, 7 := 0x80]
  }

  predicate Replaces(sys: Kernel, m: Machine) {
    && m.mem == EcallMemory() && m.pc == 0 && m.gpr[0] == 0 && m.gpr[1] == 0 && m.exception == NoException
    && sys(m.calls, m.gpr, m.mem) == SysReturn(0, Replaced())
  }

  function AfterReplacing(m: Machine): Machine {
    m.(pc := 4, gpr := m.gpr[A0 := 0], mem := Replaced(), calls := m.calls + 1)
  }

  function ReturnBlock(): seq<Fetched> {
    [Fetched(4, RETURN)]
  }

  lemma ReturnWord()
    ensures EncodeCR(2, 0, 1, 0, 4) == 0x8082
  {
    hide Cat, Low, Shr, Pow2;
    Pow2Values();
    CatIsSum(4, 3, 0);
    LowSmall(4, 3);
    ZerosBelow(1, 4);
    CatIsSum(1, 5, 8);
    LowSmall(1, 5);
    ZerosBelow(5, 257);
    CatIsSum(2, 2, 8224);
    LowSmall(2, 2);
    SplitIsDivMod(0x8082, 32);
  }

  lemma ReturnDecodes()
    ensures DecodeInsn(4, RETURN) == JumpReg(4, 2, 0, 1, 0)
  {
    hide DecodeInsn, EncodeCR;
    ReturnWord();
    CMoveDecodes(4, RETURN, 0, 1, 0);
  }

  lemma ReplacedBlocksDecode()
    ensures Fetch(Replaced(), 4) == Some(RETURN) && Fetch(Replaced(), 0) == Some(SPIN)
    ensures DecodeBlock(Replaced(), 4) == Some(ReturnBlock()) && DecodeBlock(Replaced(), 0) == Some(SpinBlock())
    ensures Complete(ReturnBlock()) && CsrsOk(ReturnBlock()) && Complete(SpinBlock()) && CsrsOk(SpinBlock())
  {
    hide DecodeInsn, LoadBytes;
    ReturnDecodes();
    SpinDecodes(0);
    LoadFourBytes(Replaced(), 4);
    LoadFourBytes(Replaced(), 0);
  }

  lemma Returns(m: Machine)
    requires m.gpr[0] == 0 && m.gpr[1] == 0
    ensures ExecChecked(Fetched(4, RETURN).Insn(), m) == Next(m.(pc := 0))
  {
    hide DecodeInsn;
    ReturnDecodes();
  }

  // The interpreter: the ecall, the return, and the jump that is there now.
  lemma ReplacedReference(sys: Kernel, m: Machine)
    requires Replaces(sys, m)
    ensures var pending, after := m.(exception := UserEcall, pc := 0), AfterReplacing(m);
      && RefStep(sys, Next(m)) == Next(pending) && Resume(sys, pending) == Next(after)
      && RefStep(sys, Next(pending)) == Next(after.(pc := 0)) == RefStep(sys, Next(after.(pc := 0)))
  {
    hide DecodeInsn, Fetch;
    EcallBlockDecodes();
    ReplacedBlocksDecode();
    ReturnDecodes();
    SpinDecodes(0);
    Returns(AfterReplacing(m));
    JumpsTo(AfterReplacing(m), 0);
  }

  // The emulator: the third block is the cached ecall.
  lemma ReplacedEmulator(sys: Kernel, m: Machine)
    requires Replaces(sys, m)
    ensures var pending, after := m.(exception := UserEcall, pc := 0), AfterReplacing(m);
      var code := map[0 := EcallBlock(), 4 := ReturnBlock()];
      && CacheStep(sys, Live(m, map[], 0)) == Live(pending, map[0 := EcallBlock()], 2)
      && CacheStep(sys, Live(pending, map[0 := EcallBlock()], 2)) == Live(after.(pc := 0), code, 4)
      && CacheStep(sys, Live(after.(pc := 0), code, 4)) == Live(after.(exception := UserEcall, pc := 0), code, 4)
  {
    hide DecodeInsn, Fetch, DecodeFrom, RunInsns, Insns;
    var after := AfterReplacing(m);
    EcallBlockDecodes();
    ReplacedBlocksDecode();
    OneInsn(Fetched(0, ECALL), m);
    Returns(after);
    OneInsn(Fetched(4, RETURN), after);
    OneInsn(Fetched(0, ECALL), after.(pc := 0));
    assert map[0 := EcallBlock()][4 := ReturnBlock()] == map[0 := EcallBlock(), 4 := ReturnBlock()];
  }

  lemma ReplacedBoundaries(sys: Kernel, m: Machine)
    requires Replaces(sys, m)
    ensures var pending, after := m.(exception := UserEcall, pc := 0), AfterReplacing(m);
      && Boundary(sys, Next(m), 0) == Next(m) && Boundary(sys, Next(m), 1) == Next(pending)
      && Boundary(sys, Next(m), 2) == Next(after.(pc := 0)) == Boundary(sys, Next(m), 3)
      && GoodBoundary(sys, Next(m)) && GoodBoundary(sys, Next(pending)) && GoodBoundary(sys, Next(after.(pc := 0)))
  {
    hide RefStep, DecodeFrom, DecodeInsn, Fetch, Boundary, Resume;
    var pending, after := m.(exception := UserEcall, pc := 0), AfterReplacing(m);
    EcallBlockDecodes();
    ReplacedBlocksDecode();
    ReplacedReference(sys, m);
    RunZero(sys, Next(m));
    BoundaryStep(sys, Next(m), 0);
    BoundaryStep(sys, Next(m), 1);
    BoundaryStep(sys, Next(m), 2);
    NoPending(sys, m);
    NoPending(sys, after.(pc := 0));
    OneStep(sys, Next(m));
    OneStep(sys, Next(pending));
    OneStep(sys, Next(after));
    OneStep(sys, Next(after.(pc := 0)));
  }

  lemma NoPending(sys: Kernel, m: Machine)
    requires m.exception == NoException
    ensures Resume(sys, m) == Next(m)
  {
  }

  lemma OneStep(sys: Kernel, o: Outcome)
    ensures RefRun(sys, o, 0) == o && RefRun(sys, o, 1) == RefStep(sys, o)
  {
    hide RefStep;
    RunZero(sys, o);
  }

  // Each block is good where it is entered and there is room, but the third
  // boundary enters an address that no longer holds what ran there first: the
  // emulator makes the old system call again, and the interpreter does not.
  lemma SameCodeIsNeeded(sys: Kernel, m: Machine)
    requires Replaces(sys, m)
    ensures forall j :: 0 <= j < 3 ==> GoodBoundary(sys, Boundary(sys, Next(m), j))
    ensures RoomThroughout(sys, Live(m, map[], 0), 3)
    ensures !Agrees(sys, Next(m), 3, CacheRun(sys, Live(m, map[], 0), 3))
  {
    hide Boundary, GoodBoundary, CacheRun, DecodeFrom, DecodeInsn, Resume, RoomThroughout;
    ReplacedBoundaries(sys, m);
    ReplacedRun(sys, m);
    ReplacedRoom(sys, m);
  }

  lemma ReplacedRun(sys: Kernel, m: Machine)
    requires Replaces(sys, m)
    ensures var pending, after := m.(exception := UserEcall, pc := 0), AfterReplacing(m);
      var s0, code := Live(m, map[], 0), map[0 := EcallBlock(), 4 := ReturnBlock()];
      && CacheRun(sys, s0, 0) == s0
      && CacheRun(sys, s0, 1) == Live(pending, map[0 := EcallBlock()], 2)
      && CacheRun(sys, s0, 2) == Live(after.(pc := 0), code, 4)
      && CacheRun(sys, s0, 3) == Live(after.(exception := UserEcall, pc := 0), code, 4)
  {
    hide CacheStep;
    var s0 := Live(m, map[], 0);
    ReplacedEmulator(sys, m);
    assert CacheRun(sys, s0, 0) == s0;
    assert CacheRun(sys, s0, 1) == CacheStep(sys, s0);
    assert CacheRun(sys, s0, 2) == CacheStep(sys, CacheRun(sys, s0, 1));
    assert CacheRun(sys, s0, 3) == CacheStep(sys, CacheRun(sys, s0, 2));
  }

  lemma ReplacedRoom(sys: Kernel, m: Machine)
    requires Replaces(sys, m)
    ensures RoomThroughout(sys, Live(m, map[], 0), 3)
  {
    hide CacheRun, DecodeFrom, DecodeInsn, Resume;
    var s0 := Live(m, map[], 0);
    EcallBlockDecodes();
    ReplacedBlocksDecode();
    ReplacedReference(sys, m);
    ReplacedRun(sys, m);
    NoPending(sys, m);
    NoPending(sys, AfterReplacing(m).(pc := 0));
    forall j | 0 <= j < 3 ensures HasRoom(sys, CacheRun(sys, s0, j)) {
      assert j == 0 || j == 1 || j == 2;
    }
  }
}
