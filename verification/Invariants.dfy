// pc is even in every run; and a program that the TRANS_MAX cap stops for ever.
module Invariants {
  import opened Bits
  import opened BitFields
  import opened Words
  import opened Decode
  import opened Machine
  import opened DecodeFacts
  import opened Blocks
  import opened Reference
  import opened CacheMachine
  import opened HandlerFacts

  // ---- pc stays even ----

  lemma EvenExec(f: Fetched, m: Machine)
    requires f.addr % 2 == 0 && m.pc % 2 == 0
    ensures ExecChecked(f.Insn(), m).Next? ==> ExecChecked(f.Insn(), m).m.pc % 2 == 0
  {
    hide DecodeInsn, Plus, Exec;
    DecodeSound(f.addr, f.op);
    var i := f.Insn();
    if IsExit(i.handler) {
      ExitLeaves(i, m);
      if Direct(i.handler) {
        EvenPlus(i.pc, i.imm);
        EvenPlus(i.pc, i.handler.len);
      }
    } else if CsrOk(i) {
      StraightIgnoresPc(i, m, m.pc);
    } else {
      RaisesOrKeeps(i, m);
    }
  }

  lemma EvenPlus(a: Word, b: int)
    requires a % 2 == 0 && b % 2 == 0
    ensures Plus(a, b) % 2 == 0
  {
  }

  lemma EvenAfter(f: Fetched)
    requires f.addr % 2 == 0
    ensures f.After() % 2 == 0
  {
    EvenPlus(f.addr, InsnLen(f.op));
  }

  lemma EvenResume(sys: Kernel, m: Machine)
    requires m.pc % 2 == 0
    ensures Resume(sys, m).Next? ==> Resume(sys, m).m.pc % 2 == 0
  {
    EvenPlus(m.pc, 4);
  }

  lemma {:induction false} EvenReference(sys: Kernel, m0: Machine, n: nat)
    requires m0.pc % 2 == 0
    ensures RefRun(sys, Next(m0), n).Next? ==> RefRun(sys, Next(m0), n).m.pc % 2 == 0
  {
    hide DecodeInsn, Plus, ExecChecked, Fetch, Resume;
    if n > 0 {
      EvenReference(sys, m0, n - 1);
      var p := RefRun(sys, Next(m0), n - 1);
      if p.Next? && Resume(sys, p.m).Next? {
        EvenResume(sys, p.m);
        var m := Resume(sys, p.m).m;
        if Fetch(m.mem, m.pc).Some? {
          var f := Fetched(m.pc, Fetch(m.mem, m.pc).value);
          EvenExec(f, m);
          EvenAfter(f);
        }
      }
    }
  }

  ghost predicate EvenAddresses(fs: seq<Fetched>) {
    forall k :: 0 <= k < |fs| ==> fs[k].addr % 2 == 0
  }

  lemma {:induction false} EvenBlock(mem: Memory, pc: Word, room: nat)
    requires room > 0 && pc % 2 == 0
    ensures var r := DecodeFrom(mem, pc, room);
      r.Some? ==> EvenAddresses(r.value)
    decreases room
  {
    hide DecodeInsn, Fetch, Plus;
    if Fetch(mem, pc).Some? {
      var f := Fetched(pc, Fetch(mem, pc).value);
      if !f.Trans().exit && room > 1 {
        EvenAfter(f);
        EvenBlock(mem, f.After(), room - 1);
      }
    }
  }

  lemma EvenSuccessors(fs: seq<Fetched>)
    requires fs != [] && EvenAddresses(fs)
    ensures Next0(fs) % 2 == 0 && Next1(fs) % 2 == 0
  {
    hide DecodeInsn, Plus;
    var last := fs[|fs| - 1];
    var i := last.Insn();
    DecodeSound(last.addr, last.op);
    EvenAfter(last);
    if Direct(i.handler) {
      EvenPlus(last.addr, i.imm);
      EvenPlus(last.addr, i.handler.len);
    }
  }

  lemma {:induction false} EvenRunInsns(fs: seq<Fetched>, m: Machine)
    requires EvenAddresses(fs) && m.pc % 2 == 0
    ensures RunInsns(Insns(fs), m).Next? ==> RunInsns(Insns(fs), m).m.pc % 2 == 0
  {
    hide DecodeInsn, ExecChecked;
    if fs != [] {
      EvenExec(fs[0], m);
      RunStep(fs, m);
      if ExecChecked(fs[0].Insn(), m).Next? {
        EvenRunInsns(fs[1..], ExecChecked(fs[0].Insn(), m).m);
      }
    }
  }

  ghost predicate EvenTranslation(fs: seq<Fetched>) {
    fs != [] && EvenAddresses(fs) && Next0(fs) % 2 == 0 && Next1(fs) % 2 == 0
  }

  ghost predicate EvenState(s: CacheState) {
    s.Live? ==>
      && s.m.pc % 2 == 0
      && forall pc :: pc in s.code ==> pc % 2 == 0 && EvenTranslation(s.code[pc])
  }

  // From an even entry point, pc at every block boundary, the address of every
  // cached block and every recorded successor are even.
  lemma {:induction false} PcStaysEven(sys: Kernel, m0: Machine, n: nat)
    requires m0.pc % 2 == 0
    ensures EvenState(CacheRun(sys, Live(m0, map[], 0), n))
  {
    hide Resume, DecodeFrom, RunInsns, Next0, Next1;
    if n > 0 {
      PcStaysEven(sys, m0, n - 1);
      EvenStep(sys, CacheRun(sys, Live(m0, map[], 0), n - 1));
    }
  }

  lemma EvenStep(sys: Kernel, s: CacheState)
    requires EvenState(s)
    ensures EvenState(CacheStep(sys, s))
  {
    hide Resume, DecodeFrom, RunInsns, Next0, Next1, DecodeInsn;
    if s.Live? && Resume(sys, s.m).Next? {
      EvenResume(sys, s.m);
      var m := Resume(sys, s.m).m;
      var r := FindOrTranslate(m.pc, m.mem, s.code, s.used);
      if r.Found? {
        EvenBlock(m.mem, m.pc, TRANS_MAX);
        DecodedIsStraightLine(m.mem, m.pc, TRANS_MAX);
        EvenSuccessors(r.fs);
        EvenRunInsns(r.fs, m);
      }
    }
  }

  // ---- A block closed by the cap is re-entered for ever ----

  // c.nop, twice
  const NOPS: U32 := 0x0001_0001

  function NopSled(): Memory {
    map a: Word | 0 <= a < 2000 :: if a % 2 == 0 then 1 else 0
  }

  function SledBlock(): seq<Fetched> {
    seq(TRANS_MAX, k requires 0 <= k < TRANS_MAX => Fetched(2 * k, NOPS))
  }

  lemma NopDecodes(pc: Word)
    ensures DecodeInsn(pc, NOPS) == Straight(Decode16(pc, 1).insn)
    ensures Decode16(pc, 1).insn.handler == DoEmpty
    ensures InsnLen(NOPS) == 2
  {
    hide ImmCAddi, ImmCShift, ImmCAddi4spn;
    assert And(1, 0xe003) == 1;
    assert And(NOPS, 3) == 1;
    ExtractMeaning(1, 7, 5);
    Pow2Values();
    assert Pow2(7) == 0x80;
    assert (1 / 0x80) % 0x20 == 0;
  }

  lemma SledByte(a: int)
    requires 0 <= a < 2000
    ensures a in NopSled() && NopSled()[a] == if a % 2 == 0 then 1 else 0
  {
  }

  lemma SledFetches(k: nat)
    requires k < TRANS_MAX
    ensures Fetch(NopSled(), 2 * k) == Some(NOPS)
  {
    hide NopSled, LoadBytes;
    var mem, a: Word := NopSled(), 2 * k;
    SledByte(a);
    SledByte(a + 1);
    SledByte(a + 2);
    SledByte(a + 3);
    LoadNothing(mem, a + 4);
    LoadOneMore(mem, a + 3, 0);
    LoadOneMore(mem, a + 2, 1);
    LoadOneMore(mem, a + 1, 2);
    LoadOneMore(mem, a, 3);
  }

  lemma SledIsOneBlock()
    ensures DecodeBlock(NopSled(), 0) == Some(SledBlock())
    ensures !Complete(SledBlock()) && CsrsOk(SledBlock())
  {
    hide DecodeInsn, Fetch, InsnLen, Decode16;
    var fs := SledBlock();
    forall k | 0 <= k < |fs|
      ensures !fs[k].Trans().exit && fs[k].Insn().handler == DoEmpty && fs[k].After() == 2 * k + 2
      ensures Fetch(NopSled(), fs[k].addr) == Some(fs[k].op)
    {
      NopDecodes(2 * k);
      SledFetches(k);
    }
    TranslationIsExact(NopSled(), 0, TRANS_MAX, fs);
  }

  lemma {:induction false} EmptyInsns(fs: seq<Fetched>, m: Machine)
    requires m.gpr[0] == 0
    requires forall k :: 0 <= k < |fs| ==> fs[k].Insn().handler == DoEmpty
    ensures RunInsns(Insns(fs), m) == Next(m)
  {
    hide DecodeInsn;
    if fs != [] {
      RunStep(fs, m);
      EmptyInsns(fs[1..], m);
    }
  }

  // Wherever the 1000 c.nop instructions are in memory at 0, the emulator never leaves pc 0, while the
  // reference has left the block after 512 instructions.
  lemma {:induction false} NopSledStalls(sys: Kernel, m: Machine, n: nat)
    requires Holds(NopSled(), m.mem) && m.pc == 0 && m.gpr[0] == 0 && m.exception == NoException
    ensures n > 0 ==> CacheRun(sys, Live(m, map[], 0), n) == Live(m, map[0 := SledBlock()], TRANS_MAX)
    ensures RefRun(sys, Next(m), TRANS_MAX) == Next(m.(pc := 1024))
  {
    hide DecodeInsn, DecodeFrom, RunInsns, RefRun, Fetch, SledBlock, NopSled;
    SledRuns(m);
    HeldDecode(NopSled(), m.mem, 0, TRANS_MAX);
    if n > 0 {
      NopSledStalls(sys, m, n - 1);
    }
    SledReference(sys, m);
  }

  lemma SledRuns(m: Machine)
    requires m.gpr[0] == 0
    ensures |SledBlock()| == TRANS_MAX
    ensures RunInsns(Insns(SledBlock()), m) == Next(m)
    ensures DecodeBlock(NopSled(), 0) == Some(SledBlock())
  {
    hide DecodeInsn, Decode16, DecodeFrom, NopSled;
    SledIsOneBlock();
    var fs := SledBlock();
    forall k | 0 <= k < |fs| ensures fs[k].Insn().handler == DoEmpty {
      NopDecodes(2 * k);
    }
    EmptyInsns(fs, m);
  }

  // No instruction of the sled writes memory, so the reference run is stable.
  lemma {:induction false} SledReferenceSteps(sys: Kernel, m: Machine, k: nat)
    requires Holds(NopSled(), m.mem) && m.pc == 0 && m.gpr[0] == 0 && m.exception == NoException
    requires k <= TRANS_MAX
    ensures RefRun(sys, Next(m), k) == Next(m.(pc := 2 * k))
  {
    hide RefStep, NopSled;
    if k > 0 {
      SledReferenceSteps(sys, m, k - 1);
      SledReferenceStep(sys, m, k - 1);
    } else {
      assert m == m.(pc := 0);
    }
  }

  lemma SledReferenceStep(sys: Kernel, m: Machine, k: nat)
    requires Holds(NopSled(), m.mem) && m.gpr[0] == 0 && m.exception == NoException
    requires k < TRANS_MAX
    ensures RefStep(sys, Next(m.(pc := 2 * k))) == Next(m.(pc := 2 * k + 2))
  {
    hide DecodeInsn, Decode16, Fetch, NopSled;
    SledFetches(k);
    HeldFetch(NopSled(), m.mem, 2 * k);
    NopDecodes(2 * k);
    assert Fetched(2 * k, NOPS).After() == 2 * k + 2;
  }

  lemma SledReference(sys: Kernel, m: Machine)
    requires Holds(NopSled(), m.mem) && m.pc == 0 && m.gpr[0] == 0 && m.exception == NoException
    ensures RefRun(sys, Next(m), TRANS_MAX) == Next(m.(pc := 1024))
  {
    hide RefStep;
    SledReferenceSteps(sys, m, TRANS_MAX);
  }
}
