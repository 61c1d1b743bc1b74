// Register x0.  Every handler call is followed by assert(env->gpr[0] == 0)
// (arch/riscv/cpu.c:786-790): which instructions make it fail, exactly, and
// what that means for a run.
module ZeroRegister {
  import opened Bits
  import opened Words
  import opened Decode
  import opened Machine
  import opened DecodeFacts
  import opened Blocks
  import opened Reference
  import opened CacheMachine
  import opened Immediates
  import opened Instructions
  import opened HandlerFacts

  // ---- Which instructions ----

  // lui, auipc, CSR, lr and AMO instructions have no rd == 0 guard.
  predicate WritesX0(i: Insn) {
    && i.rd == 0
    && (i.handler.DoLui? || i.handler.DoAuipc? || i.handler.DoCsr? || i.handler.DoLoadReserved? || i.handler.DoAmo?)
  }

  // What such an instruction writes, when it writes.
  function Written(i: Insn, m: Machine): Option<Word> {
    if i.handler.DoLui? then Some(Wrap(i.imm))
    else if i.handler.DoAuipc? then Some(Plus(i.pc, i.imm))
    else if i.handler.DoCsr? then
      (if i.imm in IMPLEMENTED_CSRS then Some(CsrValue(m.csr, i.imm)) else None)
    else if i.handler.DoLoadReserved? || i.handler.DoAmo? then
      (match LoadBytes(m.mem, m.gpr[i.rs1], i.handler.size)
       case None => None
       case Some(v) => Some(Wrap(SignedBytes(v, i.handler.size))))
    else None
  }

  // The instruction writes something other than zero to x0.
  predicate Aborts(i: Insn, m: Machine) {
    WritesX0(i) && Written(i, m).Some? && Written(i, m).value != 0
  }

  // The assertion fails after exactly these instructions.
  lemma AssertFailsExactly(f: Fetched, m: Machine)
    requires m.gpr[0] == 0
    ensures ExecChecked(f.Insn(), m) == Halted(AssertFailed) <==> Aborts(f.Insn(), m)
  {
    hide DecodeInsn, Alu, CsrUpdate, AmoResult, SignedBytes, LoadBytes, StoreBytes;
    var i := f.Insn();
    DecodeSound(f.addr, f.op);
    if i.handler.DoAmo? {
      var addr := m.gpr[i.rs1];
      if LoadBytes(m.mem, addr, i.handler.size).Some? {
        var v := LoadBytes(m.mem, addr, i.handler.size).value;
        StoreNeedsTheSameBytes(m.mem, addr, i.handler.size,
                               AmoResult(i.handler.amoOp, i.handler.size, v, m.gpr[i.rs2] % Pow2(8 * i.handler.size)));
      }
    }
  }

  // ---- Runs of the emulator ----

  // Some instruction of the block, run from m, aborts.
  predicate BlockAborts(fs: seq<Fetched>, m: Machine) {
    fs != [] &&
    (Aborts(fs[0].Insn(), m) ||
     (ExecChecked(fs[0].Insn(), m).Next? && BlockAborts(fs[1..], ExecChecked(fs[0].Insn(), m).m)))
  }

  lemma {:induction false} BlockAbortsExactly(fs: seq<Fetched>, m: Machine)
    requires m.gpr[0] == 0
    ensures RunInsns(Insns(fs), m) == Halted(AssertFailed) <==> BlockAborts(fs, m)
    ensures RunInsns(Insns(fs), m).Next? ==> RunInsns(Insns(fs), m).m.gpr[0] == 0
  {
    hide DecodeInsn, Exec, Aborts;
    if fs != [] {
      AssertFailsExactly(fs[0], m);
      RunStep(fs, m);
      if ExecChecked(fs[0].Insn(), m).Next? {
        BlockAbortsExactly(fs[1..], ExecChecked(fs[0].Insn(), m).m);
      }
    }
  }

  // The block that the next step runs, and the machine it starts from.
  predicate NextBlockAborts(sys: Kernel, s: CacheState) {
    s.Live? && Resume(sys, s.m).Next? &&
    var m := Resume(sys, s.m).m;
    var r := FindOrTranslate(m.pc, m.mem, s.code, s.used);
    r.Found? && BlockAborts(r.fs, m)
  }

  lemma StepAbortsExactly(sys: Kernel, s: CacheState)
    requires s.Live? && s.m.gpr[0] == 0
    ensures CacheStep(sys, s) == Dead(AssertFailed) <==> NextBlockAborts(sys, s)
    ensures CacheStep(sys, s).Live? ==> CacheStep(sys, s).m.gpr[0] == 0
  {
    hide RunInsns, Insns, FindOrTranslate, BlockAborts;
    if Resume(sys, s.m).Next? {
      var m := Resume(sys, s.m).m;
      var r := FindOrTranslate(m.pc, m.mem, s.code, s.used);
      if r.Found? {
        BlockAbortsExactly(r.fs, m);
      }
    }
  }

  // One of the first n steps runs an aborting block.
  ghost predicate Aborted(sys: Kernel, s0: CacheState, n: nat) {
    exists j :: 0 <= j < n && NextBlockAborts(sys, CacheRun(sys, s0, j))
  }

  // For every program, every cache and every number of blocks: x0 is zero as
  // long as the emulator lives, and the assertion ends the run exactly when it
  // comes to an instruction that writes something else there.
  lemma {:induction false} X0StaysZero(sys: Kernel, s0: CacheState, n: nat)
    requires s0.Live? && s0.m.gpr[0] == 0
    ensures CacheRun(sys, s0, n).Live? ==> CacheRun(sys, s0, n).m.gpr[0] == 0
    ensures CacheRun(sys, s0, n) == Dead(AssertFailed) <==> Aborted(sys, s0, n)
  {
    hide CacheStep, NextBlockAborts;
    if n > 0 {
      var last := CacheRun(sys, s0, n - 1);
      X0StaysZero(sys, s0, n - 1);
      if last.Live? {
        StepAbortsExactly(sys, last);
      } else {
        DeadStep(sys, last);
      }
    }
  }

  lemma DeadStep(sys: Kernel, s: CacheState)
    requires s.Dead?
    ensures CacheStep(sys, s) == s && !NextBlockAborts(sys, s)
  {
  }

  // No block that is entered holds an instruction of the unguarded kinds with
  // destination x0.
  predicate NextBlockGuarded(sys: Kernel, s: CacheState) {
    s.Live? && Resume(sys, s.m).Next? ==>
      var m := Resume(sys, s.m).m;
      var r := FindOrTranslate(m.pc, m.mem, s.code, s.used);
      r.Found? ==> forall k :: 0 <= k < |r.fs| ==> !WritesX0(r.fs[k].Insn())
  }

  lemma {:induction false} GuardedBlockLives(fs: seq<Fetched>, m: Machine)
    requires forall k :: 0 <= k < |fs| ==> !WritesX0(fs[k].Insn())
    ensures !BlockAborts(fs, m)
  {
    hide DecodeInsn, ExecChecked, Written, WritesX0;
    if fs != [] && ExecChecked(fs[0].Insn(), m).Next? {
      GuardedBlockLives(fs[1..], ExecChecked(fs[0].Insn(), m).m);
    }
  }

  lemma GuardedNeverAborts(sys: Kernel, s0: CacheState, n: nat)
    requires s0.Live? && s0.m.gpr[0] == 0
    requires forall j :: 0 <= j < n ==> NextBlockGuarded(sys, CacheRun(sys, s0, j))
    ensures CacheRun(sys, s0, n) != Dead(AssertFailed)
  {
    hide CacheRun, Resume, FindOrTranslate, BlockAborts, WritesX0;
    X0StaysZero(sys, s0, n);
    forall j | 0 <= j < n ensures !NextBlockAborts(sys, CacheRun(sys, s0, j)) {
      var s := CacheRun(sys, s0, j);
      assert NextBlockGuarded(sys, s);
      if s.Live? && Resume(sys, s.m).Next? {
        var m := Resume(sys, s.m).m;
        var r := FindOrTranslate(m.pc, m.mem, s.code, s.used);
        if r.Found? {
          GuardedBlockLives(r.fs, m);
        }
      }
    }
  }

  // ---- Runs of the reference ----

  // No other decoded instruction makes the assertion after it fire.
  lemma OnlyUnguardedWriteX0(f: Fetched, m: Machine)
    requires m.gpr[0] == 0 && !WritesX0(f.Insn())
    ensures ExecChecked(f.Insn(), m) != Halted(AssertFailed)
    ensures ExecChecked(f.Insn(), m).Next? ==> ExecChecked(f.Insn(), m).m.gpr[0] == 0
  {
    hide DecodeInsn, Exec;
    AssertFailsExactly(f, m);
  }

  // Instructions the reference executes in its first n steps.
  ghost predicate NoX0Destinations(sys: Kernel, o: Outcome, n: nat) {
    forall j :: 0 <= j < n ==>
      var p := RefRun(sys, o, j);
      p.Next? && Resume(sys, p.m).Next? ==>
        var m := Resume(sys, p.m).m;
        Fetch(m.mem, m.pc).Some? ==> !WritesX0(Fetched(m.pc, Fetch(m.mem, m.pc).value).Insn())
  }

  lemma {:induction false} ReferenceKeepsX0(sys: Kernel, m0: Machine, n: nat)
    requires m0.gpr[0] == 0 && NoX0Destinations(sys, Next(m0), n)
    ensures RefRun(sys, Next(m0), n).Next? ==> RefRun(sys, Next(m0), n).m.gpr[0] == 0
    ensures RefRun(sys, Next(m0), n) != Halted(AssertFailed)
  {
    hide DecodeInsn, ExecChecked, Fetch;
    if n > 0 {
      ReferenceKeepsX0(sys, m0, n - 1);
      var p := RefRun(sys, Next(m0), n - 1);
      if p.Next? && Resume(sys, p.m).Next? {
        var m := Resume(sys, p.m).m;
        if Fetch(m.mem, m.pc).Some? {
          OnlyUnguardedWriteX0(Fetched(m.pc, Fetch(m.mem, m.pc).value), m);
        }
      }
    }
  }

  // ---- The unguarded encodings ----

  // The instruction that op encodes, at pc, fails the assertion.
  predicate FailsAssertion(pc: Word, op: U32, m: Machine) {
    ExecChecked(DecodeInsn(pc, op).insn, m) == Halted(AssertFailed)
  }

  // lui x0, imm is a hint in the ISA; here every nonzero one aborts. auipc
  // aborts unless the address it forms is zero.
  lemma UpperToX0(imm: I32, pc: Word, m: Machine)
    requires imm % 0x1000 == 0
    ensures FailsAssertion(pc, EncodeU(imm, 0x37, 0), m) <==> imm != 0
    ensures FailsAssertion(pc, EncodeU(imm, 0x17, 0), m) <==> Plus(pc, imm) != 0
  {
    hide DecodeInsn, EncodeU;
    UpperDecodes(pc, imm, 0);
  }

  // A CSR access with destination x0 aborts unless the CSR is zero, or is not
  // implemented.
  lemma CsrToX0(csr: nat, funct3: nat, rs1: Reg, pc: Word, m: Machine)
    requires csr < 0x1000 && CsrOf(funct3).Some? && m.gpr[0] == 0
    ensures FailsAssertion(pc, EncodeI(CsrImmediate(csr), 0x73, 0, funct3, rs1), m)
       <==> csr in IMPLEMENTED_CSRS && CsrValue(m.csr, csr) != 0
  {
    hide DecodeInsn, EncodeI, CsrUpdate;
    CsrDecodes(pc, csr, 0, funct3, rs1);
  }

  // lr and the AMOs abort unless the value they load is zero.
  lemma AtomicToX0(funct3: nat, rs1: Reg, rs2: Reg, funct5: nat, order: nat, pc: Word, m: Machine)
    requires (funct3 == 2 || funct3 == 3) && order < 4 && m.gpr[0] == 0
    requires AtomicOf(funct5, 4).Some? && funct5 != 3
    ensures var size := if funct3 == 2 then 4 else 8;
      var loaded := LoadBytes(m.mem, m.gpr[rs1], size);
      var aborts := loaded.Some? && Wrap(SignedBytes(loaded.value, size)) != 0;
      && (FailsAssertion(pc, EncodeR(0x2f, 0, funct3, rs1, 0, 8 + order), m) <==> aborts)
      && (FailsAssertion(pc, EncodeR(0x2f, 0, funct3, rs1, rs2, 4 * funct5 + order), m) <==> aborts)
  {
    hide DecodeInsn, EncodeR, LoadBytes, StoreBytes, SignedBytes, AmoResult, Exec, ExecChecked;
    LoadReservedDecodes(pc, 0, funct3, rs1, order);
    AtomicDecodes(pc, 0, funct3, rs1, rs2, funct5, order);
    AssertFailsExactly(Fetched(pc, EncodeR(0x2f, 0, funct3, rs1, 0, 8 + order)), m);
    AssertFailsExactly(Fetched(pc, EncodeR(0x2f, 0, funct3, rs1, rs2, 4 * funct5 + order)), m);
  }
}
