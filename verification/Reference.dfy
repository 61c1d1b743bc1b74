// The uncached reference interpreter: fetch, decode and execute one
// instruction at a time, with the handlers of arch/riscv/cpu.c and the system
// call protocol of cpu_loop (arch/riscv/cpu.c:832-869).
module Reference {
  import opened Bits
  import opened Words
  import opened Decode
  import opened Machine
  import opened Blocks

  // do_syscall as an arbitrary function of the number of earlier calls, the
  // registers and the memory; the first argument lets the host answer every
  // call differently.
  datatype SysResult = SysExit | SysReturn(value: Word, mem: Memory)
  type Kernel = (nat, Gpr, Memory) -> SysResult

  const A0: Reg := 10

  // What cpu_loop does with a pending exception before execution goes on.
  function Resume(sys: Kernel, m: Machine): Outcome {
    match m.exception
    case NoException => Next(m)
    case IllegalInst => Halted(IllegalExit)
    case UserEcall =>
      match sys(m.calls, m.gpr, m.mem)
      case SysExit => Halted(GuestExit)
      case SysReturn(value, mem) =>
        Next(m.(pc := Plus(m.pc, 4), gpr := m.gpr[A0 := value], exception := NoException,
                mem := mem, calls := m.calls + 1))
  }

  // One instruction at m.pc.
  function StepInsn(m: Machine): Outcome {
    match Fetch(m.mem, m.pc)
    case None => Halted(HostFault)
    case Some(op) =>
      var f := Fetched(m.pc, op);
      match ExecChecked(f.Insn(), m)
      case Halted(why) => Halted(why)
      case Next(m1) =>
        if f.Trans().exit || m1.exception != NoException then Next(m1) else Next(m1.(pc := f.After()))
  }

  function RefStep(sys: Kernel, o: Outcome): Outcome {
    match o
    case Halted(_) => o
    case Next(m) =>
      match Resume(sys, m)
      case Halted(why) => Halted(why)
      case Next(m1) => StepInsn(m1)
  }

  // One instruction, fetched as op, with no exception pending.
  lemma FetchStep(sys: Kernel, m: Machine, op: U32)
    requires m.exception == NoException && Fetch(m.mem, m.pc) == Some(op)
    ensures var f := Fetched(m.pc, op);
      RefStep(sys, Next(m)) == match ExecChecked(f.Insn(), m)
        case Halted(why) => Halted(why)
        case Next(m1) => if f.Trans().exit || m1.exception != NoException then Next(m1) else Next(m1.(pc := f.After()))
  {
    hide DecodeInsn, InsnLen, Plus, Fetch, ExecChecked;
  }

  // The machine after the kernel has served its ecall: x10 holds the answer,
  // the memory is the kernel's, pc is past the ecall, and nothing else differs.
  ghost predicate Served(m: Machine, m1: Machine, value: Word, mem: Memory) {
    && m1.gpr[10] == value
    && (forall r: Reg :: r != 10 ==> m1.gpr[r] == m.gpr[r])
    && m1.pc == (m.pc + 4) % 0x1_0000_0000_0000_0000
    && m1.mem == mem && m1.csr == m.csr
    && m1.exception == NoException && m1.calls == m.calls + 1
  }

  lemma PendingIsServed(sys: Kernel, m: Machine)
    ensures m.exception == NoException ==> Resume(sys, m) == Next(m)
    ensures m.exception == IllegalInst ==> Resume(sys, m) == Halted(IllegalExit)
    ensures m.exception == UserEcall ==>
      match sys(m.calls, m.gpr, m.mem)
      case SysExit => Resume(sys, m) == Halted(GuestExit)
      case SysReturn(value, mem) => Resume(sys, m).Next? && Served(m, Resume(sys, m).m, value, mem)
  {
  }

  // With an ecall pending, the reference goes on from the served machine.
  lemma EcallIsServed(sys: Kernel, m: Machine, m1: Machine)
    requires m.exception == UserEcall
    ensures var answer := sys(m.calls, m.gpr, m.mem);
      && (answer == SysExit ==> RefStep(sys, Next(m)) == Halted(GuestExit))
      && (answer.SysReturn? && Served(m, m1, answer.value, answer.mem) ==>
            RefStep(sys, Next(m)) == RefStep(sys, Next(m1)))
  {
    hide StepInsn;
    var answer := sys(m.calls, m.gpr, m.mem);
    if answer.SysReturn? && Served(m, m1, answer.value, answer.mem) {
      PendingIsServed(sys, m);
      SameServed(m, Resume(sys, m).m, m1, answer.value, answer.mem);
    }
  }

  // Served leaves nothing open.
  lemma SameServed(m: Machine, m1: Machine, m2: Machine, value: Word, mem: Memory)
    requires Served(m, m1, value, mem) && Served(m, m2, value, mem)
    ensures m1 == m2
  {
    forall r: Reg ensures m1.gpr[r] == m2.gpr[r] {
    }
    assert m1.gpr == m2.gpr;
  }

  // n instructions
  function RefRun(sys: Kernel, o: Outcome, n: nat): Outcome {
    if n == 0 then o else RefStep(sys, RefRun(sys, o, n - 1))
  }

  lemma {:induction false} RefRunFront(sys: Kernel, o: Outcome, n: nat)
    requires n > 0
    ensures RefRun(sys, o, n) == RefRun(sys, RefStep(sys, o), n - 1)
  {
    hide RefStep;
    if n > 1 {
      RefRunFront(sys, o, n - 1);
    }
  }

  lemma {:induction false} RefRunSplit(sys: Kernel, o: Outcome, a: nat, b: nat)
    ensures RefRun(sys, RefRun(sys, o, a), b) == RefRun(sys, o, a + b)
  {
    hide RefStep;
    if b > 0 {
      RefRunSplit(sys, o, a, b - 1);
    }
  }

  lemma {:induction false} HaltedStays(sys: Kernel, why: Halt, n: nat)
    ensures RefRun(sys, Halted(why), n) == Halted(why)
  {
    hide Resume, StepInsn;
    if n > 0 {
      HaltedStays(sys, why, n - 1);
    }
  }

  // ---- Code that stays in memory ----

  // mem holds all the bytes of text.
  ghost predicate Holds(text: Memory, mem: Memory) {
    forall a :: a in text ==> a in mem && mem[a] == text[a]
  }

  lemma {:induction false} HeldLoads(text: Memory, mem: Memory, addr: Word, n: nat)
    requires Holds(text, mem) && LoadBytes(text, addr, n).Some?
    ensures LoadBytes(mem, addr, n) == LoadBytes(text, addr, n)
    decreases n
  {
    if n > 0 {
      HeldLoads(text, mem, Plus(addr, 1), n - 1);
    }
  }

  lemma HeldFetch(text: Memory, mem: Memory, pc: Word)
    requires Holds(text, mem) && Fetch(text, pc).Some?
    ensures Fetch(mem, pc) == Fetch(text, pc)
  {
    hide LoadBytes;
    HeldLoads(text, mem, pc, 4);
  }

  lemma {:induction false} HeldDecode(text: Memory, mem: Memory, pc: Word, room: nat)
    requires room > 0 && Holds(text, mem) && DecodeFrom(text, pc, room).Some?
    ensures DecodeFrom(mem, pc, room) == DecodeFrom(text, pc, room)
    decreases room
  {
    hide DecodeInsn, InsnLen, Plus, Fetch;
    HeldFetch(text, mem, pc);
    var f := Fetched(pc, Fetch(text, pc).value);
    if !f.Trans().exit && room > 1 {
      HeldDecode(text, mem, f.After(), room - 1);
    }
  }

  // ---- One block against the reference ----

  // The reference, started on a straight-line instruction, agrees with the
  // handler except that it also advances pc.
  lemma StraightStep(sys: Kernel, f: Fetched, m: Machine)
    requires Fetch(m.mem, f.addr) == Some(f.op)
    requires m.exception == NoException && !f.Trans().exit && CsrOk(f.Insn())
    ensures RefStep(sys, Next(m.(pc := f.addr))) == WithPc(ExecChecked(f.Insn(), m), f.After())
    ensures ExecChecked(f.Insn(), m).Next? ==> ExecChecked(f.Insn(), m).m.exception == NoException
  {
    hide DecodeInsn, InsnLen, Plus, Fetch, Exec;
    var r := m.(pc := f.addr);
    OwnAddresses(f);
    StraightIgnoresPc(f.Insn(), m, f.addr);
    assert StepInsn(r) == WithPc(ExecChecked(f.Insn(), m), f.After());
  }

  lemma ExitStep(sys: Kernel, f: Fetched, m: Machine)
    requires Fetch(m.mem, f.addr) == Some(f.op)
    requires m.exception == NoException && f.Trans().exit
    ensures RefStep(sys, Next(m.(pc := f.addr))) == ExecChecked(f.Insn(), m)
  {
    hide DecodeInsn, InsnLen, Plus, Fetch, Exec;
    var r := m.(pc := f.addr);
    OwnAddresses(f);
    ExitOverwritesPc(f.Insn(), m, f.addr);
    assert StepInsn(r) == ExecChecked(f.Insn(), m);
  }

  // The reference, entering the block at m, still finds each of its
  // instructions in memory when it gets there.
  ghost predicate Unmodified(sys: Kernel, fs: seq<Fetched>, m: Machine) {
    forall k :: 0 <= k < |fs| ==> StillThere(fs[k], RefRun(sys, Next(m), k))
  }

  predicate StillThere(f: Fetched, o: Outcome) {
    o.Next? ==> Fetch(o.m.mem, f.addr) == Some(f.op)
  }

  lemma UnmodifiedTail(sys: Kernel, fs: seq<Fetched>, m: Machine, m1: Machine)
    requires fs != [] && Unmodified(sys, fs, m) && RefStep(sys, Next(m)) == Next(m1)
    ensures Unmodified(sys, fs[1..], m1)
  {
    hide RefStep, StillThere;
    forall k | 0 <= k < |fs| - 1 ensures StillThere(fs[1..][k], RefRun(sys, Next(m1), k)) {
      RefRunFront(sys, Next(m), k + 1);
      assert StillThere(fs[k + 1], RefRun(sys, Next(m), k + 1));
    }
  }

  lemma HeadIsThere(sys: Kernel, fs: seq<Fetched>, m: Machine)
    requires fs != [] && Unmodified(sys, fs, m)
    ensures Fetch(m.mem, fs[0].addr) == Some(fs[0].op)
  {
    hide Fetch;
    assert RefRun(sys, Next(m), 0) == Next(m);
    assert StillThere(fs[0], RefRun(sys, Next(m), 0));
  }

  // Where the reference stands after the block: at the address the exit chose,
  // or at the fall-through of a full block.
  function Landing(fs: seq<Fetched>, o: Outcome): Outcome
    requires fs != []
  {
    if Complete(fs) then o else WithPc(o, fs[|fs| - 1].After())
  }

  // Running a block's handlers back to back, with pc left stale until the exit,
  // is the reference run of as many instructions.
  lemma {:induction false} BlockMatchesReference(sys: Kernel, fs: seq<Fetched>, room: nat, m: Machine)
    requires fs != [] && StraightLine(fs, fs[0].addr, room) && CsrsOk(fs)
    requires m.exception == NoException
    requires Unmodified(sys, fs, m.(pc := fs[0].addr))
    ensures RefRun(sys, Next(m.(pc := fs[0].addr)), |fs|) == Landing(fs, RunInsns(Insns(fs), m))
    decreases |fs|
  {
    hide DecodeInsn, InsnLen, Plus, Fetch, Exec, ExecChecked, RefStep, Unmodified;
    var f, start := fs[0], m.(pc := fs[0].addr);
    HeadIsThere(sys, fs, start);
    RefRunFront(sys, Next(start), |fs|);
    RunStep(fs, m);
    QuietCons(fs);
    if f.Trans().exit {
      ExitStep(sys, f, m);
    } else {
      StraightStep(sys, f, m);
      if |fs| > 1 && ExecChecked(f.Insn(), m).Next? {
        StraightLineTail(fs, f.addr, room);
        var rest, m1 := fs[1..], ExecChecked(f.Insn(), m).m;
        UnmodifiedTail(sys, fs, start, m1.(pc := f.After()));
        assert rest[|rest| - 1] == fs[|fs| - 1];
        BlockMatchesReference(sys, rest, room - 1, m1);
      } else if ExecChecked(f.Insn(), m).Halted? {
        HaltedStays(sys, ExecChecked(f.Insn(), m).why, |fs| - 1);
      }
    }
  }

  // ---- The limit of TRANS_MAX ----

  // Offset of the first address after a straight-line block.
  lemma {:induction false} SpanOfBlock(fs: seq<Fetched>, pc: Word, room: nat) returns (span: nat)
    requires StraightLine(fs, pc, room)
    ensures 2 * |fs| <= span <= 4 * |fs| && fs[|fs| - 1].After() == Plus(pc, span)
    decreases |fs|
  {
    hide DecodeInsn;
    var len := InsnLen(fs[0].op);
    if |fs| == 1 {
      span := len;
    } else {
      StraightLineTail(fs, pc, room);
      var rest := fs[1..];
      assert rest[|rest| - 1] == fs[|fs| - 1];
      var more := SpanOfBlock(rest, fs[0].After(), room - 1);
      span := len + more;
      PlusPlus(pc, len, more);
    }
  }

  lemma PlusPlus(a: Word, b: int, c: int)
    ensures Plus(Plus(a, b), c) == Plus(a, b + c)
  {
  }

  // A block run without host fault reproduces the reference if and only if an
  // exit instruction closes it.  A block closed by the cap leaves pc at its own
  // first address, while the reference has moved past its last instruction.
  lemma FaithfulExactlyWhenComplete(sys: Kernel, fs: seq<Fetched>, m: Machine)
    requires StraightLine(fs, m.pc, TRANS_MAX) && m.exception == NoException
    requires CsrsOk(fs) && Unmodified(sys, fs, m)
    requires RunInsns(Insns(fs), m).Next?
    ensures RefRun(sys, Next(m), |fs|) == RunInsns(Insns(fs), m) <==> Complete(fs)
    ensures !Complete(fs) ==> RunInsns(Insns(fs), m).m.pc == m.pc
  {
    hide DecodeInsn, InsnLen, Plus, Exec, RunInsns, RefRun, Unmodified;
    assert m == m.(pc := fs[0].addr);
    BlockMatchesReference(sys, fs, TRANS_MAX, m);
    LeavesAtSuccessor(fs, m.pc, TRANS_MAX, m);
    if !Complete(fs) {
      var span := SpanOfBlock(fs, m.pc, TRANS_MAX);
      MovesOn(m.pc, span);
    }
  }

  lemma MovesOn(pc: Word, span: int)
    requires 0 < span < TWO64
    ensures Plus(pc, span) != pc
  {
  }

  // ---- A failing CSR access ----

  // The reference stops at the first failing access.
  lemma {:induction false} ReferenceStopsAtCsr(sys: Kernel, fs: seq<Fetched>, room: nat, m: Machine)
    requires fs != [] && StraightLine(fs, fs[0].addr, room) && Complete(fs) && !CsrsOk(fs)
    requires m.exception == NoException && Unmodified(sys, fs, m.(pc := fs[0].addr))
    requires RunInsns(Insns(fs), m).Next?
    ensures RefRun(sys, Next(m.(pc := fs[0].addr)), |fs|) == Halted(IllegalExit)
    decreases |fs|
  {
    hide DecodeInsn, InsnLen, Plus, Fetch, Exec, ExecChecked, RefStep, Unmodified, Complete;
    var f, start := fs[0], m.(pc := fs[0].addr);
    HeadIsThere(sys, fs, start);
    RefRunFront(sys, Next(start), |fs|);
    RunStep(fs, m);
    QuietCons(fs);
    LastIsNoCsr(fs);
    var m1 := ExecChecked(f.Insn(), m).m;
    if CsrOk(f.Insn()) {
      StraightStep(sys, f, m);
      StraightLineTail(fs, f.addr, room);
      UnmodifiedTail(sys, fs, start, m1.(pc := f.After()));
      var rest := fs[1..];
      assert rest[|rest| - 1] == fs[|fs| - 1];
      assert Complete(rest) by { CompleteTail(fs); }
      ReferenceStopsAtCsr(sys, rest, room - 1, m1);
    } else {
      FailingAccess(sys, f, m);
      RefRunFront(sys, RefStep(sys, Next(start)), |fs| - 1);
      HaltedStays(sys, IllegalExit, |fs| - 2);
    }
  }

  lemma CompleteTail(fs: seq<Fetched>)
    requires |fs| > 1 && Complete(fs)
    ensures Complete(fs[1..])
  {
    hide DecodeInsn;
  }

  // The exit that closes a block is no CSR access, so a block with a failing
  // one has at least two instructions.
  lemma LastIsNoCsr(fs: seq<Fetched>)
    requires fs != [] && Complete(fs)
    ensures CsrOk(fs[|fs| - 1].Insn())
    ensures !CsrsOk(fs) ==> |fs| > 1
    ensures forall k :: 0 <= k < |fs| && !CsrOk(fs[k].Insn()) ==> !fs[k].Trans().exit
  {
    hide DecodeInsn;
    forall k | 0 <= k < |fs| ensures fs[k].Trans().exit ==> CsrOk(fs[k].Insn()) {
      OwnAddresses(fs[k]);
    }
  }

  lemma FailingAccess(sys: Kernel, f: Fetched, m: Machine)
    requires Fetch(m.mem, f.addr) == Some(f.op) && m.exception == NoException && !CsrOk(f.Insn())
    requires ExecChecked(f.Insn(), m).Next?
    ensures var o := RefStep(sys, Next(m.(pc := f.addr)));
            o.Next? && RefStep(sys, o) == Halted(IllegalExit)
  {
    hide DecodeInsn, InsnLen, Plus, Fetch, Exec;
    RaisesOrKeeps(f.Insn(), m);
    RaisesOrKeeps(f.Insn(), m.(pc := f.addr));
  }

  // What the emulator's block leaves pending after a failing access: the last
  // exception raised, which is the ecall's when an ecall closes the block.
  lemma {:induction false} PendingAfterCsr(fs: seq<Fetched>, pc: Word, room: nat, m: Machine)
    requires StraightLine(fs, pc, room) && Complete(fs) && RunInsns(Insns(fs), m).Next?
    ensures var e, last := RunInsns(Insns(fs), m).m.exception, fs[|fs| - 1].Insn().handler;
            && (last.DoEcall? ==> e == UserEcall)
            && (last.DoIllegal? ==> e == IllegalInst)
            && (!IsTrap(last) ==> e == if CsrsOk(fs) then m.exception else IllegalInst)
    decreases |fs|
  {
    hide DecodeInsn, InsnLen, Plus, Exec, Complete;
    RunStep(fs, m);
    QuietCons(fs);
    LastIsNoCsr(fs);
    RaisesOrKeeps(fs[0].Insn(), m);
    if |fs| == 1 {
      assert Insns(fs[1..]) == [];
    } else {
      StraightLineTail(fs, pc, room);
      CompleteTail(fs);
      OwnAddresses(fs[0]);
      assert fs[1..][|fs| - 2] == fs[|fs| - 1];
      PendingAfterCsr(fs[1..], fs[0].After(), room - 1, ExecChecked(fs[0].Insn(), m).m);
    }
  }

  // A block with a failing access, run without host fault: the reference has
  // ended the program, and the emulator ends it too if and only if the block is
  // not closed by an ecall, whose exception overwrites the pending one.
  lemma FailingCsrIsSeenExactly(sys: Kernel, fs: seq<Fetched>, m: Machine)
    requires StraightLine(fs, m.pc, TRANS_MAX) && Complete(fs) && !CsrsOk(fs)
    requires m.exception == NoException && Unmodified(sys, fs, m)
    requires RunInsns(Insns(fs), m).Next?
    ensures RefRun(sys, Next(m), |fs|) == Halted(IllegalExit)
    ensures Resume(sys, RunInsns(Insns(fs), m).m) == Halted(IllegalExit) <==> !fs[|fs| - 1].Insn().handler.DoEcall?
  {
    hide DecodeInsn, InsnLen, Plus, Exec, RunInsns, RefRun, Unmodified, Complete;
    assert m == m.(pc := fs[0].addr);
    ReferenceStopsAtCsr(sys, fs, TRANS_MAX, m);
    PendingAfterCsr(fs, m.pc, TRANS_MAX, m);
  }
}
