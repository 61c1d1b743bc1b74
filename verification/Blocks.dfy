// Translation blocks as values: which instructions decode puts in a block, and
// what running them does (arch/riscv/translate.c:1426-1481,
// arch/riscv/cpu.c:785-790).
module Blocks {
  import opened Bits
  import opened Words
  import opened Decode
  import opened Machine
  import opened DecodeFacts

  const TRANS_MAX := 512

  // cpu_lduw(ctx->pc, 0); four bytes are read even for a short instruction.
  function Fetch(mem: Memory, pc: Word): Option<U32> {
    match LoadBytes(mem, pc, 4)
    case None => None
    case Some(v) => Some(v % TWO32)
  }

  // One instruction of a block: its address and the word fetched there.
  datatype Fetched = Fetched(addr: Word, op: U32) {
    function Trans(): Trans {
      DecodeInsn(addr, op)
    }

    function Insn(): Insn {
      Trans().insn
    }

    function After(): Word {
      Plus(addr, InsnLen(op))
    }
  }

  // Straight-line decoding from pc, of at most room instructions.
  function DecodeFrom(mem: Memory, pc: Word, room: nat): Option<seq<Fetched>>
    requires room > 0
    decreases room
  {
    match Fetch(mem, pc)
    case None => None
    case Some(op) =>
      var f := Fetched(pc, op);
      if f.Trans().exit || room == 1 then Some([f])
      else match DecodeFrom(mem, f.After(), room - 1)
        case None => None
        case Some(rest) => Some([f] + rest)
  }

  // The block translate makes for pc.
  function DecodeBlock(mem: Memory, pc: Word): Option<seq<Fetched>> {
    DecodeFrom(mem, pc, TRANS_MAX)
  }

  // ---- Translation is exact ----

  // Each address follows the previous instruction, every instruction but the
  // last is straight-line, and the last is an exit unless the block is full.
  ghost predicate StraightLine(fs: seq<Fetched>, pc: Word, room: nat) {
    && 1 <= |fs| <= room
    && fs[0].addr == pc
    && (forall k :: 0 <= k < |fs| - 1 ==> !fs[k].Trans().exit && fs[k + 1].addr == fs[k].After())
    && (fs[|fs| - 1].Trans().exit || |fs| == room)
  }

  ghost predicate FetchedFrom(fs: seq<Fetched>, mem: Memory) {
    forall k :: 0 <= k < |fs| ==> Fetch(mem, fs[k].addr) == Some(fs[k].op)
  }

  lemma StraightLineCons(f: Fetched, rest: seq<Fetched>, room: nat)
    requires room > 1 && !f.Trans().exit && StraightLine(rest, f.After(), room - 1)
    ensures StraightLine([f] + rest, f.addr, room)
  {
    hide DecodeInsn, InsnLen, Plus;
    var fs := [f] + rest;
    forall k | 0 <= k < |fs| - 1
      ensures !fs[k].Trans().exit && fs[k + 1].addr == fs[k].After()
    {
      assert k > 0 ==> fs[k] == rest[k - 1] && fs[k + 1] == rest[k];
    }
    assert fs[|fs| - 1] == rest[|rest| - 1];
  }

  lemma StraightLineTail(fs: seq<Fetched>, pc: Word, room: nat)
    requires StraightLine(fs, pc, room) && |fs| > 1
    ensures StraightLine(fs[1..], fs[0].After(), room - 1)
  {
    hide DecodeInsn, InsnLen, Plus;
    var rest := fs[1..];
    forall k | 0 <= k < |rest| - 1
      ensures !rest[k].Trans().exit && rest[k + 1].addr == rest[k].After()
    {
      assert rest[k] == fs[k + 1] && rest[k + 1] == fs[k + 2];
    }
  }

  // What decode fills in is the straight-line decoding of guest memory, and it
  // is the only sequence with that property.
  lemma {:induction false} TranslationIsExact(mem: Memory, pc: Word, room: nat, fs: seq<Fetched>)
    requires room > 0
    ensures DecodeFrom(mem, pc, room) == Some(fs) <==> StraightLine(fs, pc, room) && FetchedFrom(fs, mem)
    decreases room
  {
    hide DecodeInsn, InsnLen, Plus, Fetch;
    var r := DecodeFrom(mem, pc, room);
    DecodedIsStraightLine(mem, pc, room);
    if StraightLine(fs, pc, room) && FetchedFrom(fs, mem) {
      assert Fetch(mem, fs[0].addr) == Some(fs[0].op);
      assert fs[0] == Fetched(pc, fs[0].op);
      if |fs| == 1 {
        assert fs == [fs[0]];
      } else {
        StraightLineTail(fs, pc, room);
        assert FetchedFrom(fs[1..], mem);
        TranslationIsExact(mem, fs[0].After(), room - 1, fs[1..]);
        assert fs == [fs[0]] + fs[1..];
      }
    }
  }

  lemma {:induction false} DecodedIsStraightLine(mem: Memory, pc: Word, room: nat)
    requires room > 0
    ensures var r := DecodeFrom(mem, pc, room);
      r.Some? ==> StraightLine(r.value, pc, room) && FetchedFrom(r.value, mem)
    decreases room
  {
    hide DecodeInsn, InsnLen, Plus, Fetch;
    var r := DecodeFrom(mem, pc, room);
    if r.Some? {
      var f := r.value[0];
      if !f.Trans().exit && room > 1 {
        DecodedIsStraightLine(mem, f.After(), room - 1);
        var rest := DecodeFrom(mem, f.After(), room - 1).value;
        StraightLineCons(f, rest, room);
      }
    }
  }

  // Every instruction that reads insn->pc, a failing CSR access apart, has it
  // set to its own address.
  lemma OwnAddresses(f: Fetched)
    ensures IsExit(f.Insn().handler) || f.Insn().handler.DoAuipc? ==> f.Insn().pc == f.addr
    ensures f.Trans().exit == IsExit(f.Insn().handler)
  {
    hide DecodeInsn;
    DecodeSound(f.addr, f.op);
  }

  // ---- Running a block ----

  function Insns(fs: seq<Fetched>): seq<Insn> {
    seq(|fs|, k requires 0 <= k < |fs| => fs[k].Insn())
  }

  // The inner loop of block_exec.
  function RunInsns(insns: seq<Insn>, m: Machine): Outcome {
    if insns == [] then Next(m)
    else match ExecChecked(insns[0], m)
      case Halted(why) => Halted(why)
      case Next(m1) => RunInsns(insns[1..], m1)
  }

  // Closed by an exit instruction rather than by the TRANS_MAX cap.
  predicate Complete(fs: seq<Fetched>)
    requires fs != []
  {
    fs[|fs| - 1].Trans().exit
  }

  predicate CsrsOk(fs: seq<Fetched>) {
    forall k :: 0 <= k < |fs| ==> CsrOk(fs[k].Insn())
  }

  // No instruction of the block raises an exception.
  predicate Quiet(fs: seq<Fetched>) {
    forall k :: 0 <= k < |fs| ==> CsrOk(fs[k].Insn()) && !IsTrap(fs[k].Insn().handler)
  }

  // jmp_next[0].pc and jmp_next[1].pc after translation
  function Next0(fs: seq<Fetched>): Word
    requires fs != []
  {
    var last := fs[|fs| - 1];
    if last.Trans().next0.Some? then last.Trans().next0.value
    else if last.Trans().exit then 0
    else last.After()
  }

  function Next1(fs: seq<Fetched>): Word
    requires fs != []
  {
    var last := fs[|fs| - 1];
    if last.Trans().next1.Some? then last.Trans().next1.value else 0
  }

  // The addresses at which a quiet block can leave pc.
  predicate CanLeaveAt(fs: seq<Fetched>, pc: Word)
    requires fs != []
  {
    var h := fs[|fs| - 1].Insn().handler;
    if !Complete(fs) then pc == fs[0].addr
    else if h.DoBranch? then pc == Next0(fs) || pc == Next1(fs)
    else if h.DoJal? then pc == Next0(fs)
    else true
  }

  lemma {:induction false} RunKeepsException(fs: seq<Fetched>, m: Machine)
    requires RunInsns(Insns(fs), m).Next?
    ensures var e := RunInsns(Insns(fs), m).m.exception;
      && (Quiet(fs) ==> e == m.exception)
      && (m.exception != NoException || !Quiet(fs) ==> e != NoException)
    ensures RunInsns(Insns(fs), m).m.calls == m.calls
  {
    hide DecodeInsn, Exec;
    if fs != [] {
      RaisesOrKeeps(fs[0].Insn(), m);
      RunStep(fs, m);
      var m1 := ExecChecked(fs[0].Insn(), m).m;
      RunKeepsException(fs[1..], m1);
      assert Quiet(fs) <==> (CsrOk(fs[0].Insn()) && !IsTrap(fs[0].Insn().handler) && Quiet(fs[1..])) by {
        QuietCons(fs);
      }
    }
  }

  lemma QuietCons(fs: seq<Fetched>)
    requires fs != []
    ensures Quiet(fs) <==> (CsrOk(fs[0].Insn()) && !IsTrap(fs[0].Insn().handler) && Quiet(fs[1..]))
    ensures CsrsOk(fs) <==> (CsrOk(fs[0].Insn()) && CsrsOk(fs[1..]))
  {
    hide DecodeInsn;
    assert fs == [fs[0]] + fs[1..];
    assert forall k :: 0 < k < |fs| ==> fs[k] == fs[1..][k - 1];
  }

  lemma RunStep(fs: seq<Fetched>, m: Machine)
    requires fs != []
    ensures RunInsns(Insns(fs), m) ==
      match ExecChecked(fs[0].Insn(), m)
      case Halted(why) => Halted(why)
      case Next(m1) => RunInsns(Insns(fs[1..]), m1)
  {
    hide DecodeInsn, ExecChecked;
    assert Insns(fs)[1..] == Insns(fs[1..]);
  }

  // Instructions before the exit leave pc where it was on entry.
  lemma {:induction false} LeavesAtSuccessor(fs: seq<Fetched>, pc: Word, room: nat, m: Machine)
    requires StraightLine(fs, pc, room) && CsrsOk(fs)
    requires RunInsns(Insns(fs), m).Next?
    ensures var m1 := RunInsns(Insns(fs), m).m;
      && (!Complete(fs) ==> m1.pc == m.pc)
      && (fs[|fs| - 1].Insn().handler.DoJal? ==> m1.pc == Next0(fs))
      && (fs[|fs| - 1].Insn().handler.DoBranch? ==> m1.pc == Next0(fs) || m1.pc == Next1(fs))
      && (fs[|fs| - 1].Insn().handler.DoJalr? ==> m1.pc % 2 == 0)
    decreases |fs|
  {
    hide DecodeInsn, InsnLen, Plus, Exec;
    var last := fs[|fs| - 1];
    OwnAddresses(fs[0]);
    RunStep(fs, m);
    if |fs| == 1 {
      LastLeaves(fs[0], m);
      assert Insns(fs[1..]) == [];
    } else {
      StraightIgnoresPc(fs[0].Insn(), m, m.pc);
      StraightLineTail(fs, pc, room);
      QuietCons(fs);
      var rest := fs[1..];
      assert rest[|rest| - 1] == last;
      LeavesAtSuccessor(rest, fs[0].After(), room - 1, ExecChecked(fs[0].Insn(), m).m);
    }
  }

  lemma LastLeaves(f: Fetched, m: Machine)
    requires CsrOk(f.Insn())
    requires ExecChecked(f.Insn(), m).Next?
    ensures var m1 := ExecChecked(f.Insn(), m).m;
      && (!f.Trans().exit ==> m1.pc == m.pc)
      && (f.Insn().handler.DoJal? ==> f.Trans().next0 == Some(m1.pc))
      && (f.Insn().handler.DoBranch? ==> f.Trans().next0 == Some(m1.pc) || f.Trans().next1 == Some(m1.pc))
      && (f.Insn().handler.DoJalr? ==> m1.pc % 2 == 0)
  {
    hide DecodeInsn, Plus;
    DecodeSound(f.addr, f.op);
    if !f.Trans().exit {
      StraightIgnoresPc(f.Insn(), m, m.pc);
    } else {
      ExitLeaves(f.Insn(), m);
    }
  }

  lemma ExitLeaves(i: Insn, m: Machine)
    requires IsExit(i.handler)
    ensures Exec(i, m).Next?
    ensures var m1 := Exec(i, m).m;
      && (i.handler.DoJal? ==> m1.pc == Plus(i.pc, i.imm))
      && (i.handler.DoBranch? ==> m1.pc == Plus(i.pc, i.imm) || m1.pc == Plus(i.pc, i.handler.len))
      && (i.handler.DoJalr? ==> m1.pc % 2 == 0)
      && (IsTrap(i.handler) ==> m1.pc == i.pc)
  {
    hide Plus;
  }

  // Recorded successors match execution, and the exception state after a block
  // is decided by its instructions.
  lemma BlockOutcome(fs: seq<Fetched>, m: Machine)
    requires StraightLine(fs, m.pc, TRANS_MAX) && m.exception == NoException
    requires RunInsns(Insns(fs), m).Next?
    ensures var m1 := RunInsns(Insns(fs), m).m;
      && (m1.exception == NoException <==> Quiet(fs))
      && (Quiet(fs) ==> CanLeaveAt(fs, m1.pc))
  {
    hide DecodeInsn, InsnLen, Plus, Exec, RunInsns;
    RunKeepsException(fs, m);
    if Quiet(fs) {
      LeavesAtSuccessor(fs, m.pc, TRANS_MAX, m);
      OwnAddresses(fs[|fs| - 1]);
    }
  }

  // ---- Which links can exist ----

  // A block whose second slot may be linked: a conditional branch, or a full
  // block at the address its unused slot happens to hold.
  predicate SecondSlotUsable(fs: seq<Fetched>)
    requires fs != []
  {
    if Complete(fs) then fs[|fs| - 1].Insn().handler.DoBranch? else Next1(fs) == fs[0].addr
  }

  // Following the second slot needs no test of pc.
  lemma SecondSlotIsTarget(fs: seq<Fetched>, pc: Word)
    requires fs != [] && Quiet(fs) && CanLeaveAt(fs, pc) && SecondSlotUsable(fs)
    requires pc != Next0(fs)
    ensures pc == Next1(fs)
  {
    hide DecodeInsn;
  }

  // patch_block fills the second slot only where that is sound.
  lemma PatchedSecondSlotIsUsable(fs: seq<Fetched>, pc: Word)
    requires fs != [] && Quiet(fs) && CanLeaveAt(fs, pc)
    requires pc != Next0(fs) && pc == Next1(fs)
    ensures SecondSlotUsable(fs)
  {
    hide DecodeInsn;
    var last := fs[|fs| - 1];
    DecodeSound(last.addr, last.op);
    assert IsExit(last.Insn().handler) == last.Trans().exit;
  }
}
