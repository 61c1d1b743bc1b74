// The guest machine and the meaning of each handler of arch/riscv/cpu.c, as
// functions on values.  A handler either produces the next machine or takes
// the whole emulator down.
module Machine {
  import opened Bits
  import opened Words
  import opened Decode

  type Gpr = s: seq<Word> | |s| == 32 witness seq(32, i => 0)
  type Memory = map<Word, Byte>

  datatype Exception = NoException | IllegalInst | UserEcall

  // state_t with the guest memory it reaches through g2h, and the number of
  // system calls served so far.
  datatype Machine = Machine(gpr: Gpr, pc: Word, csr: map<int, Word>, exception: Exception, mem: Memory, calls: nat)

  // How the emulator process can end.
  datatype Halt =
    | HostFault       // host signal: unmapped memory, division trap, overrun buffer
    | AssertFailed    // assert(env->gpr[0] == 0)
    | IllegalExit     // _exit(1) on an illegal instruction
    | GuestExit       // exit system call

  datatype Outcome = Next(m: Machine) | Halted(why: Halt)

  // ---- Memory: mmap.c:114-153, little endian ----

  // None when a byte is not mapped.
  function LoadBytes(mem: Memory, addr: Word, n: nat): Option<nat>
    decreases n
  {
    if n == 0 then Some(0)
    else if addr !in mem then None
    else match LoadBytes(mem, Plus(addr, 1), n - 1)
      case None => None
      case Some(high) => Some(mem[addr] + 256 * high)
  }

  function StoreBytes(mem: Memory, addr: Word, n: nat, v: nat): Option<Memory>
    decreases n
  {
    if n == 0 then Some(mem)
    else if addr !in mem then None
    else StoreBytes(mem[addr := v % 256], Plus(addr, 1), n - 1, v / 256)
  }

  // The value of an n-byte load as int<8n>_t.
  function SignedBytes(v: nat, n: nat): int {
    if n > 0 && v >= Pow2(8 * n - 1) then v - Pow2(8 * n) else v
  }

  // ---- Arithmetic ----

  // do_div and the other division handlers have no case for a zero divisor or
  // for overflow: the host divides, and traps.
  function Divide(a: int, b: int, least: int, remainder: bool): Option<Word> {
    if b == 0 || (a == least && b == -1) then None
    else Some(Wrap(if remainder then TruncRem(a, b) else TruncDiv(a, b)))
  }

  function Alu(op: AluOp, a: Word, b: Word): Option<Word> {
    match op
    case Add => Some(Wrap(a + b))
    case Sub => Some(Wrap(a - b))
    case Sll => Some(Wrap(Shl(a, b % 64)))
    case Slt => Some(if Signed(a) < Signed(b) then 1 else 0)
    case Sltu => Some(if a < b then 1 else 0)
    case BitXor => Some(XorWord(a, b))
    case Srl => Some(Shr(a, b % 64))
    case Sra => Some(Wrap(ShiftRightSigned(Signed(a), b % 64)))
    case BitOr => Some(OrWord(a, b))
    case BitAnd => Some(AndWord(a, b))
    case Addw => Some(Wrap(ToI32(ToU32(a + b))))
    case Subw => Some(Wrap(ToI32(ToU32(a - b))))
    case Sllw => Some(ToU32(Shl(Low32(a), b % 32)))
    case Srlw => Some(Shr(Low32(a), b % 32))
    case Sraw => Some(Wrap(ShiftRightSigned(SignedLow32(a), b % 32)))
    case Mul => Some(Wrap(Signed(a) * Signed(b)))
    case Mulh => Some(Wrap((Signed(a) * Signed(b)) / TWO64))
    case Mulhsu => Some(Wrap((Signed(a) * b) / TWO64))
    case Mulhu => Some(Wrap((a * b) / TWO64))
    case Div => Divide(Signed(a), Signed(b), -0x8000_0000_0000_0000, false)
    case Divu => Divide(a, b, -1, false)
    case Rem => Divide(Signed(a), Signed(b), -0x8000_0000_0000_0000, true)
    case Remu => Divide(a, b, -1, true)
    case Mulw => Some(Wrap(ToI32(ToU32(a * b))))
    case Divw => Divide(SignedLow32(a), SignedLow32(b), -0x8000_0000, false)
    case Divuw => Divide(Low32(a), Low32(b), -1, false)
    case Remw => Divide(SignedLow32(a), SignedLow32(b), -0x8000_0000, true)
    case Remuw => Divide(Low32(a), Low32(b), -1, true)
  }

  predicate Taken(cond: Cond, a: Word, b: Word) {
    match cond
    case Eq => a == b
    case Ne => a != b
    case Lt => Signed(a) < Signed(b)
    case Ge => Signed(a) >= Signed(b)
    case Ltu => a < b
    case Geu => a >= b
  }

  // ---- CSRs: read_csr, write_csr and rmw_csr ----

  const IMPLEMENTED_CSRS := {0x001, 0x002, 0x003, 0x008, 0x009, 0x00a, 0x00f, 0xc20, 0xc21, 0xc22}

  function CsrValue(csr: map<int, Word>, n: int): Word {
    if n in csr then csr[n] else 0
  }

  function CsrUpdate(op: CsrOp, old_: Word, operand: Word): Word {
    match op
    case Write => operand
    case Set => OrWord(old_, operand)
    case Clear => AndWord(old_, TWO64 - 1 - operand)
  }

  // ---- Atomics ----

  // The bytes an AMO writes, from the loaded value and the register operand
  // truncated to the access size.
  function AmoResult(op: AmoOp, n: nat, loaded: nat, operand: nat): nat {
    match op
    case AmoAdd => loaded + operand
    case AmoSwap => operand
    case AmoXor => Xor(loaded, operand)
    case AmoOr => Or(loaded, operand)
    case AmoAnd => And(loaded, operand)
    case AmoMin => if SignedBytes(loaded, n) < SignedBytes(operand, n) then loaded else operand
    case AmoMax => if SignedBytes(loaded, n) > SignedBytes(operand, n) then loaded else operand
    case AmoMinu => if loaded < operand then loaded else operand
    case AmoMaxu => if loaded > operand then loaded else operand
  }

  // ---- Handlers ----

  function SetReg(m: Machine, rd: Reg, v: Word): Machine {
    m.(gpr := m.gpr[rd := v])
  }

  function RaiseIllegal(i: Insn, m: Machine): Machine {
    m.(exception := IllegalInst, pc := i.pc)
  }

  // The link register is written before rs1 is read.
  function Link(i: Insn, len: int, m: Machine): Machine {
    if i.rd != 0 then SetReg(m, i.rd, Plus(i.pc, len)) else m
  }

  function JumpTarget(i: Insn, len: int, m: Machine): Word {
    var t := Plus(Link(i, len, m).gpr[i.rs1], i.imm);
    t - t % 2
  }

  function ExecAlu(op: AluOp, rd: Reg, a: Word, b: Word, m: Machine): Outcome {
    match Alu(op, a, b)
    case None => Halted(HostFault)
    case Some(v) => Next(SetReg(m, rd, v))
  }

  function ExecLoad(addr: Word, size: nat, signed: bool, rd: Reg, m: Machine): Outcome {
    match LoadBytes(m.mem, addr, size)
    case None => Halted(HostFault)
    case Some(v) => Next(SetReg(m, rd, Wrap(if signed then SignedBytes(v, size) else v)))
  }

  function ExecStore(addr: Word, size: nat, v: Word, m: Machine): Outcome {
    match StoreBytes(m.mem, addr, size, v)
    case None => Halted(HostFault)
    case Some(mem) => Next(m.(mem := mem))
  }

  function ExecCsr(i: Insn, op: CsrOp, immediate: bool, m: Machine): Outcome {
    if i.imm !in IMPLEMENTED_CSRS then Next(RaiseIllegal(i, m))
    else
      var value := CsrValue(m.csr, i.imm);
      var operand := if immediate then i.rs1 else m.gpr[i.rs1];
      Next(SetReg(m.(csr := m.csr[i.imm := CsrUpdate(op, value, operand)]), i.rd, value))
  }

  function ExecAmo(i: Insn, op: AmoOp, size: nat, m: Machine): Outcome {
    match LoadBytes(m.mem, m.gpr[i.rs1], size)
    case None => Halted(HostFault)
    case Some(v) =>
      match StoreBytes(m.mem, m.gpr[i.rs1], size, AmoResult(op, size, v, m.gpr[i.rs2] % Pow2(8 * size)))
      case None => Halted(HostFault)
      case Some(mem) => Next(SetReg(m.(mem := mem), i.rd, Wrap(SignedBytes(v, size))))
  }

  function ExecStoreConditional(i: Insn, size: nat, m: Machine): Outcome {
    match StoreBytes(m.mem, m.gpr[i.rs1], size, m.gpr[i.rs2])
    case None => Halted(HostFault)
    case Some(mem) => Next(SetReg(m.(mem := mem), i.rd, 0))
  }

  // insn->handler(env, insn)
  function Exec(i: Insn, m: Machine): Outcome {
    match i.handler
    case DoEmpty => Next(m)
    case DoIllegal => Next(RaiseIllegal(i, m))
    case DoEcall => Next(m.(exception := UserEcall, pc := i.pc))
    case DoAuipc => Next(SetReg(m, i.rd, Plus(i.pc, i.imm)))
    case DoLui => Next(SetReg(m, i.rd, Wrap(i.imm)))
    case DoJal(len) => Next(Link(i, len, m).(pc := Plus(i.pc, i.imm)))
    case DoJalr(len) => Next(Link(i, len, m).(pc := JumpTarget(i, len, m)))
    case DoBranch(cond, len) =>
      Next(m.(pc := Plus(i.pc, if Taken(cond, m.gpr[i.rs1], m.gpr[i.rs2]) then i.imm else len)))
    case DoAlu(op) => ExecAlu(op, i.rd, m.gpr[i.rs1], m.gpr[i.rs2], m)
    case DoAluImm(op) => ExecAlu(op, i.rd, m.gpr[i.rs1], Wrap(i.imm), m)
    case DoLoad(size, signed) => ExecLoad(Plus(m.gpr[i.rs1], i.imm), size, signed, i.rd, m)
    case DoStore(size) => ExecStore(Plus(m.gpr[i.rs1], i.imm), size, m.gpr[i.rs2], m)
    case DoCsr(op, immediate) => ExecCsr(i, op, immediate, m)
    case DoLoadReserved(size) => ExecLoad(m.gpr[i.rs1], size, true, i.rd, m)
    case DoStoreConditional(size) => ExecStoreConditional(i, size, m)
    case DoAmo(op, size) => ExecAmo(i, op, size, m)
  }

  // The handler followed by assert(env->gpr[0] == 0).
  function ExecChecked(i: Insn, m: Machine): Outcome {
    match Exec(i, m)
    case Halted(why) => Halted(why)
    case Next(m1) => if m1.gpr[0] == 0 then Next(m1) else Halted(AssertFailed)
  }

  // ---- Straight-line and exit handlers ----

  predicate IsExit(h: Handler) {
    h.DoIllegal? || h.DoEcall? || h.DoJal? || h.DoJalr? || h.DoBranch?
  }

  predicate IsTrap(h: Handler) {
    h.DoIllegal? || h.DoEcall?
  }

  // Not a CSR access on its failing path.
  predicate CsrOk(i: Insn) {
    i.handler.DoCsr? ==> i.imm in IMPLEMENTED_CSRS
  }

  function WithPc(o: Outcome, pc: Word): Outcome {
    match o
    case Next(m) => Next(m.(pc := pc))
    case Halted(why) => o
  }

  // A straight-line handler touches neither pc nor exception, and its effect
  // does not depend on pc.
  lemma StraightIgnoresPc(i: Insn, m: Machine, pc: Word)
    requires !IsExit(i.handler) && CsrOk(i)
    ensures Exec(i, m).Next? ==> Exec(i, m).m.pc == m.pc && Exec(i, m).m.exception == m.exception
    ensures Exec(i, m.(pc := pc)) == WithPc(Exec(i, m), pc)
    ensures ExecChecked(i, m.(pc := pc)) == WithPc(ExecChecked(i, m), pc)
  {
    hide Alu, CsrUpdate, CsrValue, AmoResult, SignedBytes, LoadBytes, StoreBytes, Plus, Wrap, Pow2;
  }

  // An exit handler overwrites pc without reading it.
  lemma ExitOverwritesPc(i: Insn, m: Machine, pc: Word)
    requires IsExit(i.handler)
    ensures Exec(i, m.(pc := pc)) == Exec(i, m) && Exec(i, m).Next?
    ensures ExecChecked(i, m.(pc := pc)) == ExecChecked(i, m)
  {
  }

  // The exception after instruction i, from exception e.
  function ExceptionAfter(i: Insn, e: Exception): Exception {
    match i.handler
    case DoIllegal => IllegalInst
    case DoEcall => UserEcall
    case DoCsr(_, _) => if CsrOk(i) then e else IllegalInst
    case _ => e
  }

  // Every handler leaves the exception alone or raises one, and which of the
  // two it does is a property of the instruction.
  lemma RaisesOrKeeps(i: Insn, m: Machine)
    ensures Exec(i, m).Next? ==> Exec(i, m).m.exception == ExceptionAfter(i, m.exception)
    ensures Exec(i, m).Next? ==> Exec(i, m).m.calls == m.calls
    ensures !CsrOk(i) ==> Exec(i, m) == Next(m.(exception := IllegalInst, pc := i.pc))
  {
    hide Alu, CsrUpdate, AmoResult, SignedBytes;
  }
}
