// state_t and the handler functions of arch/riscv/cpu.c that update it, each
// proved to have the effect Machine.Exec gives it.
module Cpu {
  import opened Bits
  import opened Words
  import opened Decode
  import opened Machine
  import opened AluLaws
  import WideMul

  class State {
    const gpr: array<Word>
    var pc: Word
    var csr: map<int, Word>
    var exception: Exception
    var mem: Memory      // guest memory, reached through g2h
    var calls: nat

    ghost predicate Valid()
      reads this
    {
      gpr.Length == 32
    }

    ghost function Snapshot(): Machine
      requires Valid()
      reads this, gpr
    {
      Machine(gpr[..], pc, csr, exception, mem, calls)
    }

    constructor (entry: Word, sp: Word, memory: Memory)
      ensures Valid() && fresh(gpr)
      ensures Snapshot() == Machine(seq(32, i => 0)[2 := sp], entry, map[], NoException, memory, 0)
      ensures gpr[2] == sp && forall r: Reg :: r != 2 ==> gpr[r] == 0
      ensures pc == entry && mem == memory && exception == NoException
    {
      gpr := new Word[32](i => 0);
      pc := entry;
      csr := map[];
      exception := NoException;
      mem := memory;
      calls := 0;
      new;
      gpr[2] := sp;
    }

    method WriteReg(rd: Reg, v: Word)
      requires Valid()
      modifies gpr
      ensures Snapshot() == SetReg(old(Snapshot()), rd, v)
    {
      gpr[rd] := v;
    }

    // do_jal and do_c_jal
    method Jal(i: Insn, len: int)
      requires Valid()
      modifies this`pc, gpr
      ensures Exec(i.(handler := DoJal(len)), old(Snapshot())) == Next(Snapshot())
    {
      if i.rd != 0 {
        gpr[i.rd] := Plus(i.pc, len);
      }
      pc := Plus(i.pc, i.imm);
      assert Snapshot() == Link(i, len, old(Snapshot())).(pc := Plus(i.pc, i.imm));
    }

    // do_jalr and do_c_jalr: rs1 is read after the link register is written.
    method Jalr(i: Insn, len: int)
      requires Valid()
      modifies this`pc, gpr
      ensures Exec(i.(handler := DoJalr(len)), old(Snapshot())) == Next(Snapshot())
    {
      if i.rd != 0 {
        gpr[i.rd] := Plus(i.pc, len);
      }
      var t := Plus(gpr[i.rs1], i.imm);
      pc := t - t % 2;
      assert Snapshot() == Link(i, len, old(Snapshot())).(pc := t - t % 2);
    }

    // do_beq and its kin
    method CondBranch(i: Insn, cond: Cond, len: int)
      requires Valid()
      modifies this`pc
      ensures Exec(i.(handler := DoBranch(cond, len)), old(Snapshot())) == Next(Snapshot())
    {
      pc := Plus(i.pc, if Taken(cond, gpr[i.rs1], gpr[i.rs2]) then i.imm else len);
    }

    // do_illegal and do_ecall
    method Raise(i: Insn, e: Exception)
      modifies this`pc, this`exception
      ensures pc == i.pc && exception == e
    {
      exception := e;
      pc := i.pc;
    }

    // do_mulh, do_mulhsu and do_mulhu take the high word of the double-width
    // product.
    method MulHigh(op: AluOp, a: Word, b: Word) returns (v: Word)
      requires op.Mulh? || op.Mulhsu? || op.Mulhu?
      ensures Alu(op, a, b) == Some(v)
    {
      hide Pow2, Shl, Shr;
      assert Pow2(2 * 32) == TWO64 by { Pow2Values(); }
      var hi, lo;
      if op.Mulh? {
        hi, lo := WideMul.Wmul(Signed(a), Signed(b), 32);
        HighWordIsQuotient(hi, lo, Signed(a) * Signed(b));
      } else if op.Mulhsu? {
        hi, lo := WideMul.Wmulsu(Signed(a), b, 32);
        HighWordIsQuotient(hi, lo, Signed(a) * b);
      } else {
        hi, lo := WideMul.Wmulu(a, b, 32);
        HighWordIsQuotient(hi, lo, a * b);
      }
      v := Wrap(hi);
    }

    // Register-register and register-immediate arithmetic.
    method Arith(op: AluOp, rd: Reg, a: Word, b: Word) returns (halt: Option<Halt>)
      requires Valid()
      modifies gpr
      ensures match ExecAlu(op, rd, a, b, old(Snapshot()))
        case Next(m) => halt == None && Snapshot() == m
        case Halted(why) => halt == Some(why)
      ensures halt.Some? <==> Traps(op, a, b)
      ensures halt.None? ==> Meets(op, a, b, gpr[rd]) && forall r: Reg :: r != rd ==> gpr[r] == old(gpr[r])
    {
      hide Meets, Traps;
      AluMeets(op, a, b);
      var v: Option<Word>;
      if op.Mulh? || op.Mulhsu? || op.Mulhu? {
        var high := MulHigh(op, a, b);
        v := Some(high);
      } else {
        v := Alu(op, a, b);
      }
      hide Alu;
      match v {
        case None => halt := Some(HostFault);
        case Some(w) =>
          gpr[rd] := w;
          halt := None;
          assert Snapshot() == SetReg(old(Snapshot()), rd, w);
      }
    }

    // do_lb .. do_ld, do_lr_w and do_lr_d
    method Load(addr: Word, size: nat, signed: bool, rd: Reg) returns (halt: Option<Halt>)
      requires Valid()
      modifies gpr
      ensures match ExecLoad(addr, size, signed, rd, old(Snapshot()))
        case Next(m) => halt == None && Snapshot() == m
        case Halted(why) => halt == Some(why)
    {
      hide SignedBytes, LoadBytes;
      match LoadBytes(mem, addr, size) {
        case None => halt := Some(HostFault);
        case Some(v) =>
          var w := Wrap(if signed then SignedBytes(v, size) else v);
          gpr[rd] := w;
          halt := None;
          assert Snapshot() == SetReg(old(Snapshot()), rd, w);
      }
    }

    // do_sb .. do_sd
    method Store(addr: Word, size: nat, v: Word) returns (halt: Option<Halt>)
      requires Valid()
      modifies this`mem
      ensures match ExecStore(addr, size, v, old(Snapshot()))
        case Next(m) => halt == None && Snapshot() == m
        case Halted(why) => halt == Some(why)
    {
      hide StoreBytes;
      match StoreBytes(mem, addr, size, v) {
        case None => halt := Some(HostFault);
        case Some(after) =>
          mem := after;
          halt := None;
      }
    }

    // do_csrrw .. do_csrrci through rmw_csr
    method Csr(i: Insn, op: CsrOp, immediate: bool)
      requires Valid()
      modifies this`csr, this`pc, this`exception, gpr
      ensures ExecCsr(i, op, immediate, old(Snapshot())) == Next(Snapshot())
    {
      hide CsrUpdate;
      if i.imm !in IMPLEMENTED_CSRS {
        Raise(i, IllegalInst);
      } else {
        var value := CsrValue(csr, i.imm);
        var operand := if immediate then i.rs1 else gpr[i.rs1];
        csr := csr[i.imm := CsrUpdate(op, value, operand)];
        gpr[i.rd] := value;
        assert Snapshot() == SetReg(old(Snapshot()).(csr := csr), i.rd, value);
      }
    }

    // do_sc_w and do_sc_d: the store always succeeds.
    method StoreConditional(i: Insn, size: nat) returns (halt: Option<Halt>)
      requires Valid()
      modifies this`mem, gpr
      ensures match ExecStoreConditional(i, size, old(Snapshot()))
        case Next(m) => halt == None && Snapshot() == m
        case Halted(why) => halt == Some(why)
    {
      hide StoreBytes;
      match StoreBytes(mem, gpr[i.rs1], size, gpr[i.rs2]) {
        case None => halt := Some(HostFault);
        case Some(after) =>
          mem := after;
          gpr[i.rd] := 0;
          halt := None;
          assert Snapshot() == SetReg(old(Snapshot()).(mem := after), i.rd, 0);
      }
    }

    // do_amoadd_w .. do_amomaxu_d
    method Amo(i: Insn, op: AmoOp, size: nat) returns (halt: Option<Halt>)
      requires Valid()
      modifies this`mem, gpr
      ensures match ExecAmo(i, op, size, old(Snapshot()))
        case Next(m) => halt == None && Snapshot() == m
        case Halted(why) => halt == Some(why)
    {
      hide StoreBytes, LoadBytes, AmoResult, SignedBytes, Pow2;
      var addr := gpr[i.rs1];
      match LoadBytes(mem, addr, size) {
        case None => halt := Some(HostFault);
        case Some(v) =>
          match StoreBytes(mem, addr, size, AmoResult(op, size, v, gpr[i.rs2] % Pow2(8 * size))) {
            case None => halt := Some(HostFault);
            case Some(after) =>
              var w := Wrap(SignedBytes(v, size));
              mem := after;
              gpr[i.rd] := w;
              halt := None;
              assert Snapshot() == SetReg(old(Snapshot()).(mem := after), i.rd, w);
          }
      }
    }

    // insn->handler(env, insn)
    method Handle(i: Insn) returns (halt: Option<Halt>)
      requires Valid()
      modifies this, gpr
      ensures match Exec(i, old(Snapshot()))
        case Next(m) => halt == None && Snapshot() == m
        case Halted(why) => halt == Some(why)
    {
      hide ExecAlu, ExecLoad, ExecStore, ExecCsr, ExecStoreConditional, ExecAmo, Link, JumpTarget, Taken;
      halt := None;
      match i.handler {
        case DoEmpty =>
        case DoIllegal => Raise(i, IllegalInst);
        case DoEcall => Raise(i, UserEcall);
        case DoAuipc => WriteReg(i.rd, Plus(i.pc, i.imm));
        case DoLui => WriteReg(i.rd, Wrap(i.imm));
        case DoJal(len) => Jal(i, len);
        case DoJalr(len) => Jalr(i, len);
        case DoBranch(cond, len) => CondBranch(i, cond, len);
        case DoAlu(op) => halt := Arith(op, i.rd, gpr[i.rs1], gpr[i.rs2]);
        case DoAluImm(op) => halt := Arith(op, i.rd, gpr[i.rs1], Wrap(i.imm));
        case DoLoad(size, signed) => halt := Load(Plus(gpr[i.rs1], i.imm), size, signed, i.rd);
        case DoStore(size) => halt := Store(Plus(gpr[i.rs1], i.imm), size, gpr[i.rs2]);
        case DoCsr(op, immediate) => Csr(i, op, immediate);
        case DoLoadReserved(size) => halt := Load(gpr[i.rs1], size, true, i.rd);
        case DoStoreConditional(size) => halt := StoreConditional(i, size);
        case DoAmo(op, size) => halt := Amo(i, op, size);
      }
    }
  }

  // The high word of an exact double-width product is its floor quotient.
  lemma HighWordIsQuotient(hi: int, lo: nat, product: int)
    requires lo < TWO64 && hi * Pow2(2 * 32) + lo == product && Pow2(2 * 32) == TWO64
    ensures product / TWO64 == hi
  {
    DivModUnique(product, TWO64, hi, lo);
  }
}
