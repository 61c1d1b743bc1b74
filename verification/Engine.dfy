// The translation-block engine of arch/riscv/cpu.c:707-869 and
// arch/riscv/translate.c:1431-1481: a hash table of blocks chained through
// hash_next, a bump-allocated instruction buffer, and blocks linked to each
// other by back-patching.  Every method is proved against CacheMachine.
module Engine {
  import opened Words
  import opened Decode
  import opened Machine
  import opened DecodeFacts
  import opened Blocks
  import opened Reference
  import opened CacheMachine
  import opened BlockStore
  import opened ZeroRegister
  import opened Invariants
  import Cpu

  class Engine {
    const table: array<Block?>
    const buffer: array<Insn>
    const hash: Word -> Bucket
    var ptr: nat                       // insn_buffer_ptr, in slots

    ghost var cache: BlockMap          // the block found for each address
    ghost var chains: seq<seq<Block>>  // the list of each bucket
    ghost var code: Cache              // what each block translates

    constructor ()
      ensures Valid() && fresh(table) && fresh(buffer)
      ensures cache == map[] && code == map[] && ptr == 0
    {
      table := new Block?[FAST_TABLE_SIZE](i => null);
      buffer := new Insn[SLOTS](i => BLANK);
      hash := (pc: Word) => FibHash(pc);
      ptr := 0;
      cache := map[];
      chains := seq(FAST_TABLE_SIZE, i => []);
      code := map[];
    }

    // ---- Invariants ----

    // hashNext of every cached block
    ghost function Nexts(): map<Block, Block?>
      reads this`cache, cache.Values`hashNext
    {
      map b: Block | b in cache.Values :: b.hashNext
    }

    ghost predicate ChainsOk()
      reads this`cache, this`chains, table, cache.Values`hashNext
    {
      table.Length == FAST_TABLE_SIZE && IsTable(table[..], chains, cache, Nexts(), hash)
    }

    ghost function FieldsOf(): map<Word, Fields>
      reads this`cache, cache.Values
    {
      map pc: Word | pc in cache :: cache[pc].GetFields()
    }

    ghost function GetStore(): Store
      reads this, buffer, cache.Values
    {
      Store(cache, code, FieldsOf(), buffer[..], ptr)
    }

    ghost predicate Valid()
      reads this, table, buffer, cache.Values
    {
      ChainsOk() && StoreOk(GetStore()) && code.Keys == cache.Keys
    }

    // The state of the cache machine that this engine and env represent.
    ghost function Represented(env: Cpu.State): CacheState
      requires env.Valid()
      reads this, env, env.gpr
    {
      Live(env.Snapshot(), code, ptr)
    }

    lemma OnChain(h: Bucket, i: nat)
      requires ChainsOk() && |chains| == FAST_TABLE_SIZE && i < |chains[h]|
      ensures var b := chains[h][i];
        && Member(b, h, cache, hash)
        && b in cache.Values
        && b.hashNext == if i + 1 < |chains[h]| then chains[h][i + 1] else null
    {
      assert IsBucket(chains[h], h, table[h], cache, Nexts(), hash);
      var b := chains[h][i];
      assert Member(b, h, cache, hash);
      assert b in cache.Values;
      assert Nexts()[b] == b.hashNext;
    }

    lemma BucketHead(h: Bucket)
      requires ChainsOk()
      ensures |chains| == FAST_TABLE_SIZE
      ensures table[h] == if chains[h] == [] then null else chains[h][0]
      ensures forall b: Block :: b in chains[h] ==> hash(b.pc) == h
    {
      assert IsBucket(chains[h], h, table[h], cache, Nexts(), hash);
      assert forall i :: 0 <= i < |chains[h]| ==> Member(chains[h][i], h, cache, hash);
    }

    lemma CachedBlock(b: Block)
      requires Valid() && b in cache.Values
      ensures b.pc in cache && cache[b.pc] == b && b.pc in code
      ensures FieldsOk(b.pc, b.GetFields(), code[b.pc], buffer[..], ptr, cache)
    {
      hide FieldsOk, IsBucket, Apart;
      var p :| p in cache && cache[p] == b;
      assert FieldsOf()[p] == b.GetFields();
    }

    // ---- find_block ----

    method FindBlock(pc: Word) returns (block: Block?)
      requires ChainsOk()
      ensures block == if pc in cache then cache[pc] else null
    {
      var h := hash(pc);
      ghost var chain := chains[h];
      BucketHead(h);
      block := table[h];
      ghost var i := 0;
      while block != null
        invariant 0 <= i <= |chain|
        invariant block == if i < |chain| then chain[i] else null
        invariant forall j :: 0 <= j < i ==> chain[j].pc != pc
        decreases |chain| - i
      {
        OnChain(h, i);
        if block.pc == pc {
          return;
        }
        block := block.hashNext;
        i := i + 1;
      }
    }

    // ---- new_block ----

    // The last block of a non-empty bucket.
    method LastOfBucket(h: Bucket) returns (block: Block)
      requires ChainsOk() && |chains| == FAST_TABLE_SIZE && chains[h] != []
      ensures block == chains[h][|chains[h]| - 1] && block in cache.Values
    {
      ghost var chain := chains[h];
      BucketHead(h);
      block := table[h];
      ghost var i := 0;
      OnChain(h, 0);
      while block.hashNext != null
        invariant 0 <= i < |chain| && block == chain[i] && block in cache.Values
        invariant block.hashNext == if i + 1 < |chain| then chain[i + 1] else null
        decreases |chain| - i
      {
        block := block.hashNext;
        i := i + 1;
        OnChain(h, i);
      }
    }

    // Puts b behind the last block of its bucket.
    method HangAtTail(b: Block, h: Bucket)
      requires ChainsOk() && |chains| == FAST_TABLE_SIZE && b !in cache.Values
      modifies table, cache.Values`hashNext
      ensures table[..] == if chains[h] == [] then old(table[..])[h := b] else old(table[..])
      ensures Nexts() == if chains[h] == [] then old(Nexts()) else old(Nexts())[chains[h][|chains[h]| - 1] := b]
    {
      hide IsTable;
      BucketHead(h);
      if table[h] == null {
        table[h] := b;
        assert Nexts() == old(Nexts());
      } else {
        var tail := LastOfBucket(h);
        tail.hashNext := b;
        assert Nexts() == old(Nexts())[tail := b];
      }
    }

    // Appends to the tail of the bucket, so every earlier block stays findable.
    method NewBlock(pc: Word) returns (b: Block)
      requires ChainsOk() && pc !in cache
      modifies this`chains, this`cache, table, cache.Values`hashNext
      ensures ChainsOk() && fresh(b)
      ensures cache == old(cache)[pc := b]
      ensures b.pc == pc && b.insn == ptr && b.GetFields() == Blank(ptr)
    {
      hide IsTable;
      BucketHead(hash(pc));
      b := new Block(pc, ptr);
      ghost var nexts := Nexts();
      var bucket := hash(pc);
      AppendToTable(table[..], chains, cache, nexts, hash, bucket, b);
      HangAtTail(b, bucket);
      nexts := Nexts();
      chains := chains[bucket := chains[bucket] + [b]];
      cache := cache[pc := b];
      NewValue(old(cache), pc, b);
      assert Nexts() == nexts[b := null];
    }

    // ---- translate and decode ----

    // decode: fills the slots from block.insn until an exit instruction or the
    // cap, and records the successors.  False when the host faults.
    method DecodeInto(block: Block, mem: Memory) returns (ok: bool)
      requires buffer.Length == SLOTS && block.insn <= SLOTS && block.GetFields() == Blank(block.insn)
      modifies buffer, block`count, block`jmp0, block`jmp1
      ensures var r := DecodeBlock(mem, block.pc);
        && (ok <==> r.Some? && block.insn + |r.value| <= SLOTS)
        && (ok ==> r.value != [])
        && (ok ==> buffer[block.insn..block.insn + |r.value|] == Insns(r.value))
        && (ok ==> block.GetFields() == Fields(block.insn, |r.value|, Next0(r.value), null, Next1(r.value), null))
      ensures buffer[..block.insn] == old(buffer[..block.insn])
    {
      hide DecodeFrom, DecodeInsn, InsnLen, Plus, Fetch;
      var pc, insn := block.pc, block.insn;
      ghost var done: seq<Fetched> := [];
      PrefixedNothing(DecodeBlock(mem, block.pc));
      while true
        invariant insn == block.insn + |done| && block.count == |done| < TRANS_MAX
        invariant insn <= SLOTS
        invariant block.jmp0 == 0 && block.jmp1 == 0
        invariant DecodeBlock(mem, block.pc) == Prefixed(done, DecodeFrom(mem, pc, TRANS_MAX - |done|))
        invariant buffer[block.insn..insn] == Insns(done)
        invariant buffer[..block.insn] == old(buffer[..block.insn])
        decreases TRANS_MAX - |done|
      {
        var op := Fetch(mem, pc);
        DecodeFromStep(mem, pc, TRANS_MAX - |done|, done);
        if op.None? || insn == SLOTS {
          return false;
        }
        var f := Fetched(pc, op.value);
        var t := f.Trans();
        buffer[insn] := t.insn;
        AppendInsn(done, f);
        RecordedByExits(f);
        assert buffer[block.insn..insn + 1] == Insns(done + [f]);
        if t.next0.Some? {
          block.jmp0 := t.next0.value;
        }
        if t.next1.Some? {
          block.jmp1 := t.next1.value;
        }
        block.count := block.count + 1;
        done := done + [f];
        if t.exit {
          return true;
        }
        if block.count >= TRANS_MAX {
          block.jmp0 := f.After();
          return true;
        }
        pc := f.After();
        insn := insn + 1;
      }
    }

    // decode changes the fields of its block only.
    method DecodeOne(block: Block, mem: Memory) returns (ok: bool)
      requires buffer.Length == SLOTS && block.insn <= SLOTS && block.GetFields() == Blank(block.insn)
      requires block.pc in cache && cache[block.pc] == block && forall pc :: pc in cache ==> cache[pc].pc == pc
      modifies buffer, block`count, block`jmp0, block`jmp1
      ensures var r := DecodeBlock(mem, block.pc);
        && (ok <==> r.Some? && block.insn + |r.value| <= SLOTS)
        && (ok ==> r.value != [])
        && (ok ==> buffer[block.insn..block.insn + |r.value|] == Insns(r.value))
        && (ok ==> block.GetFields() == Fields(block.insn, |r.value|, Next0(r.value), null, Next1(r.value), null))
      ensures buffer[..block.insn] == old(buffer[..block.insn])
      ensures FieldsOf() == old(FieldsOf())[block.pc := block.GetFields()]
    {
      hide DecodeBlock, Insns, Next0, Next1;
      ok := DecodeInto(block, mem);
    }

    // translate: decode, then advance the bump pointer.  before is the store
    // without the new block.
    method Translate(block: Block, mem: Memory, ghost before: Store) returns (ok: bool)
      requires StoreOk(before) && before.code.Keys == before.cache.Keys && block.pc !in before.cache
      requires GetStore() == before.(cache := cache, fields := FieldsOf())
      requires cache == before.cache[block.pc := block] && FieldsOf() == before.fields[block.pc := Blank(ptr)]
      requires block.insn == ptr && forall pc :: pc in cache ==> cache[pc].pc == pc
      modifies this`ptr, this`code, buffer, block`count, block`jmp0, block`jmp1
      ensures var r := DecodeBlock(mem, block.pc);
        && (ok <==> r.Some? && before.ptr + |r.value| <= SLOTS)
        && (ok ==> code == before.code[block.pc := r.value] && ptr == before.ptr + RoundedSlots(|r.value|))
      ensures ok ==> StoreOk(GetStore()) && Grew(before, GetStore())
    {
      hide DecodeBlock, StraightLine, Insns, Next0, Next1, StoreOk, Grew, RoundedSlots, FieldsOf;
      StoreBasics(before);
      BlockIsStraightLine(mem, block.pc);
      FieldsAt(block.pc);
      ok := DecodeOne(block, mem);
      Overwrite(before.fields, block.pc, Blank(ptr), block.GetFields());
      if ok {
        ghost var fs, f := DecodeBlock(mem, block.pc).value, block.GetFields();
        ptr := ptr + RoundedSlots(block.count);
        code := code[block.pc := fs];
        ghost var after := AddBlock(before, block.pc, block, f, fs, buffer[..]);
        assert GetStore() == after;
      }
    }

    // new_block, with what it means for the blocks' fields.
    method AddBlank(pc: Word) returns (b: Block)
      requires ChainsOk() && pc !in cache
      modifies this`chains, this`cache, table, cache.Values`hashNext
      ensures ChainsOk() && fresh(b) && b.pc == pc && b.insn == ptr
      ensures cache == old(cache)[pc := b] && forall p :: p in cache ==> cache[p].pc == p
      ensures FieldsOf() == old(FieldsOf())[pc := Blank(ptr)]
    {
      hide IsTable;
      b := NewBlock(pc);
      OwnPcs();
    }

    // new_block and translate, as cpu_exec calls them for an uncached address.
    method CreateBlock(pc: Word, mem: Memory) returns (block: Block, ok: bool)
      requires Valid() && pc !in cache
      modifies this, table, buffer, cache.Values`hashNext
      ensures ok <==> FindOrTranslate(pc, mem, old(code), old(ptr)).Found?
      ensures ok ==> Valid() && Grew(old(GetStore()), GetStore())
      ensures ok ==> fresh(block) && block.pc == pc && cache == old(cache)[pc := block]
      ensures ok ==> pc in code && FindOrTranslate(pc, mem, old(code), old(ptr)) == Found(code[pc], code, ptr)
    {
      hide DecodeBlock, IsTable, StoreOk, Grew, FindOrTranslate, RoundedSlots, FieldsOf, Blank;
      ghost var before := GetStore();
      NewTranslation(pc, mem, code, ptr);
      block := AddBlank(pc);
      ok := Translate(block, mem, before);
    }

    lemma ValidMeans()
      requires Valid()
      ensures ChainsOk() && code.Keys == cache.Keys
    {
    }

    // ---- patch_block ----

    // prev has just handed over to now.
    method PatchBlock(prev: Block, now: Block)
      requires Valid() && prev in cache.Values && now in cache.Values
      requires prev.pc in code && code[prev.pc] != []
      requires Quiet(code[prev.pc]) && CanLeaveAt(code[prev.pc], now.pc)
      modifies prev`blk0, prev`blk1
      ensures Valid() && Grew(old(GetStore()), GetStore())
      ensures prev.GetFields() == Patched(old(prev.GetFields()), now)
      ensures prev.jmp0 == now.pc ==> prev.blk0 == now
      ensures prev.jmp0 != now.pc && prev.jmp1 == now.pc ==> prev.blk1 == now
    {
      hide IsTable, StoreOk, Grew, FieldsOk, CanLeaveAt, Quiet;
      CachedBlock(prev);
      CachedBlock(now);
      ghost var fields := FieldsOf();
      PatchKeepsStore(GetStore(), prev.pc, now);
      if prev.jmp0 == now.pc {
        prev.blk0 := now;
      } else if prev.jmp1 == now.pc {
        prev.blk1 := now;
      }
      OwnPcs();
      assert FieldsOf() == fields[prev.pc := prev.GetFields()];
    }

    lemma NothingYet()
      requires Valid()
      ensures Grew(GetStore(), GetStore())
    {
      hide Grew;
      StoreBasics(GetStore());
      GrewReflexive(GetStore());
    }

    lemma FieldsAt(pc: Word)
      requires pc in cache
      ensures pc in FieldsOf() && FieldsOf()[pc] == cache[pc].GetFields()
    {
    }

    lemma OwnPcs()
      requires ChainsOk()
      ensures forall pc :: pc in cache ==> cache[pc].pc == pc
    {
    }

    // ---- block_exec ----

    // The inner loop: the block's handlers back to back, each followed by the
    // assertion on x0.
    method RunBlock(env: Cpu.State, b: Block) returns (halt: Option<Halt>)
      requires Valid() && env.Valid() && b in cache.Values && b.pc in code
      modifies env, env.gpr
      ensures match RunInsns(Insns(code[b.pc]), old(env.Snapshot()))
        case Next(m) => halt == None && env.Snapshot() == m
        case Halted(why) => halt == Some(why)
    {
      hide Exec, Linked, StoreOk, IsTable, StraightLine, RoundedSlots, Insns;
      ghost var insns, start := Insns(code[b.pc]), env.Snapshot();
      CachedBlock(b);
      var i, n := 0, b.count;
      InsnsLength(code[b.pc]);
      assert insns[0..] == insns;
      while i < n
        invariant 0 <= i <= n == |insns| && env.Valid()
        invariant b.insn + n <= buffer.Length && buffer[b.insn..b.insn + n] == insns
        invariant RunInsns(insns, start) == RunInsns(insns[i..], env.Snapshot())
      {
        assert insns[i] == buffer[b.insn + i] && insns[i..][1..] == insns[i + 1..];
        halt := env.Handle(buffer[b.insn + i]);
        if halt.Some? {
          return;
        }
        if env.gpr[0] != 0 {
          return Some(AssertFailed);
        }
        i := i + 1;
      }
      halt := None;
    }

    // b has been run to the end: without exception, it can be linked to the
    // block at the current pc.
    ghost predicate JustLeft(b: Block, m: Machine)
      reads this
    {
      && b.pc in code && code[b.pc] != []
      && (m.exception == NoException ==> Quiet(code[b.pc]) && CanLeaveAt(code[b.pc], m.pc))
    }

    // The block that block_exec goes on with.
    function Successor(b: Block, pc: Word): Block?
      reads b
    {
      if pc == b.jmp0 then b.blk0 else b.blk1
    }

    // A link, when there is one, leads to the block find_block would return,
    // and no exception is pending - although block_exec tests neither.
    lemma LinkIsSound(b: Block, m: Machine)
      requires Valid() && b in cache.Values && JustLeft(b, m)
      requires Successor(b, m.pc) != null
      requires m.exception == NoException <==> Quiet(code[b.pc])
      ensures m.exception == NoException
      ensures m.pc in cache && Successor(b, m.pc) == cache[m.pc] && cache[m.pc].pc == m.pc
    {
      hide IsTable, StoreOk, CanLeaveAt, Quiet, StraightLine, Slotted, Next0, Next1, SecondSlotUsable;
      CachedBlock(b);
      OwnPcs();
      assert Linked(b.GetFields(), code[b.pc], cache);
      if m.pc != b.jmp0 {
        SecondSlotIsTarget(code[b.pc], m.pc);
      }
    }

    lemma EvenFields(env: Cpu.State, b: Block)
      requires Valid() && env.Valid() && b in cache.Values && EvenState(Represented(env))
      ensures b.pc % 2 == 0 && b.jmp0 % 2 == 0 && b.jmp1 % 2 == 0
    {
      hide IsTable, StoreOk, StraightLine, Slotted, Next0, Next1, EvenAddresses;
      CachedBlock(b);
      assert EvenTranslation(code[b.pc]);
      assert Linked(b.GetFields(), code[b.pc], cache);
    }

    // What is known of the machine after the block at its pc has run.
    lemma AfterBlock(b: Block, m: Machine)
      requires Valid() && b in cache.Values && b.pc == m.pc && m.exception == NoException
      ensures b.pc in code
      ensures var r := RunInsns(Insns(code[b.pc]), m);
        r.Next? ==> JustLeft(b, r.m) && (r.m.exception == NoException <==> Quiet(code[b.pc]))
    {
      hide IsTable, StoreOk, StraightLine, Slotted, Linked, CanLeaveAt, Quiet, RunInsns, Insns;
      CachedBlock(b);
      if RunInsns(Insns(code[b.pc]), m).Next? {
        BlockOutcome(code[b.pc], m);
      }
    }

    // One block: the cache machine takes a step.
    method StepBlock(ghost sys: Kernel, env: Cpu.State, b: Block) returns (halt: Option<Halt>)
      requires Valid() && env.Valid() && b in cache.Values
      requires b.pc == env.pc && env.exception == NoException
      modifies env, env.gpr
      ensures CacheStep(sys, old(Represented(env))) == if halt.Some? then Dead(halt.value) else Represented(env)
      ensures halt.None? ==> JustLeft(b, env.Snapshot())
      ensures halt.None? ==> (env.exception == NoException <==> Quiet(code[b.pc]))
    {
      hide CacheStep, IsTable, StoreOk, CanLeaveAt, Quiet, RunInsns, Insns;
      CachedBlock(b);
      CachedStep(sys, env.Snapshot(), code, ptr);
      AfterBlock(b, env.Snapshot());
      halt := RunBlock(env, b);
    }

    // Runs b and then follows links, for at most fuel blocks.
    method BlockExec(ghost sys: Kernel, env: Cpu.State, start: Block, fuel: nat)
      returns (last: Block, left: nat, halt: Option<Halt>)
      requires Valid() && env.Valid() && start in cache.Values && fuel > 0
      requires start.pc == env.pc && env.exception == NoException
      modifies env, env.gpr
      ensures left < fuel
      ensures CacheRun(sys, old(Represented(env)), fuel - left) ==
        if halt.Some? then Dead(halt.value) else Represented(env)
      ensures halt.None? ==> last in cache.Values && JustLeft(last, env.Snapshot())
    {
      hide CacheRun, CacheStep, IsTable, StoreOk, Quiet, JustLeft;
      ghost var s0 := Represented(env);
      CacheRunZero(sys, s0);
      last, left, halt := start, fuel, None;
      var b: Block? := start;
      while b != null && left > 0
        invariant 0 <= left <= fuel && halt.None?
        invariant b == start || left < fuel
        invariant CacheRun(sys, s0, fuel - left) == Represented(env)
        invariant b != null ==> b in cache.Values && b.pc == env.pc && env.exception == NoException
        invariant left < fuel ==> last in cache.Values && JustLeft(last, env.Snapshot())
        decreases left
      {
        CacheRunStep(sys, s0, fuel - left + 1);
        halt := StepBlock(sys, env, b);
        left := left - 1;
        if halt.Some? {
          return;
        }
        last := b;
        b := Successor(last, env.pc);
        if b != null {
          LinkIsSound(last, env.Snapshot());
        }
      }
    }

    // ---- cpu_exec ----

    // The block for pc, from the table or newly translated.
    method Obtain(pc: Word, mem: Memory, ghost first: Store) returns (block: Block, ok: bool)
      requires Valid() && Grew(first, GetStore())
      modifies this, table, buffer, cache.Values`hashNext
      ensures ok <==> FindOrTranslate(pc, mem, old(code), old(ptr)).Found?
      ensures ok ==> pc in code && FindOrTranslate(pc, mem, old(code), old(ptr)) == Found(code[pc], code, ptr)
      ensures ok ==> Valid() && Grew(first, GetStore()) && block.pc == pc && block in cache.Values
      ensures ok ==> fresh(cache.Values - old(cache.Values)) && old(cache.Values) <= cache.Values
      ensures ok ==> forall p :: p in old(code) ==> p in code && code[p] == old(code)[p]
    {
      hide FindOrTranslate, Valid, GetStore, ChainsOk, Grew;
      ghost var store := GetStore();
      ValidMeans();
      AlreadyCached(pc, mem, code, ptr);
      var found := FindBlock(pc);
      if found != null {
        OwnPcs();
        return found, true;
      }
      block, ok := CreateBlock(pc, mem);
      if ok {
        GrewTransitive(first, store, GetStore());
        NewValue(old(cache), pc, block);
      }
    }

    // Obtains the block at env.pc and links prev to it.  The cache machine's
    // next step is not affected.
    method Prepare(ghost sys: Kernel, env: Cpu.State, prev: Block?, ghost first: Store) returns (block: Block, ok: bool)
      requires Valid() && env.Valid() && env.exception == NoException && Grew(first, GetStore())
      requires prev != null ==> prev in cache.Values && JustLeft(prev, env.Snapshot())
      modifies this, table, buffer, cache.Values
      ensures !ok ==> CacheStep(sys, old(Represented(env))) == Dead(HostFault)
      ensures ok ==> CacheStep(sys, old(Represented(env))) == CacheStep(sys, Represented(env))
      ensures ok ==> Valid() && Grew(first, GetStore()) && block.pc == env.pc && block in cache.Values
      ensures ok ==> fresh(cache.Values - old(cache.Values))
      ensures ok && prev != null && prev.jmp0 == env.pc ==> prev.blk0 == block
      ensures ok && prev != null && prev.jmp0 != env.pc && prev.jmp1 == env.pc ==> prev.blk1 == block
    {
      hide CacheStep, FindOrTranslate, Valid, Grew, Quiet, CanLeaveAt, DecodeBlock;
      ghost var here := Represented(env);
      block, ok := Obtain(env.pc, env.mem, first);
      if !ok {
        LostStep(sys, here);
        return;
      }
      FoundStep(sys, here, code, ptr);
      if prev != null {
        ghost var store := GetStore();
        PatchBlock(prev, block);
        GrewTransitive(first, store, GetStore());
      }
    }

    // One turn of the loop of cpu_exec.
    method Turn(ghost sys: Kernel, env: Cpu.State, prev: Block?, fuel: nat, ghost first: Store)
      returns (last: Block?, left: nat, halt: Option<Halt>)
      requires Valid() && env.Valid() && env.exception == NoException && fuel > 0 && Grew(first, GetStore())
      requires prev != null ==> prev in cache.Values && JustLeft(prev, env.Snapshot())
      modifies this, table, buffer, cache.Values, env, env.gpr
      ensures left < fuel
      ensures CacheRun(sys, old(Represented(env)), fuel - left) ==
        if halt.Some? then Dead(halt.value) else Represented(env)
      ensures halt.None? ==> Valid() && Grew(first, GetStore()) && fresh(cache.Values - old(cache.Values))
      ensures halt.None? && last != null ==> last in cache.Values && JustLeft(last, env.Snapshot())
    {
      hide CacheRun, CacheStep, Valid, GetStore, Grew, JustLeft;
      ghost var here := Represented(env);
      CacheRunZero(sys, here);
      var block, ok := Prepare(sys, env, prev, first);
      if !ok {
        CacheRunStep(sys, here, 1);
        return null, fuel - 1, Some(HostFault);
      }
      ghost var there := Represented(env);
      last, left, halt := BlockExec(sys, env, block, fuel);
      RunOn(sys, here, 0, there, fuel - left);
    }

    // Runs until an exception is pending or fuel blocks have run.
    method CpuExec(ghost sys: Kernel, env: Cpu.State, fuel: nat) returns (left: nat, halt: Option<Halt>)
      requires Valid() && env.Valid()
      modifies this, table, buffer, cache.Values, env, env.gpr
      ensures left <= fuel && (fuel > 0 && old(env.exception) == NoException ==> left < fuel)
      ensures CacheRun(sys, old(Represented(env)), fuel - left) ==
        if halt.Some? then Dead(halt.value) else Represented(env)
      ensures halt.None? ==> left == 0 || env.exception != NoException
      ensures halt.None? ==> Valid() && Grew(old(GetStore()), GetStore())
      ensures halt.None? ==> fresh(cache.Values - old(cache.Values))
    {
      hide CacheRun, Valid, GetStore, Grew, JustLeft;
      ghost var s0, first := Represented(env), GetStore();
      CacheRunZero(sys, s0);
      NothingYet();
      left, halt := fuel, None;
      var prev: Block? := null;
      while env.exception == NoException && left > 0
        invariant left <= fuel && halt.None?
        invariant Valid() && Grew(first, GetStore())
        invariant fresh(cache.Values - old(cache.Values))
        invariant left < fuel || env.exception == old(env.exception)
        invariant CacheRun(sys, s0, fuel - left) == Represented(env)
        invariant prev != null ==> prev in cache.Values && JustLeft(prev, env.Snapshot())
        decreases left
      {
        ghost var here, before := Represented(env), left;
        prev, left, halt := Turn(sys, env, prev, left, first);
        CacheRunSplit(sys, s0, fuel - before, before - left);
        if halt.Some? {
          return;
        }
      }
    }

    // ---- cpu_loop ----

    // The system call part of the switch in cpu_loop.
    method ServeEcall(sys: Kernel, env: Cpu.State) returns (halt: Option<Halt>)
      requires env.Valid() && env.exception == UserEcall
      modifies env, env.gpr
      ensures match Resume(sys, old(env.Snapshot()))
        case Halted(why) => halt == Some(why)
        case Next(m) => halt == None && env.Snapshot() == m
      ensures match sys(old(env.calls), old(env.gpr[..]), old(env.mem))
        case SysExit => halt == Some(GuestExit)
        case SysReturn(value, mem) =>
          && halt == None && env.gpr[10] == value && env.mem == mem
          && (forall r: Reg :: r != 10 ==> env.gpr[r] == old(env.gpr[r]))
          && env.pc == (old(env.pc) + 4) % 0x1_0000_0000_0000_0000
          && env.csr == old(env.csr) && env.exception == NoException && env.calls == old(env.calls) + 1
    {
      match sys(env.calls, env.gpr[..], env.mem) {
        case SysExit =>
          halt := Some(GuestExit);
        case SysReturn(value, mem) =>
          env.mem := mem;
          env.calls := env.calls + 1;
          env.pc := Plus(env.pc, 4);
          env.gpr[A0] := value;
          env.exception := NoException;
          halt := None;
          assert env.gpr[..] == old(env.gpr[..])[A0 := value];
      }
    }

    // The endless loop, for fuel blocks in all.
    method Rounds(sys: Kernel, env: Cpu.State, fuel: nat) returns (halt: Option<Halt>)
      requires Valid() && env.Valid() && env.exception == NoException
      modifies this, table, buffer, cache.Values, env, env.gpr
      ensures CacheRun(sys, old(Represented(env)), fuel) == if halt.Some? then Dead(halt.value) else Represented(env)
      ensures halt.None? ==> Valid() && Grew(old(GetStore()), GetStore())
    {
      hide CacheRun, CacheStep, Valid, GetStore, Grew, Resume;
      ghost var s0, first := Represented(env), GetStore();
      CacheRunZero(sys, s0);
      NothingYet();
      var left := fuel;
      halt := None;
      while left > 0
        invariant 0 <= left <= fuel && (left == 0 ==> fuel == 0)
        invariant halt.None? && env.exception == NoException
        invariant Valid() && Grew(first, GetStore()) && fresh(cache.Values - old(cache.Values))
        invariant CacheStep(sys, CacheRun(sys, s0, fuel - left)) == CacheStep(sys, Represented(env))
        invariant left == fuel ==> s0 == Represented(env)
        decreases left
      {
        ghost var here, before, store := Represented(env), left, GetStore();
        left, halt := CpuExec(sys, env, left);
        RunOn(sys, s0, fuel - before, here, before - left);
        if halt.Some? {
          DeadStays(sys, s0, fuel - left, fuel);
          return;
        }
        GrewTransitive(first, store, GetStore());
        if left == 0 {
          return;
        }
        halt := ServePending(sys, env);
        if halt.Some? {
          CacheRunStep(sys, s0, fuel - left + 1);
          DeadStays(sys, s0, fuel - left + 1, fuel);
          return;
        }
      }
    }

    // cpu_loop, stopped after fuel blocks: the engine does what the cache machine
    // does, whatever the program, the kernel and the code in memory. So x0 is
    // zero as long as it runs, and the assertion on it fails exactly when a block
    // comes to write something else there.
    method CpuLoop(sys: Kernel, env: Cpu.State, fuel: nat) returns (halt: Option<Halt>)
      requires Valid() && env.Valid()
      modifies this, table, buffer, cache.Values, env, env.gpr
      ensures CacheRun(sys, Live(old(env.Snapshot()).(exception := NoException), old(code), old(ptr)), fuel) ==
        if halt.Some? then Dead(halt.value) else Represented(env)
      ensures halt.None? ==> Valid() && Grew(old(GetStore()), GetStore())
      ensures old(env.gpr[0]) == 0 && halt.None? ==> env.gpr[0] == 0
      ensures old(env.gpr[0]) == 0 ==>
        (halt == Some(AssertFailed) <==>
         Aborted(sys, Live(old(env.Snapshot()).(exception := NoException), old(code), old(ptr)), fuel))
    {
      hide CacheRun, Valid, GetStore, Grew, Aborted;
      env.exception := NoException;
      ghost var s0 := Represented(env);
      NothingYet();
      if env.gpr[0] == 0 {
        X0StaysZero(sys, s0, fuel);
      }
      halt := Rounds(sys, env, fuel);
    }

    // The switch on the exception number.
    method ServePending(sys: Kernel, env: Cpu.State) returns (halt: Option<Halt>)
      requires env.Valid() && env.exception != NoException
      modifies env, env.gpr
      ensures halt.Some? ==> CacheStep(sys, old(Represented(env))) == Dead(halt.value)
      ensures halt.None? ==> env.exception == NoException
      ensures halt.None? ==> CacheStep(sys, old(Represented(env))) == CacheStep(sys, Represented(env))
    {
      hide BlockStep;
      if env.exception == IllegalInst {
        return Some(IllegalExit);
      }
      halt := ServeEcall(sys, env);
    }
  }

  // ---- The emulator against the reference ----

  // A fresh engine on a fresh machine runs any number of blocks, through cache,
  // links and system calls, with the result of the uncached interpreter.
  method Emulate(sys: Kernel, entry: Word, sp: Word, mem: Memory, fuel: nat)
    returns (env: Cpu.State, halt: Option<Halt>, ghost steps: nat)
    requires var m0 := Start(entry, sp, mem);
      GoodRun(sys, Next(m0), fuel) && RoomThroughout(sys, Live(m0, map[], 0), fuel)
    ensures steps == Steps(sys, Next(Start(entry, sp, mem)), fuel) >= fuel
    ensures env.Valid()
    ensures RefRun(sys, Next(Start(entry, sp, mem)), steps) ==
      if halt.Some? then Halted(halt.value) else Next(env.Snapshot())
  {
    hide CacheRun, RefRun, Steps, GoodRun, RoomThroughout;
    ghost var m0 := Start(entry, sp, mem);
    env := new Cpu.State(entry, sp, mem);
    var engine := new Engine();
    halt := engine.CpuLoop(sys, env, fuel);
    steps := Steps(sys, Next(m0), fuel);
    CacheRefinesReference(sys, m0, fuel);
  }

  // Any program at all, from an even entry point: every address the engine
  // stores or reaches is even, and x0 is zero.
  method RunProgram(sys: Kernel, entry: Word, sp: Word, mem: Memory, fuel: nat)
    returns (env: Cpu.State, engine: Engine, halt: Option<Halt>)
    requires entry % 2 == 0
    ensures env.Valid() && (halt.None? ==> engine.Valid())
    ensures halt.None? ==> env.gpr[0] == 0 && env.pc % 2 == 0
    ensures halt.None? ==>
      forall b: Block :: b in engine.cache.Values ==> b.pc % 2 == 0 && b.jmp0 % 2 == 0 && b.jmp1 % 2 == 0
    ensures halt == Some(AssertFailed) <==> Aborted(sys, Live(Start(entry, sp, mem), map[], 0), fuel)
  {
    hide CacheRun, Aborted, Engine.Valid, EvenState;
    env := new Cpu.State(entry, sp, mem);
    engine := new Engine();
    halt := engine.CpuLoop(sys, env, fuel);
    PcStaysEven(sys, Start(entry, sp, mem), fuel);
    if halt.None? {
      EvenPc(engine.Represented(env));
      forall b: Block | b in engine.cache.Values ensures b.pc % 2 == 0 && b.jmp0 % 2 == 0 && b.jmp1 % 2 == 0 {
        engine.EvenFields(env, b);
      }
    }
  }

  lemma EvenPc(s: CacheState)
    requires EvenState(s) && s.Live?
    ensures s.m.pc % 2 == 0
  {
  }

  // The machine target_cpu_copy_regs leaves.
  function Start(entry: Word, sp: Word, mem: Memory): Machine {
    Machine(seq(32, i => 0)[2 := sp], entry, map[], NoException, mem, 0)
  }

  lemma AlreadyCached(pc: Word, mem: Memory, code: Cache, used: nat)
    ensures pc in code ==> FindOrTranslate(pc, mem, code, used) == Found(code[pc], code, used)
    ensures pc !in code && FindOrTranslate(pc, mem, code, used).Found? ==>
      var r := FindOrTranslate(pc, mem, code, used);
      forall p :: p in code ==> p in r.code && r.code[p] == code[p]
  {
    hide DecodeBlock;
  }

  lemma LostStep(sys: Kernel, s: CacheState)
    requires s.Live? && s.m.exception == NoException
    requires FindOrTranslate(s.m.pc, s.m.mem, s.code, s.used).Lost?
    ensures CacheStep(sys, s) == Dead(HostFault)
  {
    hide FindOrTranslate, RunInsns;
  }

  // Translating first and then running is one step of the cache machine.
  lemma FoundStep(sys: Kernel, s: CacheState, code: Cache, used: nat)
    requires s.Live? && s.m.exception == NoException
    requires s.m.pc in code && FindOrTranslate(s.m.pc, s.m.mem, s.code, s.used) == Found(code[s.m.pc], code, used)
    ensures CacheStep(sys, s) == CacheStep(sys, Live(s.m, code, used))
  {
    hide DecodeBlock, RunInsns, Insns;
  }

  // A state with the same next step carries the run on.
  lemma {:induction false} RunOn(sys: Kernel, s0: CacheState, k: nat, t: CacheState, j: nat)
    requires j > 0 && CacheStep(sys, CacheRun(sys, s0, k)) == CacheStep(sys, t)
    ensures CacheRun(sys, s0, k + j) == CacheRun(sys, t, j)
  {
    hide CacheStep;
    CacheRunZero(sys, t);
    if j > 1 {
      RunOn(sys, s0, k, t, j - 1);
    }
  }

  lemma {:induction false} CacheRunSplit(sys: Kernel, s: CacheState, k: nat, j: nat)
    ensures CacheRun(sys, s, k + j) == CacheRun(sys, CacheRun(sys, s, k), j)
  {
    hide CacheStep;
    if j > 0 {
      CacheRunSplit(sys, s, k, j - 1);
    }
  }

  lemma CacheRunZero(sys: Kernel, s: CacheState)
    ensures CacheRun(sys, s, 0) == s
  {
  }

  lemma CacheRunStep(sys: Kernel, s: CacheState, n: nat)
    requires n > 0
    ensures CacheRun(sys, s, n) == CacheStep(sys, CacheRun(sys, s, n - 1))
  {
  }

  // A cached block is run as it is.
  lemma CachedStep(sys: Kernel, m: Machine, code: Cache, used: nat)
    requires m.exception == NoException && m.pc in code
    ensures CacheStep(sys, Live(m, code, used)) ==
      match RunInsns(Insns(code[m.pc]), m)
      case Halted(why) => Dead(why)
      case Next(m1) => Live(m1, code, used)
  {
    hide RunInsns, Insns, DecodeFrom;
  }

  lemma BlockIsStraightLine(mem: Memory, pc: Word)
    ensures DecodeBlock(mem, pc).Some? ==> StraightLine(DecodeBlock(mem, pc).value, pc, TRANS_MAX)
  {
    hide DecodeFrom, StraightLine;
    DecodedIsStraightLine(mem, pc, TRANS_MAX);
  }

  lemma Overwrite(m: map<Word, Fields>, pc: Word, f: Fields, g: Fields)
    ensures m[pc := f][pc := g] == m[pc := g]
  {
  }

  lemma NewTranslation(pc: Word, mem: Memory, code: Cache, used: nat)
    requires pc !in code
    ensures var r := DecodeBlock(mem, pc);
      FindOrTranslate(pc, mem, code, used) ==
        if r.Some? && used + |r.value| <= SLOTS then Found(r.value, code[pc := r.value], used + RoundedSlots(|r.value|))
        else Lost
  {
    hide DecodeBlock, RoundedSlots;
  }

  lemma StoreBasics(s: Store)
    requires StoreOk(s)
    ensures s.ptr <= |s.slots| == SLOTS
  {
  }

  lemma InsnsLength(fs: seq<Fetched>)
    ensures |Insns(fs)| == |fs|
  {
    hide DecodeInsn;
  }

  function Prefixed(done: seq<Fetched>, rest: Option<seq<Fetched>>): Option<seq<Fetched>> {
    match rest
    case None => None
    case Some(fs) => Some(done + fs)
  }

  lemma PrefixedNothing(r: Option<seq<Fetched>>)
    ensures Prefixed([], r) == r
  {
    if r.Some? {
      assert [] + r.value == r.value;
    }
  }

  // One unfolding of the straight-line decoding, after the instructions done.
  lemma DecodeFromStep(mem: Memory, pc: Word, room: nat, done: seq<Fetched>)
    requires room > 0
    ensures Fetch(mem, pc).None? ==> Prefixed(done, DecodeFrom(mem, pc, room)).None?
    ensures var r := Prefixed(done, DecodeFrom(mem, pc, room));
      r.Some? ==> |r.value| > |done|
    ensures Fetch(mem, pc).Some? ==>
      var f := Fetched(pc, Fetch(mem, pc).value);
      Prefixed(done, DecodeFrom(mem, pc, room)) ==
        if f.Trans().exit || room == 1 then Some(done + [f])
        else Prefixed(done + [f], DecodeFrom(mem, f.After(), room - 1))
  {
    hide DecodeInsn, InsnLen, Plus, Fetch;
    if Fetch(mem, pc).Some? {
      var f := Fetched(pc, Fetch(mem, pc).value);
      if !f.Trans().exit && room > 1 && DecodeFrom(mem, f.After(), room - 1).Some? {
        var rest := DecodeFrom(mem, f.After(), room - 1).value;
        assert done + ([f] + rest) == (done + [f]) + rest;
      }
    }
  }

  // Only a block-ending instruction records successors.
  lemma RecordedByExits(f: Fetched)
    ensures !f.Trans().exit ==> f.Trans().next0.None? && f.Trans().next1.None?
  {
    hide DecodeInsn;
    DecodeSound(f.addr, f.op);
  }

  lemma AppendInsn(done: seq<Fetched>, f: Fetched)
    ensures Insns(done + [f]) == Insns(done) + [f.Insn()]
  {
    hide DecodeInsn;
  }
}
