// trans_block_t and the invariants of the engine's data structures, stated on
// values: the hash table as a list of chains, and the blocks' fields together
// with the instruction slots they own.
module BlockStore {
  import opened Bits
  import opened Words
  import opened Decode
  import opened Machine
  import opened Blocks
  import opened CacheMachine

  const FAST_TABLE_SIZE := 4096
  type Bucket = h: int | 0 <= h < FAST_TABLE_SIZE

  // fibhash
  function FibHash(pc: Word): Bucket {
    Pow2Values();
    XorBound(pc, Shr(pc, 52), 64);
    (11400714819323198485 * Xor(pc, Shr(pc, 52)) % TWO64) / 0x10_0000_0000_0000
  }

  // trans_block_t; insn is the index of the first slot in the buffer.
  class Block {
    const pc: Word
    const insn: nat
    var count: nat
    var jmp0: Word
    var blk0: Block?
    var jmp1: Word
    var blk1: Block?
    var hashNext: Block?

    constructor (pc: Word, insn: nat)
      ensures this.pc == pc && this.insn == insn
      ensures hashNext == null && GetFields() == Blank(insn)
    {
      this.pc := pc;
      this.insn := insn;
      count := 0;
      jmp0, blk0 := 0, null;
      jmp1, blk1 := 0, null;
      hashNext := null;
    }

    ghost function GetFields(): Fields
      reads this`count, this`jmp0, this`blk0, this`jmp1, this`blk1
    {
      Fields(insn, count, jmp0, blk0, jmp1, blk1)
    }
  }

  // The fields of a block other than pc and hashNext.
  datatype Fields = Fields(insn: nat, count: nat, jmp0: Word, blk0: Block?, jmp1: Word, blk1: Block?)

  function Blank(insn: nat): Fields {
    Fields(insn, 0, 0, null, 0, null)
  }

  type BlockMap = map<Word, Block>

  // ---- The hash table ----

  ghost predicate Member(b: Block, h: int, cache: BlockMap, hash: Word -> Bucket) {
    b.pc in cache && cache[b.pc] == b && hash(b.pc) == h
  }

  // The bucket is an acyclic list, from head through hashNext, of cached blocks
  // that hash to it.
  ghost predicate IsBucket(chain: seq<Block>, h: int, head: Block?, cache: BlockMap,
                           nexts: map<Block, Block?>, hash: Word -> Bucket)
  {
    && head == (if chain == [] then null else chain[0])
    && (forall i :: 0 <= i < |chain| ==> Member(chain[i], h, cache, hash))
    && (forall i :: 0 <= i < |chain| ==>
          chain[i] in nexts && nexts[chain[i]] == if i + 1 < |chain| then chain[i + 1] else null)
    && (forall i, j :: 0 <= i < j < |chain| ==> chain[i] != chain[j])
  }

  // The table as a whole holds exactly one block for each cached address.
  ghost predicate IsTable(heads: seq<Block?>, chains: seq<seq<Block>>, cache: BlockMap,
                          nexts: map<Block, Block?>, hash: Word -> Bucket)
  {
    && |heads| == |chains| == FAST_TABLE_SIZE
    && (forall pc :: pc in cache ==> cache[pc].pc == pc && cache[pc] in chains[hash(pc)])
    && (forall h :: 0 <= h < FAST_TABLE_SIZE ==> IsBucket(chains[h], h, heads[h], cache, nexts, hash))
  }

  // The bucket that receives b at its tail.
  lemma AppendToBucket(chain: seq<Block>, h: Bucket, head: Block?, cache: BlockMap,
                       nexts: map<Block, Block?>, hash: Word -> Bucket, b: Block)
    requires IsBucket(chain, h, head, cache, nexts, hash)
    requires b.pc !in cache && hash(b.pc) == h
    ensures var linked := if chain == [] then nexts else nexts[chain[|chain| - 1] := b];
      IsBucket(chain + [b], h, if chain == [] then b else head, cache[b.pc := b], linked[b := null], hash)
  {
    assert forall i :: 0 <= i < |chain| ==> Member(chain[i], h, cache, hash) && chain[i] != b;
  }

  // Every other bucket keeps its list: none of its blocks is touched.
  lemma OtherBucket(chain: seq<Block>, h: Bucket, head: Block?, cache: BlockMap,
                    nexts: map<Block, Block?>, hash: Word -> Bucket, touched: Block, b: Block)
    requires IsBucket(chain, h, head, cache, nexts, hash)
    requires b.pc !in cache && hash(b.pc) != h && hash(touched.pc) != h
    ensures IsBucket(chain, h, head, cache[b.pc := b], nexts[touched := b][b := null], hash)
    ensures IsBucket(chain, h, head, cache[b.pc := b], nexts[b := null], hash)
  {
    assert forall i :: 0 <= i < |chain| ==> Member(chain[i], h, cache, hash) && chain[i] != b && chain[i] != touched;
  }

  // Appending to the tail of one bucket keeps the whole table.
  lemma AppendToTable(heads: seq<Block?>, chains: seq<seq<Block>>, cache: BlockMap,
                      nexts: map<Block, Block?>, hash: Word -> Bucket, h: Bucket, b: Block)
    requires IsTable(heads, chains, cache, nexts, hash) && b.pc !in cache && hash(b.pc) == h
    ensures var chain := chains[h];
      var linked := if chain == [] then nexts else nexts[chain[|chain| - 1] := b];
      IsTable(if chain == [] then heads[h := b] else heads, chains[h := chain + [b]], cache[b.pc := b],
              linked[b := null], hash)
  {
    hide IsBucket;
    var chain := chains[h];
    BucketMembers(chain, h, heads[h], cache, nexts, hash);
    AppendToBucket(chain, h, heads[h], cache, nexts, hash, b);
    forall g | 0 <= g < FAST_TABLE_SIZE && g != h
      ensures IsBucket(chains[g], g, heads[g], cache[b.pc := b], nexts[b := null], hash)
      ensures chain != [] ==>
        IsBucket(chains[g], g, heads[g], cache[b.pc := b], nexts[chain[|chain| - 1] := b][b := null], hash)
    {
      OtherBucket(chains[g], g, heads[g], cache, nexts, hash, if chain == [] then b else chain[|chain| - 1], b);
    }
  }

  lemma BucketMembers(chain: seq<Block>, h: Bucket, head: Block?, cache: BlockMap,
                      nexts: map<Block, Block?>, hash: Word -> Bucket)
    requires IsBucket(chain, h, head, cache, nexts, hash)
    ensures forall b: Block :: b in chain ==> hash(b.pc) == h
  {
    assert forall i :: 0 <= i < |chain| ==> Member(chain[i], h, cache, hash);
  }

  lemma NewValue(m: BlockMap, pc: Word, b: Block)
    requires pc !in m
    ensures m[pc := b].Values == m.Values + {b}
  {
    var n := m[pc := b];
    forall x | x in m.Values + {b} ensures x in n.Values {
      if x == b {
        assert n[pc] == b;
      } else {
        var p :| p in m && m[p] == x;
        assert n[p] == x;
      }
    }
  }

  // ---- Blocks, links and slots ----

  // A block's instructions fill its slots, below the bump pointer and on a
  // 64-byte boundary.
  ghost predicate Slotted(f: Fields, fs: seq<Fetched>, slots: seq<Insn>, ptr: nat) {
    && f.count == |fs|
    && f.insn % 2 == 0
    && f.insn + RoundedSlots(f.count) <= ptr <= |slots|
    && slots[f.insn..f.insn + f.count] == Insns(fs)
  }

  // A link leads to the one cached block for the recorded successor, and only
  // blocks that can hand over to it have one.
  ghost predicate Linked(f: Fields, fs: seq<Fetched>, cache: BlockMap)
    requires fs != []
  {
    && f.jmp0 == Next0(fs)
    && f.jmp1 == Next1(fs)
    && (f.blk0 != null ==> f.jmp0 in cache && cache[f.jmp0] == f.blk0 && Quiet(fs))
    && (f.blk1 != null ==> f.jmp1 in cache && cache[f.jmp1] == f.blk1 && Quiet(fs) && SecondSlotUsable(fs))
  }

  ghost predicate FieldsOk(pc: Word, f: Fields, fs: seq<Fetched>, slots: seq<Insn>, ptr: nat, cache: BlockMap) {
    && fs != []
    && StraightLine(fs, pc, TRANS_MAX)
    && Slotted(f, fs, slots, ptr)
    && Linked(f, fs, cache)
  }

  ghost predicate Apart(a: Fields, b: Fields) {
    a.insn + RoundedSlots(a.count) <= b.insn || b.insn + RoundedSlots(b.count) <= a.insn
  }

  // Everything about the blocks but the hash chains.
  datatype Store = Store(cache: BlockMap, code: Cache, fields: map<Word, Fields>, slots: seq<Insn>, ptr: nat)

  // All translated blocks are well formed and own disjoint slots.
  ghost predicate StoreOk(s: Store) {
    && |s.slots| == SLOTS
    && s.ptr % 2 == 0 && s.ptr <= SLOTS
    && s.code.Keys <= s.cache.Keys == s.fields.Keys
    && (forall pc :: pc in s.code ==> FieldsOk(pc, s.fields[pc], s.code[pc], s.slots, s.ptr, s.cache))
    && (forall p, q :: p in s.code && q in s.code && p != q ==> Apart(s.fields[p], s.fields[q]))
  }

  // What nothing undoes: blocks stay cached with the same translation and the
  // same instructions, and a link once set is never redirected.
  ghost predicate Grew(s: Store, t: Store) {
    && s.ptr <= t.ptr <= |s.slots| == |t.slots|
    && s.slots[..s.ptr] == t.slots[..s.ptr]
    && (forall pc :: pc in s.cache ==> pc in t.cache && t.cache[pc] == s.cache[pc])
    && (forall pc :: pc in s.code ==> pc in t.code && t.code[pc] == s.code[pc])
    && (forall pc :: pc in s.fields ==> pc in t.fields && LinksKept(s.fields[pc], t.fields[pc]))
  }

  ghost predicate LinksKept(f: Fields, g: Fields) {
    && (f.blk0 != null ==> g.blk0 == f.blk0)
    && (f.blk1 != null ==> g.blk1 == f.blk1)
  }

  lemma GrewTransitive(s: Store, t: Store, u: Store)
    requires Grew(s, t) && Grew(t, u)
    ensures Grew(s, u)
  {
    assert s.slots[..s.ptr] == t.slots[..t.ptr][..s.ptr];
    assert u.slots[..s.ptr] == u.slots[..t.ptr][..s.ptr];
  }

  lemma GrewReflexive(s: Store)
    requires s.ptr <= |s.slots|
    ensures Grew(s, s)
  {
  }

  // Slots below the bump pointer did not change.
  lemma SamePrefix(before: seq<Insn>, after: seq<Insn>, n: nat, start: nat, count: nat)
    requires |before| == |after| && n <= |before| && before[..n] == after[..n]
    requires start + count <= n
    ensures before[start..start + count] == after[start..start + count]
  {
    forall k | start <= k < start + count ensures before[k] == after[k] {
      assert before[..n][k] == after[..n][k];
    }
  }

  // A well-formed block stays so when others are added.
  lemma FieldsOkGrows(pc: Word, f: Fields, fs: seq<Fetched>, s: Store, slots: seq<Insn>, ptr: nat,
                      new_: Word, b: Block)
    requires FieldsOk(pc, f, fs, s.slots, s.ptr, s.cache) && new_ !in s.cache
    requires |slots| == |s.slots| && s.ptr <= ptr <= |slots| && slots[..s.ptr] == s.slots[..s.ptr]
    ensures FieldsOk(pc, f, fs, slots, ptr, s.cache[new_ := b])
    ensures f.insn + RoundedSlots(f.count) <= s.ptr
  {
    hide StraightLine, Insns, Next0, Next1, Quiet, SecondSlotUsable, RoundedSlots;
    SamePrefix(s.slots, slots, s.ptr, f.insn, f.count);
  }

  // new_block followed by translate: the new block takes the slots from the
  // bump pointer, which moves past them.
  lemma AddBlock(s: Store, pc: Word, b: Block, f: Fields, fs: seq<Fetched>, slots: seq<Insn>) returns (t: Store)
    requires StoreOk(s) && s.code.Keys == s.cache.Keys && pc !in s.cache
    requires fs != [] && StraightLine(fs, pc, TRANS_MAX)
    requires f == Fields(s.ptr, |fs|, Next0(fs), null, Next1(fs), null)
    requires s.ptr + |fs| <= SLOTS == |slots|
    requires slots[..s.ptr] == s.slots[..s.ptr] && slots[s.ptr..s.ptr + |fs|] == Insns(fs)
    ensures t == Store(s.cache[pc := b], s.code[pc := fs], s.fields[pc := f], slots, s.ptr + RoundedSlots(|fs|))
    ensures StoreOk(t) && Grew(s, t)
  {
    hide StraightLine, Insns, Next0, Next1, Quiet, SecondSlotUsable, FieldsOk, RoundedSlots, Grew;
    var end := s.ptr + RoundedSlots(|fs|);
    t := Store(s.cache[pc := b], s.code[pc := fs], s.fields[pc := f], slots, end);
    assert end <= SLOTS;
    NewFieldsOk(s, pc, b, f, fs, slots, end);
    forall p | p in s.code
      ensures FieldsOk(p, s.fields[p], s.code[p], slots, end, t.cache) && Apart(s.fields[p], f) && Apart(f, s.fields[p])
    {
      FieldsOkGrows(p, s.fields[p], s.code[p], s, slots, end, pc, b);
    }
    NothingIsLost(s, t, pc);
  }

  lemma NothingIsLost(s: Store, t: Store, pc: Word)
    requires s.code.Keys <= s.cache.Keys == s.fields.Keys && pc !in s.cache && pc in t.cache && pc in t.code
      && pc in t.fields
    requires t.cache == s.cache[pc := t.cache[pc]] && t.code == s.code[pc := t.code[pc]]
    requires t.fields == s.fields[pc := t.fields[pc]]
    requires s.ptr <= t.ptr <= |s.slots| == |t.slots| && t.slots[..s.ptr] == s.slots[..s.ptr]
    ensures Grew(s, t)
  {
  }

  lemma NewFieldsOk(s: Store, pc: Word, b: Block, f: Fields, fs: seq<Fetched>, slots: seq<Insn>, end: nat)
    requires fs != [] && StraightLine(fs, pc, TRANS_MAX) && s.ptr % 2 == 0
    requires f == Fields(s.ptr, |fs|, Next0(fs), null, Next1(fs), null)
    requires s.ptr + RoundedSlots(|fs|) == end <= |slots|
    requires slots[s.ptr..s.ptr + |fs|] == Insns(fs)
    ensures FieldsOk(pc, f, fs, slots, end, s.cache[pc := b])
  {
    hide StraightLine, Insns, Next0, Next1, Quiet, SecondSlotUsable, RoundedSlots;
  }

  // patch_block on the values: which field it sets.
  function Patched(f: Fields, now: Block): Fields {
    if f.jmp0 == now.pc then f.(blk0 := now)
    else if f.jmp1 == now.pc then f.(blk1 := now)
    else f
  }

  // The fields of a block that is linked to the one it has handed over to.
  lemma PatchedFieldsOk(pc: Word, f: Fields, fs: seq<Fetched>, slots: seq<Insn>, ptr: nat, cache: BlockMap, now: Block)
    requires FieldsOk(pc, f, fs, slots, ptr, cache) && now.pc in cache && cache[now.pc] == now
    requires fs != [] && Quiet(fs) && CanLeaveAt(fs, now.pc)
    ensures FieldsOk(pc, Patched(f, now), fs, slots, ptr, cache) && LinksKept(f, Patched(f, now))
  {
    hide StraightLine, Insns, Next0, Next1, Quiet, SecondSlotUsable, CanLeaveAt, RoundedSlots;
    if f.jmp0 != now.pc && f.jmp1 == now.pc {
      PatchedSecondSlotIsUsable(fs, now.pc);
    }
  }

  // A block that has just handed over to now is linked to it soundly, and a
  // link that was already there is not changed.
  lemma PatchKeepsStore(s: Store, pc: Word, now: Block)
    requires StoreOk(s) && pc in s.code && now.pc in s.cache && s.cache[now.pc] == now
    requires s.code[pc] != [] && Quiet(s.code[pc]) && CanLeaveAt(s.code[pc], now.pc)
    ensures var t := s.(fields := s.fields[pc := Patched(s.fields[pc], now)]);
      StoreOk(t) && Grew(s, t)
  {
    hide Quiet, CanLeaveAt, FieldsOk, RoundedSlots;
    var f, fs := s.fields[pc], s.code[pc];
    PatchedFieldsOk(pc, f, fs, s.slots, s.ptr, s.cache, now);
    forall p, q | p in s.code && q in s.code && p != q
      ensures Apart(if p == pc then Patched(f, now) else s.fields[p], if q == pc then Patched(f, now) else s.fields[q])
    {
      assert Apart(s.fields[p], s.fields[q]);
    }
  }

  // ---- What the invariants mean for the engine ----

  // No address has two blocks anywhere in the table.
  lemma OneBlockPerAddress(heads: seq<Block?>, chains: seq<seq<Block>>, cache: BlockMap,
                           nexts: map<Block, Block?>, hash: Word -> Bucket, g: Bucket, i: nat, h: Bucket, j: nat)
    requires IsTable(heads, chains, cache, nexts, hash)
    requires i < |chains[g]| && j < |chains[h]| && chains[g][i].pc == chains[h][j].pc
    ensures g == h && i == j
  {
    assert IsBucket(chains[g], g, heads[g], cache, nexts, hash) && IsBucket(chains[h], h, heads[h], cache, nexts, hash);
    assert Member(chains[g][i], g, cache, hash) && Member(chains[h][j], h, cache, hash);
  }

  // No block that raises an exception is linked to a successor, and a block that
  // ends in a jump uses its first slot only.
  lemma LinksFollowTheExit(s: Store, pc: Word)
    requires StoreOk(s) && pc in s.code
    ensures s.code[pc] != []
    ensures var f, fs := s.fields[pc], s.code[pc];
      var handler := fs[|fs| - 1].Insn().handler;
      && (IsTrap(handler) ==> f.blk0 == null && f.blk1 == null)
      && ((handler.DoJal? || handler.DoJalr?) ==> f.blk1 == null)
  {
    hide Slotted, DecodeInsn, StraightLine, Next0, Next1;
    var f, fs := s.fields[pc], s.code[pc];
    assert FieldsOk(pc, f, fs, s.slots, s.ptr, s.cache);
    OwnAddresses(fs[|fs| - 1]);
  }

  lemma SlotsHold(pc: Word, f: Fields, fs: seq<Fetched>, slots: seq<Insn>, ptr: nat, cache: BlockMap)
    requires FieldsOk(pc, f, fs, slots, ptr, cache)
    ensures f.insn + f.count <= ptr <= |slots| && slots[f.insn..f.insn + f.count] == Insns(fs)
  {
    hide StraightLine, Insns, Linked;
  }

  // Translating later blocks never changes an instruction of an earlier one,
  // and no two blocks share a slot.
  lemma InstructionsPersist(s: Store, t: Store, pc: Word)
    requires StoreOk(s) && StoreOk(t) && Grew(s, t) && pc in s.code
    ensures var f := s.fields[pc];
      && f.insn + f.count <= |s.slots| == |t.slots|
      && t.slots[f.insn..f.insn + f.count] == s.slots[f.insn..f.insn + f.count] == Insns(s.code[pc])
    ensures forall q :: q in t.code && q != pc ==> Apart(t.fields[pc], t.fields[q])
  {
    hide StraightLine, Insns, FieldsOk, Apart, RoundedSlots;
    var f := s.fields[pc];
    SlotsHold(pc, f, s.code[pc], s.slots, s.ptr, s.cache);
    SamePrefix(s.slots, t.slots, s.ptr, f.insn, f.count);
  }
}
