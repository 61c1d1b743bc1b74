// The emulator without its data structures: a machine, a map from block
// addresses to translations, and the number of instruction slots in use.  The
// engine is proved equal to this machine with no side condition; here this
// machine is related to the uncached reference.
module CacheMachine {
  import opened Words
  import opened Decode
  import opened Machine
  import opened Blocks
  import opened Reference

  // 1 GiB of 32-byte instructions
  const SLOTS := 0x4000_0000 / 32

  // ROUND_UP(count * sizeof(insn_t), 64), in slots
  function RoundedSlots(count: nat): (r: nat)
    ensures count <= r <= count + 1 && r % 2 == 0
  {
    (count + 1) / 2 * 2
  }

  type Cache = map<Word, seq<Fetched>>

  datatype CacheState = Live(m: Machine, code: Cache, used: nat) | Dead(why: Halt)

  // The cached block for pc, or a new translation of it; None when
  // translation reads unmapped memory or writes past the buffer.
  datatype Lookup = Found(fs: seq<Fetched>, code: Cache, used: nat) | Lost

  function FindOrTranslate(pc: Word, mem: Memory, code: Cache, used: nat): Lookup {
    if pc in code then Found(code[pc], code, used)
    else match DecodeBlock(mem, pc)
      case None => Lost
      case Some(fs) =>
        if used + |fs| > SLOTS then Lost
        else Found(fs, code[pc := fs], used + RoundedSlots(|fs|))
  }

  // A translation has at most 512 instructions, and fewer only if its last one
  // is an exit; it must end below slot 33554432.
  lemma TranslationLimits(pc: Word, mem: Memory, code: Cache, used: nat)
    requires pc !in code
    ensures match DecodeBlock(mem, pc)
      case None => FindOrTranslate(pc, mem, code, used) == Lost
      case Some(fs) =>
        && 1 <= |fs| <= 512 && (|fs| < 512 ==> Complete(fs))
        && (FindOrTranslate(pc, mem, code, used).Found? <==> used + |fs| <= 33554432)
  {
    hide DecodeFrom, RoundedSlots;
    DecodedIsStraightLine(mem, pc, TRANS_MAX);
  }

  // One block from a machine without pending exception.
  function BlockStep(m: Machine, code: Cache, used: nat): CacheState {
    match FindOrTranslate(m.pc, m.mem, code, used)
    case Lost => Dead(HostFault)
    case Found(fs, code1, used1) =>
      match RunInsns(Insns(fs), m)
      case Halted(why) => Dead(why)
      case Next(m1) => Live(m1, code1, used1)
  }

  // Serve a pending exception, then run one block.
  function CacheStep(sys: Kernel, s: CacheState): CacheState {
    match s
    case Dead(_) => s
    case Live(m, code, used) =>
      match Resume(sys, m)
      case Halted(why) => Dead(why)
      case Next(m1) => BlockStep(m1, code, used)
  }

  // n blocks
  function CacheRun(sys: Kernel, s: CacheState, n: nat): CacheState {
    if n == 0 then s else CacheStep(sys, CacheRun(sys, s, n - 1))
  }

  lemma {:induction false} DeadStays(sys: Kernel, s: CacheState, a: nat, b: nat)
    requires a <= b && CacheRun(sys, s, a).Dead?
    ensures CacheRun(sys, s, b) == CacheRun(sys, s, a)
    decreases b - a
  {
    if a < b {
      assert CacheRun(sys, s, a + 1) == CacheRun(sys, s, a);
      DeadStays(sys, s, a + 1, b);
    }
  }

  // ---- Hypotheses of the refinement ----

  // The machine that is about to run a block, at a block boundary.
  function Entry(sys: Kernel, o: Outcome): Option<Machine> {
    if o.Next? && Resume(sys, o.m).Next? then Some(Resume(sys, o.m).m) else None
  }

  // Instructions in the block at a boundary; one step where there is none.
  function BlockLength(sys: Kernel, o: Outcome): (n: nat)
    ensures n >= 1
  {
    match Entry(sys, o)
    case None => 1
    case Some(m) =>
      match DecodeBlock(m.mem, m.pc)
      case Some(fs) => if |fs| >= 1 then |fs| else 1
      case None => 1
  }

  // Instructions the reference executes for n blocks.
  function Steps(sys: Kernel, o: Outcome, n: nat): (k: nat)
    ensures k >= n
  {
    if n == 0 then 0
    else
      var before := Steps(sys, o, n - 1);
      before + BlockLength(sys, RefRun(sys, o, before))
  }

  // The reference after n blocks.
  function Boundary(sys: Kernel, o: Outcome, n: nat): Outcome {
    RefRun(sys, o, Steps(sys, o, n))
  }

  // Memory decodes at pc to a block closed by an exit and naming only
  // implemented CSRs.
  ghost predicate GoodBlock(mem: Memory, pc: Word) {
    var r := DecodeBlock(mem, pc);
    r.Some? && r.value != [] && Complete(r.value) && CsrsOk(r.value)
  }

  // The block entered here is good, and not modified before it has run.
  ghost predicate GoodBoundary(sys: Kernel, o: Outcome) {
    match Entry(sys, o)
    case None => true
    case Some(m) => GoodBlock(m.mem, m.pc) && Unmodified(sys, DecodeBlock(m.mem, m.pc).value, m)
  }

  // The block fs is entered at pc.
  ghost predicate Entered(sys: Kernel, o: Outcome, pc: Word, fs: seq<Fetched>) {
    var e := Entry(sys, o);
    e.Some? && e.value.pc == pc && DecodeBlock(e.value.mem, pc) == Some(fs)
  }

  // If both boundaries enter the same address, memory holds the same block
  // there.
  ghost predicate SameCode(sys: Kernel, p: Outcome, q: Outcome) {
    var e, f := Entry(sys, p), Entry(sys, q);
    e.Some? && f.Some? && e.value.pc == f.value.pc ==>
      DecodeBlock(e.value.mem, e.value.pc) == DecodeBlock(f.value.mem, e.value.pc)
  }

  // The first n blocks: each is good where it is entered, and an address that
  // is entered again still holds the block it held before.
  ghost predicate GoodRun(sys: Kernel, o: Outcome, n: nat) {
    && (forall j :: 0 <= j < n ==> GoodBoundary(sys, Boundary(sys, o, j)))
    && (forall i, j :: 0 <= i < j < n ==> SameCode(sys, Boundary(sys, o, i), Boundary(sys, o, j)))
  }

  // The instruction buffer has room for the block about to be translated.
  ghost predicate HasRoom(sys: Kernel, s: CacheState) {
    s.Live? && Resume(sys, s.m).Next? ==>
      var m := Resume(sys, s.m).m;
      var r := DecodeBlock(m.mem, m.pc);
      m.pc !in s.code && r.Some? ==> s.used + |r.value| <= SLOTS
  }

  ghost predicate RoomThroughout(sys: Kernel, s: CacheState, n: nat) {
    forall j :: 0 <= j < n ==> HasRoom(sys, CacheRun(sys, s, j))
  }

  // ---- Refinement ----

  ghost predicate EnteredBefore(sys: Kernel, o: Outcome, n: nat, pc: Word, fs: seq<Fetched>) {
    exists i :: 0 <= i < n && Entered(sys, Boundary(sys, o, i), pc, fs)
  }

  // Every cached block was entered at an earlier boundary.
  ghost predicate CachesEntered(sys: Kernel, o: Outcome, n: nat, code: Cache) {
    forall pc :: pc in code ==> EnteredBefore(sys, o, n, pc, code[pc])
  }

  // Same machine as the reference after n blocks, or the same death.
  ghost predicate Agrees(sys: Kernel, o: Outcome, n: nat, s: CacheState) {
    match s
    case Live(m, code, _) => Boundary(sys, o, n) == Next(m) && CachesEntered(sys, o, n, code)
    case Dead(why) => Boundary(sys, o, n) == Halted(why)
  }

  // One good block, as it stands in memory.
  lemma BlockAgrees(sys: Kernel, fs: seq<Fetched>, m: Machine)
    requires DecodeBlock(m.mem, m.pc) == Some(fs) && GoodBlock(m.mem, m.pc)
    requires m.exception == NoException && Unmodified(sys, fs, m)
    ensures RefRun(sys, Next(m), |fs|) == RunInsns(Insns(fs), m)
  {
    hide DecodeFrom, RunInsns, RefRun, Resume, Unmodified;
    DecodedIsStraightLine(m.mem, m.pc, TRANS_MAX);
    assert m == m.(pc := fs[0].addr);
    BlockMatchesReference(sys, fs, TRANS_MAX, m);
  }

  // Serving the exception first does not change what the reference does.
  lemma ResumeThenRun(sys: Kernel, m: Machine, n: nat)
    requires n > 0 && Resume(sys, m).Next?
    ensures RefRun(sys, Resume(sys, m), n) == RefRun(sys, Next(m), n)
    ensures Resume(sys, m).m.exception == NoException
  {
    hide StepInsn, RefRun;
    RefRunFront(sys, Next(m), n);
    RefRunFront(sys, Resume(sys, m), n);
  }

  // The cached block for the address entered, if there is one, is what memory
  // holds.
  lemma LookupIsFresh(sys: Kernel, o: Outcome, n: nat, code: Cache, e: Machine)
    requires CachesEntered(sys, o, n, code) && Entry(sys, Boundary(sys, o, n)) == Some(e)
    requires forall i :: 0 <= i < n ==> SameCode(sys, Boundary(sys, o, i), Boundary(sys, o, n))
    ensures e.pc in code ==> DecodeBlock(e.mem, e.pc) == Some(code[e.pc])
  {
    hide DecodeFrom, Boundary, Entry;
    if e.pc in code {
      assert EnteredBefore(sys, o, n, e.pc, code[e.pc]);
      var i :| 0 <= i < n && Entered(sys, Boundary(sys, o, i), e.pc, code[e.pc]);
      assert SameCode(sys, Boundary(sys, o, i), Boundary(sys, o, n));
    }
  }

  // Adding the block just entered.
  lemma CacheGrows(sys: Kernel, o: Outcome, n: nat, code: Cache, pc: Word, fs: seq<Fetched>)
    requires CachesEntered(sys, o, n, code) && Entered(sys, Boundary(sys, o, n), pc, fs)
    ensures CachesEntered(sys, o, n + 1, code) && CachesEntered(sys, o, n + 1, code[pc := fs])
  {
    hide Entered, Boundary;
    forall p | p in code ensures EnteredBefore(sys, o, n + 1, p, code[p]) {
      assert EnteredBefore(sys, o, n, p, code[p]);
    }
  }

  lemma BoundaryStep(sys: Kernel, o: Outcome, n: nat)
    ensures Boundary(sys, o, n + 1) == RefRun(sys, Boundary(sys, o, n), BlockLength(sys, Boundary(sys, o, n)))
  {
    hide RefRun, BlockLength;
    RefRunSplit(sys, o, Steps(sys, o, n), BlockLength(sys, Boundary(sys, o, n)));
  }

  lemma StepAgrees(sys: Kernel, o: Outcome, n: nat, s: CacheState)
    requires Agrees(sys, o, n, s) && GoodBoundary(sys, Boundary(sys, o, n)) && HasRoom(sys, s)
    requires forall i :: 0 <= i < n ==> SameCode(sys, Boundary(sys, o, i), Boundary(sys, o, n))
    ensures Agrees(sys, o, n + 1, CacheStep(sys, s))
  {
    hide DecodeFrom, RefRun, Unmodified, Resume, RunInsns, StepInsn, Boundary, CachesEntered, SameCode;
    var p := Boundary(sys, o, n);
    var k := BlockLength(sys, p);
    BoundaryStep(sys, o, n);
    match s {
      case Dead(why) =>
        HaltedStays(sys, why, k);
      case Live(m, code, used) =>
        if Resume(sys, m).Next? {
          var e := Resume(sys, m).m;
          var fs := DecodeBlock(e.mem, e.pc).value;
          LookupIsFresh(sys, o, n, code, e);
          ResumeThenRun(sys, m, k);
          BlockAgrees(sys, fs, e);
          CacheGrows(sys, o, n, code, e.pc, fs);
        } else {
          RefRunFront(sys, p, k);
          HaltedStays(sys, Resume(sys, m).why, k - 1);
        }
    }
  }

  // The main theorem.  From any machine and an empty cache, after any number of
  // blocks - across system calls with an arbitrary kernel - registers, pc,
  // memory, CSRs and exception are those of the uncached interpreter after
  // exactly the sum of the blocks' instruction counts, and the emulator dies
  // when and as the interpreter does.
  lemma {:induction false} CacheRefinesReference(sys: Kernel, m0: Machine, n: nat)
    requires GoodRun(sys, Next(m0), n)
    requires RoomThroughout(sys, Live(m0, map[], 0), n)
    ensures Agrees(sys, Next(m0), n, CacheRun(sys, Live(m0, map[], 0), n))
    decreases n
  {
    hide CacheStep, Boundary, SameCode, GoodBoundary, HasRoom, Agrees;
    if n == 0 {
      StartAgrees(sys, m0);
    } else {
      CacheRefinesReference(sys, m0, n - 1);
      StepAgrees(sys, Next(m0), n - 1, CacheRun(sys, Live(m0, map[], 0), n - 1));
    }
  }

  lemma RunZero(sys: Kernel, o: Outcome)
    ensures RefRun(sys, o, 0) == o
    ensures Boundary(sys, o, 0) == o
  {
  }

  lemma StartAgrees(sys: Kernel, m0: Machine)
    ensures Agrees(sys, Next(m0), 0, CacheRun(sys, Live(m0, map[], 0), 0))
  {
    RunZero(sys, Next(m0));
  }

  // ---- Code that is not changed once it has been entered ----

  // texts(j) is the code in use from boundary j on.  It may grow, by a system
  // call or by the program's own stores; what is in it stays.
  ghost predicate Growing(texts: nat -> Memory) {
    forall i, j :: i <= j ==> Holds(texts(i), texts(j))
  }

  ghost predicate HeldThroughout(sys: Kernel, text: Memory, m: Machine, n: nat) {
    forall k :: 0 <= k < n ==> HeldBy(text, RefRun(sys, Next(m), k))
  }

  ghost predicate HeldBy(text: Memory, o: Outcome) {
    o.Next? ==> Holds(text, o.m.mem)
  }

  // At this boundary the text holds the block that is entered, and keeps it
  // while it runs.
  ghost predicate InText(sys: Kernel, text: Memory, o: Outcome) {
    match Entry(sys, o)
    case None => true
    case Some(m) => GoodBlock(text, m.pc) && HeldThroughout(sys, text, m, |DecodeBlock(text, m.pc).value|)
  }

  lemma TextIsDecoded(sys: Kernel, text: Memory, o: Outcome)
    requires InText(sys, text, o)
    ensures GoodBoundary(sys, o)
    ensures var e := Entry(sys, o);
      e.Some? ==> DecodeBlock(e.value.mem, e.value.pc) == DecodeBlock(text, e.value.pc)
  {
    hide DecodeFrom, Resume, Fetch;
    var e := Entry(sys, o);
    if e.Some? {
      var m, fs := e.value, DecodeBlock(text, e.value.pc).value;
      assert HeldBy(text, RefRun(sys, Next(m), 0));
      HeldDecode(text, m.mem, m.pc, TRANS_MAX);
      DecodedIsStraightLine(text, m.pc, TRANS_MAX);
      forall k | 0 <= k < |fs| ensures StillThere(fs[k], RefRun(sys, Next(m), k)) {
        var r := RefRun(sys, Next(m), k);
        assert HeldBy(text, r);
        if r.Next? {
          HeldFetch(text, r.m.mem, fs[k].addr);
        }
      }
    }
  }

  // Programs whose code bytes do not change from the time they are first
  // entered, wherever they come from, meet the hypothesis of the main theorem.
  lemma UnchangedCodeIsGood(sys: Kernel, texts: nat -> Memory, o: Outcome, n: nat)
    requires Growing(texts)
    requires forall j :: 0 <= j < n ==> InText(sys, texts(j), Boundary(sys, o, j))
    ensures GoodRun(sys, o, n)
  {
    hide Boundary, InText, DecodeFrom, Holds;
    forall j | 0 <= j < n ensures GoodBoundary(sys, Boundary(sys, o, j)) {
      TextIsDecoded(sys, texts(j), Boundary(sys, o, j));
    }
    forall i, j | 0 <= i < j < n ensures SameCode(sys, Boundary(sys, o, i), Boundary(sys, o, j)) {
      SameText(sys, texts(i), texts(j), Boundary(sys, o, i), Boundary(sys, o, j));
    }
  }

  lemma SameText(sys: Kernel, early: Memory, late: Memory, p: Outcome, q: Outcome)
    requires Holds(early, late) && InText(sys, early, p) && InText(sys, late, q)
    ensures SameCode(sys, p, q)
  {
    hide DecodeFrom, Entry, Holds;
    TextIsDecoded(sys, early, p);
    TextIsDecoded(sys, late, q);
    var e := Entry(sys, p);
    if e.Some? {
      assert GoodBlock(early, e.value.pc);
      HeldDecode(early, late, e.value.pc, TRANS_MAX);
    }
  }

  // ---- Blocks closed by the cap ----

  // Whatever the program, a block that the cap closed and that is entered
  // without an exception pending is re-entered for ever: as long as the emulator
  // lives it stays at that address and translates nothing more.
  lemma {:induction false} CappedBlockStalls(sys: Kernel, m: Machine, code: Cache, used: nat, n: nat)
    requires m.exception == NoException && m.pc in code
    requires StraightLine(code[m.pc], m.pc, TRANS_MAX) && !Complete(code[m.pc]) && CsrsOk(code[m.pc])
    ensures var s := CacheRun(sys, Live(m, code, used), n);
      s.Live? ==> s.m.pc == m.pc && s.m.exception == NoException && s.code == code && s.used == used
  {
    hide RunInsns, Insns, DecodeFrom, StraightLine, Complete;
    if n > 0 {
      CappedBlockStalls(sys, m, code, used, n - 1);
      var s := CacheRun(sys, Live(m, code, used), n - 1);
      if s.Live? && RunInsns(Insns(code[m.pc]), s.m).Next? {
        CappedBlockIsQuiet(code[m.pc], m.pc);
        BlockOutcome(code[m.pc], s.m);
        LeavesAtSuccessor(code[m.pc], m.pc, TRANS_MAX, s.m);
      }
    }
  }

  lemma CappedBlockIsQuiet(fs: seq<Fetched>, pc: Word)
    requires StraightLine(fs, pc, TRANS_MAX) && !Complete(fs) && CsrsOk(fs)
    ensures Quiet(fs)
  {
    hide DecodeInsn, InsnLen, Plus;
    forall k | 0 <= k < |fs| ensures !IsTrap(fs[k].Insn().handler) {
      OwnAddresses(fs[k]);
    }
  }

  // ---- Room in the instruction buffer ----

  // Each cached block takes at most TRANS_MAX slots.
  lemma {:induction false} UsedSlots(sys: Kernel, m0: Machine, n: nat)
    ensures var s := CacheRun(sys, Live(m0, map[], 0), n);
      s.Live? ==> s.used <= TRANS_MAX * |s.code|
  {
    hide Resume, DecodeFrom, RunInsns;
    if n > 0 {
      UsedSlots(sys, m0, n - 1);
      var s := CacheRun(sys, Live(m0, map[], 0), n - 1);
      if s.Live? && Resume(sys, s.m).Next? {
        var m := Resume(sys, s.m).m;
        DecodedIsStraightLine(m.mem, m.pc, TRANS_MAX);
      }
    }
  }

  // Addresses at which the run has entered a block are all in entries.
  ghost predicate EntersOnly(sys: Kernel, s: CacheState, n: nat, entries: set<Word>) {
    forall j :: 0 <= j < n ==>
      var t := CacheRun(sys, s, j);
      t.Live? && Resume(sys, t.m).Next? ==> Resume(sys, t.m).m.pc in entries
  }

  lemma {:induction false} CachedAreEntered(sys: Kernel, m0: Machine, n: nat, entries: set<Word>)
    requires EntersOnly(sys, Live(m0, map[], 0), n, entries)
    ensures var s := CacheRun(sys, Live(m0, map[], 0), n);
      s.Live? ==> s.code.Keys <= entries
  {
    hide Resume, DecodeFrom, RunInsns;
    if n > 0 {
      CachedAreEntered(sys, m0, n - 1, entries);
    }
  }

  // A run that enters blocks at no more than 65536 addresses never runs out of
  // instruction slots, however long it is.
  lemma RoomForManyBlocks(sys: Kernel, m0: Machine, n: nat, entries: set<Word>)
    requires EntersOnly(sys, Live(m0, map[], 0), n, entries)
    requires |entries| <= 65536
    ensures RoomThroughout(sys, Live(m0, map[], 0), n)
  {
    hide Resume, DecodeFrom, CacheStep;
    var s0 := Live(m0, map[], 0);
    forall j | 0 <= j < n
      ensures HasRoom(sys, CacheRun(sys, s0, j))
    {
      var t := CacheRun(sys, s0, j);
      UsedSlots(sys, m0, j);
      CachedAreEntered(sys, m0, j, entries);
      if t.Live? && Resume(sys, t.m).Next? && Resume(sys, t.m).m.pc !in t.code {
        var m := Resume(sys, t.m).m;
        assert t.code.Keys + {m.pc} <= entries;
        SubsetSize(t.code.Keys + {m.pc}, entries);
        DecodedIsStraightLine(m.mem, m.pc, TRANS_MAX);
      }
    }
  }

  lemma {:induction false} SubsetSize<T>(a: set<T>, b: set<T>)
    requires a <= b
    ensures |a| <= |b|
  {
    if a != {} {
      var x :| x in a;
      SubsetSize(a - {x}, b - {x});
    }
  }
}
