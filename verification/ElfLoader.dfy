// The loader as it works on its state: the mapped memory, mmap_next_start,
// info->brk and the program break (elfload.c, mmap.c, syscall.c:7-19).
module ElfLoader {
  import opened Words
  import opened Image
  import opened LoadedImage
  import opened LoadedBytes
  import Stack
  import Machine

  datatype Rc = Ok | Error | Fault

  class Loader {
    var space: Space
    var mmapNextStart: Word
    var brk: Word

    constructor ()
      ensures space == map[] && mmapNextStart == 0x40_0000_0000 && brk == 0
    {
      space, mmapNextStart, brk := map[], TASK_UNMAPPED_BASE, 0;
    }

    // host_mmap with MAP_FIXED. The map itself is the kernel's.
    method HostMmap(addr: Word, length: Word, prot: Prot, file: Option<File>, offset: Word) returns (ok: bool)
      modifies this`space
      ensures ok <==> HostMap(old(space), addr, length, prot, file, offset).Some?
      ensures space == if ok then HostMap(old(space), addr, length, prot, file, offset).value else old(space)
    {
      var mapped := HostMap(space, addr, length, prot, file, offset);
      ok := mapped.Some?;
      if ok {
        space := mapped.value;
      }
    }

    method MmapFindVma(addr: Word, length: Word) returns (at: Option<Word>)
      modifies this`space, this`mmapNextStart
      ensures at.Some? <==> FindVma(old(space), old(mmapNextStart), addr, length).Some?
      ensures at.Some? ==>
        Placed(space, mmapNextStart, at.value) == FindVma(old(space), old(mmapNextStart), addr, length).value
    {
      hide HostMap;
      var where: Word := addr - addr % PAGE;
      if addr == 0 {
        where := mmapNextStart;
      }
      var rounded := RoundUp(length);
      var ok := HostMmap(where, rounded, PROT_NONE, None, 0);
      if !ok {
        return None;
      }
      if where == mmapNextStart && where >= TASK_UNMAPPED_BASE {
        mmapNextStart := Plus(mmapNextStart, rounded);
      }
      return Some(where);
    }

    // fixed: MAP_FIXED in flags. Without it the mapping is anonymous.
    method TargetMmap(addr: Word, length: Word, prot: Prot, fixed: bool, file: Option<File>, offset: Word)
        returns (at: Option<Word>)
      modifies this`space, this`mmapNextStart
      ensures fixed ==> mmapNextStart == old(mmapNextStart)
      ensures fixed ==> at == (if HostMap(old(space), addr, length, prot, file, offset).Some? then Some(addr) else None)
      ensures fixed && at.Some? ==> space == HostMap(old(space), addr, length, prot, file, offset).value
      ensures !fixed ==>
        var placed := MapAnywhere(old(space), old(mmapNextStart), addr, length, prot, offset);
        (at.Some? <==> placed.Some?) && (at.Some? ==> Placed(space, mmapNextStart, at.value) == placed.value)
    {
      hide HostMap, FindVma;
      var where, source := addr, file;
      if !fixed {
        var found := MmapFindVma(addr, length);
        if found.None? {
          return None;
        }
        where, source := found.value, None;
      }
      var ok := HostMmap(where, length, prot, source, offset);
      return if ok then Some(where) else None;
    }

    method ZeroBssPages(bss: Word, end: Word, prot: Prot) returns (rc: Rc)
      modifies this`space
      ensures rc == RcOf(ZeroBss(old(space), bss, end, prot))
      ensures rc == Ok ==> space == ZeroBss(old(space), bss, end, prot).value
    {
      hide HostMap, Clear;
      var limit := RoundUp(end);
      var aligned := RoundUp(bss);
      if aligned < limit {
        var ok := HostMmap(aligned, limit - aligned, prot, None, 0);
        if !ok {
          return Error;
        }
      }
      if bss < aligned {
        var cleared := Clear(space, bss, aligned);
        if cleared.Crashed? {
          return Fault;
        }
        space := cleared.value;
      }
      return Ok;
    }

    // The body of the segment loop.
    method LoadOneSegment(file: File, ph: Phdr) returns (rc: Rc)
      modifies this
      ensures mmapNextStart == old(mmapNextStart)
      ensures rc == RcOf(LoadSegment(Layout(old(space), old(brk)), file, ph))
      ensures rc == Ok ==> Layout(space, brk) == LoadSegment(Layout(old(space), old(brk)), file, ph).value
    {
      hide HostMap, ZeroBss;
      var prot := ProtOf(ph);
      var po := ph.vaddr % PAGE;
      var ps := ph.vaddr - po;
      var ef, em := Plus(ph.vaddr, ph.filesz), Plus(ph.vaddr, ph.memsz);
      if ph.filesz != 0 {
        var at := TargetMmap(ps, RoundUp(Plus(ph.filesz, po)), prot, true, Some(file), Wrap(ph.offset - po));
        if at.None? {
          return Error;
        }
        if ph.filesz < ph.memsz {
          rc := ZeroBssPages(ef, em, prot);
          if rc != Ok {
            return rc;
          }
        }
      } else if ph.memsz != 0 {
        var at := TargetMmap(ps, RoundUp(Plus(ph.memsz, po)), prot, true, None, 0);
        if at.None? {
          return Error;
        }
      }
      if !prot.read {
        return Error;
      }
      if em > brk {
        brk := em;
      }
      return Ok;
    }

    method LoadAllSegments(file: File, phs: seq<Phdr>) returns (rc: Rc)
      modifies this
      ensures mmapNextStart == old(mmapNextStart)
      ensures rc == RcOf(LoadSegments(Layout(old(space), old(brk)), file, phs))
      ensures rc == Ok ==> Layout(space, brk) == LoadSegments(Layout(old(space), old(brk)), file, phs).value
    {
      hide LoadSegment;
      var i := 0;
      while i < |phs|
        invariant 0 <= i <= |phs| && mmapNextStart == old(mmapNextStart)
        invariant LoadSegments(Layout(old(space), old(brk)), file, phs)
          == LoadSegments(Layout(space, brk), file, phs[i..])
      {
        assert phs[i..][0] == phs[i] && phs[i..][1..] == phs[i + 1..];
        if phs[i].kind == PT_LOAD {
          rc := LoadOneSegment(file, phs[i]);
          if rc != Ok {
            return rc;
          }
        }
        i := i + 1;
      }
      return Ok;
    }

    // The first header loop.
    method FindExtent(phs: seq<Phdr>) returns (lo: Word, hi: Word, exec: bool)
      ensures (lo, hi) == Extent(TWO64 - 1, 0, phs)
      ensures exec == ExecStack(false, phs)
    {
      lo, hi, exec := TWO64 - 1, 0, false;
      var i := 0;
      while i < |phs|
        invariant 0 <= i <= |phs|
        invariant Extent(TWO64 - 1, 0, phs) == Extent(lo, hi, phs[i..])
        invariant ExecStack(false, phs) == ExecStack(exec, phs[i..])
      {
        assert phs[i..][0] == phs[i] && phs[i..][1..] == phs[i + 1..];
        if phs[i].kind == PT_LOAD {
          var addr := Wrap(phs[i].vaddr - phs[i].offset);
          if addr < lo {
            lo := addr;
          }
          addr := Wrap(phs[i].vaddr + phs[i].memsz - 1);
          if addr > hi {
            hi := addr;
          }
        } else if phs[i].kind == PT_GNU_STACK {
          exec := phs[i].flags % 2 == 1;
        }
        i := i + 1;
      }
    }

    method TargetMprotect(addr: Word, length: Word, prot: Prot) returns (ok: bool)
      modifies this`space
      ensures ok <==> Protect(old(space), addr, length, prot).Some?
      ensures ok ==> space == Protect(old(space), addr, length, prot).value
    {
      var protected := Protect(space, addr, length, prot);
      ok := protected.Some?;
      if ok {
        space := protected.value;
      }
    }

    // load_elf_binary: reservation, segments and heap.
    method MapImage(file: File, phs: seq<Phdr>, lo: Word, last: Word) returns (rc: Rc)
      requires (lo, last) == Extent(TWO64 - 1, 0, phs)
      modifies this
      ensures mmapNextStart == old(mmapNextStart)
      ensures rc == RcOf(LoadImage(old(space), file, phs))
      ensures rc == Ok ==> Layout(space, brk) == LoadImage(old(space), file, phs).value
    {
      hide HostMap, LoadSegments, Extent;
      var hi := Plus(last, RESERVE_BRK);
      var at := TargetMmap(lo, Span(lo, hi), PROT_NONE, true, None, 0);
      if at.None? {
        return Error;
      }
      brk := 0;
      rc := LoadAllSegments(file, phs);
      if rc != Ok {
        return rc;
      }
      var start := RoundUp(brk);
      at := TargetMmap(start, Span(start, hi), PROT_READ_WRITE, true, None, 0);
      return if at.None? then Error else Ok;
    }

    // load_elf_binary: the stack and its guard page.
    method AddStack(stackSize: Word, exec: bool) returns (at: Option<Word>)
      modifies this`space, this`mmapNextStart
      ensures at.Some? <==> MapStack(old(space), old(mmapNextStart), stackSize, exec).Some?
      ensures at.Some? ==>
        Placed(space, mmapNextStart, at.value) == MapStack(old(space), old(mmapNextStart), stackSize, exec).value
    {
      hide MapAnywhere, Protect, HostMap;
      at := TargetMmap(0, Plus(stackSize, PAGE), Prot(true, true, exec), false, None, 0);
      if at.Some? {
        var ok := TargetMprotect(at.value, PAGE, PROT_NONE);
        if !ok {
          return None;
        }
      }
    }

    // load_elf_binary up to create_elf_tables; p is bprm->p.
    method LoadElfBinary(file: File, phs: seq<Phdr>, stackSize: Word) returns (rc: Rc, p: Word)
      modifies this
      ensures rc == RcOf(LoadProcess(old(space), old(mmapNextStart), file, phs, stackSize))
      ensures rc == Ok ==>
        Process(space, brk, mmapNextStart, p) == LoadProcess(old(space), old(mmapNextStart), file, phs, stackSize).value
    {
      hide LoadImage, MapStack, Extent, ExecStack;
      p := 0;
      var lo, last, exec := FindExtent(phs);
      rc := MapImage(file, phs, lo, last);
      if rc == Ok {
        var at := AddStack(stackSize, exec);
        if at.None? {
          return Error, p;
        }
        p := Wrap(at.value + PAGE + stackSize - 8);
      }
    }
  }

  function RcOf<T>(r: Loading<T>): Rc {
    match r
    case Loaded(_) => Ok
    case Failed => Error
    case Crashed => Fault
  }

  // ---- The program break ----

  class Break {
    var targetBrk: Word
    var initialTargetBrk: Word

    constructor ()
      ensures targetBrk == 0 && initialTargetBrk == 0
    {
      targetBrk, initialTargetBrk := 0, 0;
    }

    method TargetSetBrk(newBrk: Word)
      modifies this
      ensures targetBrk == initialTargetBrk == RoundUp(newBrk)
      ensures newBrk + PAGE <= TWO64 ==> targetBrk % PAGE == 0 && newBrk <= targetBrk < newBrk + PAGE
    {
      targetBrk := RoundUp(newBrk);
      initialTargetBrk := targetBrk;
    }

    method DoBrk(request: Word) returns (r: Word)
      modifies this`targetBrk
      ensures r == targetBrk == BreakAfter(initialTargetBrk, request)
      ensures request >= initialTargetBrk ==> r == request
      ensures request < initialTargetBrk ==> r == initialTargetBrk
    {
      targetBrk := if request < initialTargetBrk then initialTargetBrk else request;
      r := targetBrk;
    }
  }

  // A fresh loader given well-formed headers: exactly the loadable programs
  // start, and ProcessMade says which parts of them the stack has left intact.
  method LoadProgram(file: File, phs: seq<Phdr>, stackSize: Word) returns (loader: Loader, rc: Rc, p: Word)
    requires WellFormed(file, phs) && SomeLoad(phs)
    requires TASK_UNMAPPED_BASE + stackSize + 2 * PAGE < TWO64
    ensures rc == Ok <==> Reservable(phs) && AllLoadable(phs)
    ensures rc == Ok ==>
      ProcessMade(Process(loader.space, loader.brk, loader.mmapNextStart, p), file, phs, TASK_UNMAPPED_BASE, stackSize)
    ensures rc == Ok ==> InNumbers(Process(loader.space, loader.brk, loader.mmapNextStart, p), phs, stackSize)
  {
    hide WellFormed, TopOf, LoadProcess, AllLoadable, ProcessMade, SomeLoad, Reservable, AllSpared, InNumbers;
    loader := new Loader();
    ProcessIsLoaded(loader.space, TASK_UNMAPPED_BASE, file, phs, stackSize);
    rc, p := loader.LoadElfBinary(file, phs, stackSize);
    if rc == Ok {
      ProcessInNumbers(Process(loader.space, loader.brk, loader.mmapNextStart, p), file, phs, stackSize);
    }
  }

  // ---- Together with create_elf_tables ----

  // What guest loads see.
  function Bytes(sp: Space): Machine.Memory {
    map a: Word | a in sp && sp[a].prot.read :: sp[a].value
  }

  // The bytes of a segment, as the program sees them.
  predicate SegmentBytes(mem: Machine.Memory, file: File, ph: Phdr) {
    forall a: Word :: ph.vaddr <= a < ph.vaddr + ph.memsz ==>
      a in mem && mem[a] == SegmentCell(file, ph, a).value
  }

  lemma SegmentIsSeen(sp: Space, mem: Machine.Memory, file: File, ph: Phdr, from: nat, to: nat)
    requires SegmentLoaded(sp, file, ph) && Asked(ph).read && Disjoint(ph.vaddr, ph.vaddr + ph.memsz, from, to)
    requires forall a: Word :: a < from || to <= a ==> SameAt(mem, Bytes(sp), a)
    ensures SegmentBytes(mem, file, ph)
  {
    hide FileByte;
    forall a: Word | ph.vaddr <= a < ph.vaddr + ph.memsz
      ensures a in mem && mem[a] == SegmentCell(file, ph, a).value
    {
      assert SameAt(mem, Bytes(sp), a);
    }
  }

  lemma ZeroWord(mem: Machine.Memory, a: Word)
    requires a + 8 < TWO64 && forall b: Word :: a <= b < a + 8 ==> b in mem && mem[b] == 0
    ensures Stack.ReadWord(mem, a) == Some(0)
  {
    ZeroBytes(mem, a, 8);
  }

  lemma {:induction false} ZeroBytes(mem: Machine.Memory, a: Word, n: nat)
    requires a + n < TWO64 && forall b: Word :: a <= b < a + n ==> b in mem && mem[b] == 0
    ensures Machine.LoadBytes(mem, a, n) == Some(0)
    decreases n
  {
    if n > 0 {
      assert Plus(a, 1) == a + 1;
      ZeroBytes(mem, a + 1, n - 1);
    }
  }

  // The auxiliary vector, which create_elf_tables leaves as the fresh stack has
  // it, reads as its null entry.
  lemma AuxvIsNull(sp: Space, mem: Machine.Memory, at: nat, size: nat, exec: bool, auxv: Word)
    requires StackAt(sp, at, size, exec)
    requires at + PAGE <= auxv && auxv + 24 <= at + PAGE + size < TWO64
    requires forall a: Word :: 0 <= a - auxv < 24 ==> SameAt(mem, Bytes(sp), a)
    ensures Stack.ReadWord(mem, auxv) == Some(0) && Stack.ReadWord(mem, auxv + 8) == Some(0)
  {
    PageFacts(size + PAGE);
    hide PageUp, PageDown, Stack.ReadWord;
    forall a: Word | auxv <= a < auxv + 24 ensures a in mem && mem[a] == 0 {
      assert SameAt(mem, Bytes(sp), a);
    }
    ZeroWord(mem, auxv);
    ZeroWord(mem, auxv + 8);
  }

  // The guest cannot read the guard page.
  lemma GuardIsUnseen(sp: Space, mem: Machine.Memory, at: nat, size: nat, exec: bool, from: nat, to: nat)
    requires StackAt(sp, at, size, exec) && at + PAGE <= from
    requires forall a: Word :: a < from || to <= a ==> SameAt(mem, Bytes(sp), a)
    ensures forall a: Word :: at <= a < at + PAGE ==> a !in mem
  {
    forall a: Word | at <= a < at + PAGE ensures a !in mem {
      assert SameAt(mem, Bytes(sp), a);
    }
  }

  // elf_load: a loadable program starts with its arguments, its environment and
  // a null auxiliary vector on its stack above the guard page, which it cannot
  // read, and with every segment off the stack's pages in memory.
  method ElfLoad(file: File, phs: seq<Phdr>, stackSize: Word, filename: Stack.CString, argv: seq<Stack.CString>,
      envp: seq<Stack.CString>)
    returns (rc: Rc, mem: Machine.Memory, sp: Word)
    requires WellFormed(file, phs) && SomeLoad(phs)
    requires TASK_UNMAPPED_BASE + stackSize + 2 * PAGE < TWO64
    requires |argv| >= 1 && Stack.NoZero(filename) && Stack.AllNoZero(argv) && Stack.AllNoZero(envp)
    requires Stack.StackNeeded([filename] + argv[1..], envp) + 8 <= stackSize
    ensures rc == Ok <==> Reservable(phs) && AllLoadable(phs)
    ensures rc == Ok ==> Stack.ReadArguments(mem, sp) == Some(Stack.Arguments(|argv|, [filename] + argv[1..], envp))
    ensures rc == Ok ==>
      var auxv := Stack.AuxvAt(sp, |argv|, envp);
      auxv + 8 < TWO64 && Stack.ReadWord(mem, auxv) == Some(0) && Stack.ReadWord(mem, auxv + 8) == Some(0)
    ensures rc == Ok ==>
      forall i :: IsLoad(phs, i) && OffStack(phs[i], TASK_UNMAPPED_BASE, stackSize) ==> SegmentBytes(mem, file, phs[i])
    ensures rc == Ok ==> 0x40_0000_1000 <= sp && forall a: Word :: 0x40_0000_0000 <= a < 0x40_0000_1000 ==> a !in mem
  {
    hide WellFormed, TopOf, Stack.ReadArguments, SameAt, Stack.NoZero, SegmentLoaded, SegmentBytes, Bytes, PageUp,
      Stack.ReadWord, StackAt, Spared, HeapSpared, HeapIsZero, SomeLoad, Reservable, TailWritable;
    mem, sp := map[], 0;
    var loader;
    var p;
    loader, rc, p := LoadProgram(file, phs, stackSize);
    if rc == Ok {
      var space, exec := loader.space, ExecStack(false, phs);
      var stack := new Stack.Builder(Bytes(space));
      sp := stack.CreateElfTables(p, filename, argv, envp);
      mem := stack.mem;
      PageFacts(stackSize + PAGE);
      GuardIsUnseen(space, mem, TASK_UNMAPPED_BASE, stackSize, exec, sp, p);
      AuxvIsNull(space, mem, TASK_UNMAPPED_BASE, stackSize, exec, Stack.AuxvAt(sp, |argv|, envp));
      forall i | IsLoad(phs, i) && OffStack(phs[i], TASK_UNMAPPED_BASE, stackSize)
        ensures SegmentBytes(mem, file, phs[i])
      {
        OffStackIsSpared(file, phs[i], TASK_UNMAPPED_BASE, stackSize, exec);
        SegmentIsSeen(space, mem, file, phs[i], sp, p);
      }
    }
  }
}
