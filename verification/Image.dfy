// The memory image of an ET_EXEC program: the header loops and the heap of
// load_elf_binary (elfload.c:172-383), zero_bss, the mmap layer under them, and
// the program break above the image. Addresses are guest addresses: guest_base
// is page-aligned, so page arithmetic is the same on both sides of g2h.
module Image {
  import opened Words

  const PAGE := 4096
  const MAX_OFFSET := 0x8000_0000_0000_0000
  const PT_LOAD := 1
  const PT_GNU_STACK := 0x6474e551
  const RESERVE_BRK := 32 * 0x10_0000
  const TASK_UNMAPPED_BASE := 0x40_0000_0000

  // ---- Data ----

  datatype Prot = Prot(read: bool, write: bool, exec: bool)

  const PROT_NONE := Prot(false, false, false)
  const PROT_READ_WRITE := Prot(true, true, false)

  datatype Cell = Cell(value: Byte, prot: Prot)

  // What is mapped, byte by byte.
  type Space = map<Word, Cell>

  type File = f: seq<Byte> | |f| < MAX_OFFSET

  datatype Phdr = Phdr(kind: nat, flags: nat, offset: Word, vaddr: Word, filesz: Word, memsz: Word)

  // Loaded; -1 with a message; or a host fault.
  datatype Loading<+T> = Loaded(value: T) | Failed | Crashed

  // The memory and info->brk. The code and data bounds the segment loop also
  // records are read by nothing.
  datatype Layout = Layout(space: Space, brk: Word)

  // ---- Pages ----

  // ROUND_UP in target_ulong arithmetic.
  function RoundUp(x: Word): Word {
    var t := Plus(x, PAGE - 1);
    t - t % PAGE
  }

  function PageDown(x: nat): nat {
    x - x % PAGE
  }

  function PageUp(x: nat): nat {
    PageDown(x + PAGE - 1)
  }

  // ---- mmap and memset ----

  function FileByte(file: File, i: nat): Byte {
    if i < |file| then file[i] else 0
  }

  // mmap with MAP_FIXED: replaces whole pages. The host range is contiguous, so
  // guest addresses wrap, and the host refuses no range that is shorter than the
  // address space. A private file mapping is zero after the end of the file on
  // its last page, and has nothing beyond it.
  function HostMap(sp: Space, addr: Word, length: Word, prot: Prot, file: Option<File>, offset: Word): Option<Space> {
    var n := PageUp(length);
    if addr % PAGE != 0 || offset % PAGE != 0 || length == 0 || n >= TWO64 then None
    else if file.None? then
      Some(sp + map a: Word | 0 <= a < TWO64 && Covered(a, addr, n) :: Cell(0, prot))
    else if offset >= MAX_OFFSET then None
    else
      Some((map a: Word | a in sp && !Covered(a, addr, n) :: sp[a])
           + map a: Word | 0 <= a < TWO64 && Covered(a, addr, n) && PageDown(offset + Wrap(a - addr)) < |file.value|
             :: Cell(FileByte(file.value, offset + Wrap(a - addr)), prot))
  }

  predicate Writable(sp: Space, a: Word) {
    a in sp && sp[a].prot.write
  }

  // memset(p, 0, n)
  function Clear(sp: Space, from: Word, to: Word): (r: Loading<Space>)
    ensures !r.Failed?
  {
    if forall a: Word :: from <= a < to ==> Writable(sp, a) then
      Loaded(sp + map a: Word | from <= a < to && InRange(a, from, to) && a in sp :: Cell(0, sp[a].prot))
    else Crashed
  }

  // ---- One segment ----

  function ProtOf(ph: Phdr): Prot {
    var exec := ph.flags % 2 == 1;
    Prot(ph.flags / 4 % 2 == 1 || exec, ph.flags / 2 % 2 == 1, exec)
  }

  // The whole pages of zero_bss.
  function MapBss(sp: Space, aligned: Word, end: Word, prot: Prot): Option<Space> {
    if aligned < end then HostMap(sp, aligned, end - aligned, prot, None, 0) else Some(sp)
  }

  function ZeroBss(sp: Space, bss: Word, brk: Word, prot: Prot): Loading<Space> {
    var aligned := RoundUp(bss);
    match MapBss(sp, aligned, RoundUp(brk), prot)
    case None => Failed
    case Some(mapped) => if bss < aligned then Clear(mapped, bss, aligned) else Loaded(mapped)
  }

  function MapFilePart(sp: Space, file: File, ph: Phdr): Option<Space> {
    var po := ph.vaddr % PAGE;
    HostMap(sp, ph.vaddr - po, RoundUp(Plus(ph.filesz, po)), ProtOf(ph), Some(file), Wrap(ph.offset - po))
  }

  function MapEmptyPart(sp: Space, ph: Phdr): Option<Space> {
    var po := ph.vaddr % PAGE;
    HostMap(sp, ph.vaddr - po, RoundUp(Plus(ph.memsz, po)), ProtOf(ph), None, 0)
  }

  // The mappings made for one PT_LOAD header.
  function MapSegment(sp: Space, file: File, ph: Phdr): Loading<Space> {
    if ph.filesz != 0 then
      match MapFilePart(sp, file, ph)
      case None => Failed
      case Some(mapped) =>
        if ph.filesz < ph.memsz then
          ZeroBss(mapped, Plus(ph.vaddr, ph.filesz), Plus(ph.vaddr, ph.memsz), ProtOf(ph))
        else Loaded(mapped)
    else if ph.memsz != 0 then
      match MapEmptyPart(sp, ph)
      case None => Failed
      case Some(mapped) => Loaded(mapped)
    else Loaded(sp)
  }

  function Min(a: Word, b: Word): Word {
    if a < b then a else b
  }

  function Max(a: Word, b: Word): Word {
    if a > b then a else b
  }

  // An unreadable segment is refused, after it has been mapped.
  function LoadSegment(l: Layout, file: File, ph: Phdr): Loading<Layout> {
    match MapSegment(l.space, file, ph)
    case Failed => Failed
    case Crashed => Crashed
    case Loaded(s) =>
      if !ProtOf(ph).read then Failed
      else Loaded(Layout(s, Max(Plus(ph.vaddr, ph.memsz), l.brk)))
  }

  function LoadSegments(l: Layout, file: File, phs: seq<Phdr>): Loading<Layout>
    decreases phs
  {
    if phs == [] then Loaded(l)
    else if phs[0].kind != PT_LOAD then LoadSegments(l, file, phs[1..])
    else match LoadSegment(l, file, phs[0])
      case Failed => Failed
      case Crashed => Crashed
      case Loaded(next) => LoadSegments(next, file, phs[1..])
  }

  // ---- The whole image ----

  // The first header loop: lowest load address and highest byte.
  function Extent(lo: Word, hi: Word, phs: seq<Phdr>): (Word, Word)
    decreases phs
  {
    if phs == [] then (lo, hi)
    else if phs[0].kind != PT_LOAD then Extent(lo, hi, phs[1..])
    else Extent(Min(Wrap(phs[0].vaddr - phs[0].offset), lo),
                Max(Wrap(phs[0].vaddr + phs[0].memsz - 1), hi), phs[1..])
  }

  // The length of a range given by its first and last byte.
  function Span(first: Word, last: Word): Word {
    Wrap(last - first + 1)
  }

  function Reserve(sp: Space, phs: seq<Phdr>): Option<Space> {
    var (lo, hi) := Extent(TWO64 - 1, 0, phs);
    HostMap(sp, lo, Span(lo, Plus(hi, RESERVE_BRK)), PROT_NONE, None, 0)
  }

  function MapHeap(l: Layout, phs: seq<Phdr>): Option<Space> {
    var start := RoundUp(l.brk);
    HostMap(l.space, start, Span(start, Plus(Extent(TWO64 - 1, 0, phs).1, RESERVE_BRK)), PROT_READ_WRITE, None, 0)
  }

  // Reservation, segments, heap.
  function LoadImage(sp: Space, file: File, phs: seq<Phdr>): Loading<Layout> {
    match Reserve(sp, phs)
    case None => Failed
    case Some(reserved) =>
      match LoadSegments(Layout(reserved, 0), file, phs)
      case Failed => Failed
      case Crashed => Crashed
      case Loaded(l) =>
        match MapHeap(l, phs)
        case None => Failed
        case Some(s) => Loaded(l.(space := s))
  }

  // ---- Placement by mmap_find_vma, and the stack ----

  datatype Placed = Placed(space: Space, next: Word, at: Word)

  // mmap_find_vma: the next free address when none is asked for. next is
  // mmap_next_start.
  function FindVma(sp: Space, next: Word, addr: Word, length: Word): Option<Placed> {
    var at: Word := if addr == 0 then next else PageDown(addr);
    var rounded := RoundUp(length);
    match HostMap(sp, at, rounded, PROT_NONE, None, 0)
    case None => None
    case Some(s) => Some(Placed(s, if at == next && at >= TASK_UNMAPPED_BASE then Plus(next, rounded) else next, at))
  }

  // target_mmap without MAP_FIXED: always anonymous.
  function MapAnywhere(sp: Space, next: Word, addr: Word, length: Word, prot: Prot, offset: Word): Option<Placed> {
    match FindVma(sp, next, addr, length)
    case None => None
    case Some(found) =>
      match HostMap(found.space, found.at, length, prot, None, offset)
      case None => None
      case Some(s) => Some(found.(space := s))
  }

  // mprotect
  function Protect(sp: Space, addr: Word, length: Word, prot: Prot): Option<Space> {
    var end := addr + PageUp(length);
    if addr % PAGE != 0 || end > TWO64 || exists a: Word :: addr <= a < end && a !in sp then None
    else Some(sp + map a: Word | addr <= a < end && InRange(a, addr, end) && a in sp :: Cell(sp[a].value, prot))
  }

  // The last PT_GNU_STACK header decides.
  function ExecStack(exec: bool, phs: seq<Phdr>): bool
    decreases phs
  {
    if phs == [] then exec
    else ExecStack(if phs[0].kind == PT_GNU_STACK then phs[0].flags % 2 == 1 else exec, phs[1..])
  }

  // The stack, its guard page below it; at is where the guard page is.
  function MapStack(sp: Space, next: Word, size: Word, exec: bool): Option<Placed> {
    match MapAnywhere(sp, next, 0, Plus(size, PAGE), Prot(true, true, exec), 0)
    case None => None
    case Some(stack) =>
      match Protect(stack.space, stack.at, PAGE, PROT_NONE)
      case None => None
      case Some(s) => Some(stack.(space := s))
  }

  // The memory, the break, the next free address and bprm->p.
  datatype Process = Process(space: Space, brk: Word, next: Word, p: Word)

  // load_elf_binary up to the call of create_elf_tables.
  function LoadProcess(sp: Space, next: Word, file: File, phs: seq<Phdr>, stackSize: Word): Loading<Process> {
    match LoadImage(sp, file, phs)
    case Failed => Failed
    case Crashed => Crashed
    case Loaded(l) =>
      match MapStack(l.space, next, stackSize, ExecStack(false, phs))
      case None => Failed
      case Some(stack) =>
        Loaded(Process(stack.space, l.brk, stack.next, Wrap(stack.at + PAGE + stackSize - 8)))
  }

  // ---- The program break ----

  // do_brk: never below the initial break.
  function BreakAfter(floor: Word, request: Word): Word {
    if request < floor then floor else request
  }

  function Breaks(floor: Word, current: Word, requests: seq<Word>): Word
    decreases requests
  {
    if requests == [] then current else Breaks(floor, BreakAfter(floor, requests[0]), requests[1..])
  }
}
