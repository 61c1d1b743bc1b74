// The loaded program in numbers: which byte and which permissions every address
// has, from the fields of the ELF headers and without the loader's own
// functions and constants.
module LoadedBytes {
  import opened Words
  import opened Image
  import opened LoadedImage

  // ---- Segments ----

  // p_flags from its three defined bits and what stands above them.
  function FlagWord(r: bool, w: bool, x: bool, k: nat): nat {
    8 * k + (if r then 4 else 0) + (if w then 2 else 0) + (if x then 1 else 0)
  }

  lemma FlagBits(ph: Phdr, r: bool, w: bool, x: bool, k: nat)
    requires ph.flags == FlagWord(r, w, x, k)
    ensures PfR(ph) == r && PfW(ph) == w && PfX(ph) == x
    ensures Loadable(ph) <==>
      (r || x) && (ph.filesz == 0 || ph.filesz == ph.memsz || (ph.vaddr + ph.filesz) % 4096 == 0 || w)
  {
    var low := FlagWord(r, w, x, 0);
    LowBits(ph.flags, k, low);
    FlagTests(ph, low);
    hide PfR, PfW, PfX;
  }

  lemma FlagTests(ph: Phdr, low: nat)
    requires low < 8 && ph.flags % 8 == low && ph.flags % 4 == low % 4 && ph.flags % 2 == low % 2
    ensures PfR(ph) == (low >= 4) && PfW(ph) == (low % 4 >= 2) && PfX(ph) == (low % 2 == 1)
  {
  }

  // Address a holds value, with exactly these permissions.
  predicate ByteIs(sp: Space, a: Word, value: int, r: bool, w: bool, x: bool) {
    a in sp && sp[a].value == value && sp[a].prot.read == r && sp[a].prot.write == w && sp[a].prot.exec == x
  }

  // Byte j of a segment comes from the file, or is zero beyond p_filesz. It may
  // be read if PF_R or PF_X is set, written if PF_W is and executed if PF_X is.
  lemma SegmentByte(sp: Space, file: File, ph: Phdr, j: nat, r: bool, w: bool, x: bool, k: nat)
    requires SegmentOk(file, ph) && SegmentLoaded(sp, file, ph)
    requires ph.flags == FlagWord(r, w, x, k) && j < ph.memsz
    ensures ByteIs(sp, ph.vaddr + j, if j < ph.filesz then file[ph.offset + j] else 0, r || x, w, x)
  {
    FlagBits(ph, r, w, x, k);
    var a := ph.vaddr + j;
    assert a in sp && sp[a] == SegmentCell(file, ph, a);
  }

  // So it is for every byte of every PT_LOAD header after the segment loop.
  lemma LoadedByte(l: Layout, file: File, phs: seq<Phdr>, i: nat, j: nat, r: bool, w: bool, x: bool, k: nat)
    requires WellFormed(file, phs) && LoadSegments(l, file, phs).Loaded?
    requires i < |phs| && phs[i].kind == 1 && phs[i].flags == FlagWord(r, w, x, k) && j < phs[i].memsz
    ensures r || x
    ensures ByteIs(LoadSegments(l, file, phs).value.space, phs[i].vaddr + j,
                  if j < phs[i].filesz then file[phs[i].offset + j] else 0, r || x, w, x)
  {
    hide WellFormed, LoadSegments, SegmentOk, SegmentLoaded;
    SegmentsAreLoaded(l, file, phs);
    LoadsAreOk(file, phs);
    assert IsLoad(phs, i);
    FlagBits(phs[i], r, w, x, k);
    SegmentByte(LoadSegments(l, file, phs).value.space, file, phs[i], j, r, w, x, k);
  }

  // memset would have to write a page that may not be written.
  predicate TailFaults(ph: Phdr) {
    0 < ph.filesz < ph.memsz && (ph.vaddr + ph.filesz) % 4096 != 0 && !PfW(ph)
  }

  ghost predicate FirstBad(phs: seq<Phdr>, i: nat) {
    && i < |phs| && phs[i].kind == 1 && (TailFaults(phs[i]) || (!PfR(phs[i]) && !PfX(phs[i])))
    && forall j :: 0 <= j < i && phs[j].kind == 1 ==> !TailFaults(phs[j]) && (PfR(phs[j]) || PfX(phs[j]))
  }

  // The first segment that cannot be loaded decides: the host faults on it, or
  // else it is refused as unreadable.
  lemma {:induction false} BadSegmentDecides(l: Layout, file: File, phs: seq<Phdr>, i: nat)
    requires WellFormed(file, phs) && FirstBad(phs, i)
    ensures LoadSegments(l, file, phs) == if TailFaults(phs[i]) then Crashed else Failed
    decreases phs
  {
    hide WellFormed, MapSegment, SegmentOk, SegmentLoaded, SameOutsidePages, ProtOf, PfR, PfW, PfX;
    ProtBits(phs[0]);
    TailWellFormed(file, phs);
    if phs[0].kind == PT_LOAD {
      HeadIsOk(file, phs);
      SegmentIsMapped(l.space, file, phs[0]);
      TailsAgree(file, phs[0]);
    }
    if i > 0 {
      var next := if phs[0].kind == PT_LOAD then LoadSegment(l, file, phs[0]).value else l;
      assert forall j :: 0 <= j < i - 1 ==> phs[1..][j] == phs[j + 1];
      BadSegmentDecides(next, file, phs[1..], i - 1);
    }
  }

  lemma TailsAgree(file: File, ph: Phdr)
    requires SegmentOk(file, ph)
    ensures TailFaults(ph) <==> !TailWritable(ph)
  {
  }

  // Without such a segment all are loaded.
  lemma GoodSegmentsLoad(l: Layout, file: File, phs: seq<Phdr>)
    requires WellFormed(file, phs)
    ensures LoadSegments(l, file, phs).Loaded? <==> forall i: nat :: !FirstBad(phs, i)
  {
    hide WellFormed, LoadSegments, SegmentOk, TailFaults, TailWritable, PfR, PfX;
    SegmentsAreLoaded(l, file, phs);
    LoadsAreOk(file, phs);
    forall i | IsLoad(phs, i) ensures TailFaults(phs[i]) <==> !TailWritable(phs[i]) {
      TailsAgree(file, phs[i]);
    }
    if !AllLoadable(phs) {
      var i :| IsLoad(phs, i) && !Loadable(phs[i]);
      var first := FindBad(phs, i);
      assert FirstBad(phs, first);
    } else {
      assert forall i: nat :: i < |phs| && phs[i].kind == 1 ==> IsLoad(phs, i) && Loadable(phs[i]);
    }
  }

  // The least bad index at or below i.
  ghost function FindBad(phs: seq<Phdr>, i: nat): (r: nat)
    requires i < |phs| && phs[i].kind == 1 && (TailFaults(phs[i]) || (!PfR(phs[i]) && !PfX(phs[i])))
    ensures FirstBad(phs, r)
  {
    if j: nat :| j < i && phs[j].kind == 1 && (TailFaults(phs[j]) || (!PfR(phs[j]) && !PfX(phs[j]))) then
      FindBad(phs, j)
    else i
  }

  // ---- The executable stack ----

  // The last PT_GNU_STACK header.
  ghost predicate LastStack(phs: seq<Phdr>, i: nat) {
    && i < |phs| && phs[i].kind == 0x6474_e551
    && forall j :: i < j < |phs| ==> phs[j].kind != 0x6474_e551
  }

  // It decides by its PF_X whether the stack is executable; without one it is
  // not.
  lemma {:induction false} StackFlag(exec: bool, phs: seq<Phdr>)
    ensures forall i: nat :: LastStack(phs, i) ==> ExecStack(exec, phs) == PfX(phs[i])
    ensures (forall i :: 0 <= i < |phs| ==> phs[i].kind != 0x6474_e551) ==> ExecStack(exec, phs) == exec
    decreases phs
  {
    hide PfX;
    if phs != [] {
      var rest := phs[1..];
      var next := if phs[0].kind == PT_GNU_STACK then phs[0].flags % 2 == 1 else exec;
      StackFlag(next, rest);
      assert forall j :: 0 < j < |phs| ==> phs[j] == rest[j - 1];
      PfXIs(phs[0]);
      forall i: nat | LastStack(phs, i) ensures ExecStack(exec, phs) == PfX(phs[i]) {
        assert i > 0 ==> LastStack(rest, i - 1);
      }
    }
  }

  lemma PfXIs(ph: Phdr)
    ensures PfX(ph) == (ph.flags % 2 == 1)
  {
  }

  // ---- The whole process ----

  // The heap: 32 MiB of zeros from the page above the break.
  predicate HeapBytes(sp: Space, brk: nat) {
    var start := (brk + 4095) / 4096 * 4096;
    forall a: Word :: start <= a < start + 0x200_0000 ==> ByteIs(sp, a, 0, true, true, false)
  }

  // size bytes of zeros above a page without access.
  predicate StackBytes(sp: Space, at: nat, size: nat, exec: bool) {
    && (forall a: Word :: at <= a < at + 4096 ==>
          a in sp && !sp[a].prot.read && !sp[a].prot.write && !sp[a].prot.exec)
    && forall a: Word :: at + 4096 <= a < at + 4096 + size ==> ByteIs(sp, a, 0, true, true, exec)
  }

  // The break is the highest end of a segment.
  ghost predicate HighestEnd(brk: nat, phs: seq<Phdr>) {
    && (forall i :: 0 <= i < |phs| && phs[i].kind == 1 ==> phs[i].vaddr + phs[i].memsz <= brk)
    && exists i :: 0 <= i < |phs| && phs[i].kind == 1 && phs[i].vaddr + phs[i].memsz == brk
  }

  // What a fresh loader leaves, but for the segments.
  ghost predicate InNumbers(p: Process, phs: seq<Phdr>, size: nat) {
    && HighestEnd(p.brk, phs)
    && StackBytes(p.space, 0x40_0000_0000, size, ExecStack(false, phs))
    && p.p == 0x40_0000_1000 + size - 8
    && p.next % 4096 == 0 && 0x40_0000_1000 + size <= p.next < 0x40_0000_2000 + size
    && (p.brk + 0x200_1000 <= 0x40_0000_0000 || p.next <= p.brk ==> HeapBytes(p.space, p.brk))
  }

  lemma ProcessInNumbers(p: Process, file: File, phs: seq<Phdr>, size: Word)
    requires WellFormed(file, phs) && SomeLoad(phs)
    requires ProcessMade(p, file, phs, 0x40_0000_0000, size)
    ensures InNumbers(p, phs, size)
  {
    hide WellFormed, TopOf, SomeLoad, SegmentLoaded, Spared, ExecStack, PageDown;
    TopIsMaximum(0, phs);
    LoadsAreOk(file, phs);
    PageFacts(size + PAGE);
    PageFacts(p.brk);
    assert forall i :: 0 <= i < |phs| && phs[i].kind == 1 ==> IsLoad(phs, i);
    BreakIsReached(file, phs);
    HeapStart(p.brk);
  }

  lemma HeapStart(x: nat)
    ensures PageUp(x) == (x + 4095) / 4096 * 4096
  {
  }

  lemma BreakIsReached(file: File, phs: seq<Phdr>)
    requires WellFormed(file, phs) && SomeLoad(phs)
    ensures exists i :: 0 <= i < |phs| && phs[i].kind == 1 && phs[i].vaddr + phs[i].memsz == TopOf(0, phs)
  {
    hide WellFormed, TopOf;
    TopIsMaximum(0, phs);
    LoadsAreOk(file, phs);
    var i :| IsLoad(phs, i);
    assert 0 < phs[i].vaddr + phs[i].memsz;
  }

  // ROUND_UP gives the least multiple of 4096 that is not below its argument,
  // and 0 where that would be 2^64.
  lemma RoundUpInNumbers(x: Word)
    ensures RoundUp(x) == (x + 4095) / 4096 * 4096 % 0x1_0000_0000_0000_0000
  {
  }

  // Between the segments the reservation stays closed.
  lemma GapsAreClosed(sp: Space, file: File, phs: seq<Phdr>, a: Word)
    requires WellFormed(file, phs) && SomeLoad(phs) && LoadImage(sp, file, phs).Loaded?
    requires LoadAddr(phs) <= a < TopOf(0, phs) && !InSomePages(phs, a)
    ensures ByteIs(LoadImage(sp, file, phs).value.space, a, 0, false, false, false)
  {
    hide WellFormed, TopOf, Extent, LoadSegments, Reserve, MapHeap, AllLoadable, Reservable, SomeLoad, PageUp, LoadAddr,
      InSomePages;
    RangeIsReserved(sp, file, phs);
    ImageIsLoaded(sp, file, phs);
    var start := Layout(Reserve(sp, phs).value, 0);
    BrkIsTop(start, file, phs);
    OthersUntouched(start, file, phs);
    PageFacts(TopOf(0, phs));
    var l := LoadSegments(start, file, phs).value;
    HeapIsMapped(l, file, phs);
    assert SameAt(start.space, l.space, a) && SameAt(l.space, MapHeap(l, phs).value, a);
  }

  // ---- Mappings with an address ----

  // A mapping asked for at an address without MAP_FIXED goes to its page, over
  // whatever is there; mmap_next_start moves only if it is that page.
  lemma RequestedPlace(sp: Space, next: Word, addr: Word, n: Word, prot: Prot)
    requires addr != 0 && 0 < n && addr + n + 0x2000 <= TWO64
    ensures MapAnywhere(sp, next, addr, n, prot, 0).Some?
    ensures var r := MapAnywhere(sp, next, addr, n, prot, 0).value;
      && r.at == addr / 4096 * 4096
      && (next != r.at || next < 0x40_0000_0000 ==> r.next == next)
      && forall a: Word :: r.at <= a < r.at + n ==> a in r.space && r.space[a] == Cell(0, prot)
  {
    hide HostMap, PageUp, RoundUp, SameOutside;
    var at := PageDown(addr);
    RoundUpIsPageUp(n);
    PageFacts(addr);
    PageFacts(n);
    PageFacts(PageUp(n));
    AnonymousMap(sp, at, PageUp(n), PROT_NONE);
    AnonymousMap(HostMap(sp, at, PageUp(n), PROT_NONE, None, 0).value, at, n, prot);
  }

  // ---- The program break ----

  // After any calls of do_brk the break is the last address asked for, or the
  // start of the heap if that lies below it.
  lemma LastRequestDecides(floor: Word, current: Word, requests: seq<Word>)
    requires floor <= current && requests != []
    ensures var last := requests[|requests| - 1];
      && (last >= floor ==> Breaks(floor, current, requests) == last)
      && (last < floor ==> Breaks(floor, current, requests) == floor)
  {
    hide Breaks;
    BreakIsLastRequest(floor, current, requests);
  }
}
