// What the loader leaves in memory: every segment in place, the heap above
// them, and the exact condition for getting there.
module LoadedImage {
  import Bits
  import opened Words
  import opened Image

  // ---- Hypotheses on the program headers ----

  function PageStart(ph: Phdr): nat {
    PageDown(ph.vaddr)
  }

  function PageEnd(ph: Phdr): nat {
    PageUp(ph.vaddr + ph.memsz)
  }

  // A PT_LOAD header that follows the gABI and whose addresses do not wrap.
  predicate SegmentOk(file: File, ph: Phdr) {
    && ph.vaddr % PAGE == ph.offset % PAGE
    && ph.filesz <= ph.memsz
    && ph.offset + ph.filesz <= |file|
    && 0 < ph.vaddr + ph.memsz
    && ph.vaddr + ph.memsz + RESERVE_BRK + PAGE <= TWO64
  }

  predicate InPages(ph: Phdr, a: Word) {
    ph.memsz != 0 && PageStart(ph) <= a < PageEnd(ph)
  }

  predicate PagesApart(p: Phdr, q: Phdr) {
    p.memsz == 0 || q.memsz == 0 || PageEnd(p) <= PageStart(q) || PageEnd(q) <= PageStart(p)
  }

  predicate IsLoad(phs: seq<Phdr>, i: int) {
    0 <= i < |phs| && phs[i].kind == PT_LOAD
  }

  ghost predicate WellFormed(file: File, phs: seq<Phdr>) {
    && (forall i :: IsLoad(phs, i) ==> SegmentOk(file, phs[i]))
    && (forall i, j :: IsLoad(phs, i) && IsLoad(phs, j) && i != j ==> PagesApart(phs[i], phs[j]))
  }

  // PF_R, PF_W and PF_X in p_flags.
  predicate PfR(ph: Phdr) {
    ph.flags % 8 >= 4
  }

  predicate PfW(ph: Phdr) {
    ph.flags % 4 >= 2
  }

  predicate PfX(ph: Phdr) {
    ph.flags % 2 == 1
  }

  // What may be done to a segment: what may be executed may also be read.
  function Asked(ph: Phdr): Prot {
    Prot(PfR(ph) || PfX(ph), PfW(ph), PfX(ph))
  }

  lemma ProtBits(ph: Phdr)
    ensures ProtOf(ph) == Asked(ph)
  {
    LowBits(ph.flags, ph.flags / 8, ph.flags % 8);
  }

  // Bits 1 and 2 of x, from above and from below.
  lemma LowBits(x: nat, k: nat, low: nat)
    requires x == 8 * k + low && low < 8
    ensures x / 4 % 2 == 1 <==> low >= 4
    ensures x / 2 % 2 == 1 <==> low % 4 >= 2
    ensures x % 8 == low && x % 4 == low % 4 && x % 2 == low % 2
  {
    Bits.DivModUnique(x, 8, k, low);
    Bits.DivModUnique(x, 4, 2 * k + low / 4, low % 4);
    Bits.DivModUnique(2 * k + low / 4, 2, k, low / 4);
    Bits.DivModUnique(x, 2, 4 * k + low / 2, low % 2);
    Bits.DivModUnique(4 * k + low / 2, 2, 2 * k + low / 4, low / 2 % 2);
  }

  // memset writes the rest of the page on which the file part ends.
  predicate TailWritable(ph: Phdr) {
    ph.filesz == 0 || ph.filesz == ph.memsz || (ph.vaddr + ph.filesz) % PAGE == 0 || PfW(ph)
  }

  predicate Loadable(ph: Phdr) {
    (PfR(ph) || PfX(ph)) && TailWritable(ph)
  }

  // ---- Results ----

  predicate InSegment(ph: Phdr, a: Word) {
    ph.vaddr <= a < ph.vaddr + ph.memsz
  }

  // What the program headers ask for at address a: a byte of the file part, or
  // zero beyond it.
  function SegmentCell(file: File, ph: Phdr, a: Word): Cell
    requires InSegment(ph, a)
  {
    Cell(if a - ph.vaddr < ph.filesz then FileByte(file, ph.offset + (a - ph.vaddr)) else 0, Asked(ph))
  }

  predicate SegmentLoaded(sp: Space, file: File, ph: Phdr) {
    forall a: Word :: ph.vaddr <= a < ph.vaddr + ph.memsz ==>
      a in sp && sp[a] == SegmentCell(file, ph, a)
  }

  ghost predicate SameOutside(s: Space, t: Space, from: nat, to: nat) {
    forall a: Word :: a < from || to <= a ==> SameAt(s, t, a)
  }

  predicate Zeros(sp: Space, from: nat, to: nat, prot: Prot) {
    forall a: Word :: from <= a < to ==> a in sp && sp[a] == Cell(0, prot)
  }

  // ---- Pages ----

  lemma PageFacts(x: nat)
    ensures PageDown(x) % PAGE == 0 && PageDown(x) <= x < PageDown(x) + PAGE
    ensures PageUp(x) % PAGE == 0 && x <= PageUp(x) < x + PAGE
    ensures x % PAGE == 0 ==> PageDown(x) == x && PageUp(x) == x
  {
  }

  lemma PageShift(base: nat, x: nat)
    requires base % PAGE == 0
    ensures PageDown(base + x) == base + PageDown(x) && PageUp(base + x) == base + PageUp(x)
  {
    assert (base + x) % PAGE == x % PAGE;
    assert (base + x + PAGE - 1) % PAGE == (x + PAGE - 1) % PAGE;
  }

  lemma PageMonotone(x: nat, y: nat)
    requires x <= y
    ensures PageDown(x) <= PageDown(y) && PageUp(x) <= PageUp(y)
    ensures x <= PageDown(y) ==> PageUp(x) <= PageDown(y)
  {
  }

  lemma RoundUpIsPageUp(x: Word)
    requires x + PAGE <= TWO64
    ensures RoundUp(x) == PageUp(x)
  {
    assert Plus(x, PAGE - 1) == x + PAGE - 1;
  }

  // Short of wrapping, ROUND_UP gives the least page boundary that is not below
  // its argument.
  lemma RoundUpIsLeast(x: Word, y: nat)
    requires x + PAGE <= TWO64
    ensures RoundUp(x) % PAGE == 0 && x <= RoundUp(x)
    ensures y % PAGE == 0 && x <= y ==> RoundUp(x) <= y
  {
    RoundUpIsPageUp(x);
  }

  // ---- mmap and memset ----

  lemma AnonymousMapWraps(sp: Space, addr: Word, length: Word, prot: Prot, a: Word)
    requires addr % PAGE == 0 && 0 < length && PageUp(length) < TWO64
    ensures HostMap(sp, addr, length, prot, None, 0).Some?
    ensures var t := HostMap(sp, addr, length, prot, None, 0).value;
            if Covered(a, addr, PageUp(length)) then a in t && t[a] == Cell(0, prot) else SameAt(sp, t, a)
  {
    hide PageUp, Covered;
  }

  // Below the top of the address space nothing wraps.
  lemma CoveredFlat(a: Word, addr: Word, n: nat)
    requires addr + n <= TWO64
    ensures Covered(a, addr, n) <==> addr <= a < addr + n
    ensures addr <= a ==> Wrap(a - addr) == a - addr
  {
    assert Wrap(a - addr) == if a >= addr then a - addr else a - addr + TWO64;
  }

  lemma AnonymousMap(sp: Space, addr: Word, length: Word, prot: Prot)
    requires addr % PAGE == 0 && 0 < length && PageUp(length) < TWO64 && addr + PageUp(length) <= TWO64
    ensures HostMap(sp, addr, length, prot, None, 0).Some?
    ensures Zeros(HostMap(sp, addr, length, prot, None, 0).value, addr, addr + PageUp(length), prot)
    ensures SameOutside(sp, HostMap(sp, addr, length, prot, None, 0).value, addr, addr + PageUp(length))
  {
    hide PageUp, HostMap, Covered;
    AnonymousMapWraps(sp, addr, length, prot, 0);
    forall a: Word
      ensures var t := HostMap(sp, addr, length, prot, None, 0).value;
        if addr <= a < addr + PageUp(length) then a in t && t[a] == Cell(0, prot) else SameAt(sp, t, a)
    {
      AnonymousMapWraps(sp, addr, length, prot, a);
      CoveredFlat(a, addr, PageUp(length));
    }
  }

  predicate FileCells(sp: Space, file: File, addr: nat, end: nat, prot: Prot, offset: nat) {
    forall a: Word :: addr <= a < end ==> a in sp && sp[a] == Cell(FileByte(file, offset + (a - addr)), prot)
  }

  // The first n bytes of a private file mapping, rounded up to whole pages.
  lemma FileMap(sp: Space, file: File, addr: Word, n: nat, prot: Prot, offset: Word)
    requires addr % PAGE == 0 && offset % PAGE == 0
    requires 0 < n && addr + n + PAGE <= TWO64 && offset + n <= |file|
    ensures HostMap(sp, addr, PageUp(n), prot, Some(file), offset).Some?
    ensures var t := HostMap(sp, addr, PageUp(n), prot, Some(file), offset).value;
            && FileCells(t, file, addr, addr + PageUp(n), prot, offset)
            && SameOutside(sp, t, addr, addr + PageUp(n))
  {
    hide PageUp, PageDown, FileByte, HostMap;
    PageFacts(n);
    PageFacts(PageUp(n));
    FileMapAt(sp, file, addr, PageUp(n), n, prot, offset, 0);
    forall a: Word
      ensures var t := HostMap(sp, addr, PageUp(n), prot, Some(file), offset).value;
        if addr <= a < addr + PageUp(n) then a in t && t[a] == Cell(FileByte(file, offset + (a - addr)), prot)
        else SameAt(sp, t, a)
    {
      FileMapAt(sp, file, addr, PageUp(n), n, prot, offset, a);
    }
  }

  lemma FileMapAt(sp: Space, file: File, addr: Word, length: Word, n: nat, prot: Prot, offset: Word, a: Word)
    requires addr % PAGE == 0 && offset % PAGE == 0 && 0 < length == PageUp(length) == PageUp(n)
    requires 0 < n && addr + length <= TWO64 && length < TWO64 && offset + n <= |file|
    ensures HostMap(sp, addr, length, prot, Some(file), offset).Some?
    ensures var t := HostMap(sp, addr, length, prot, Some(file), offset).value;
      if addr <= a < addr + length then a in t && t[a] == Cell(FileByte(file, offset + (a - addr)), prot)
      else SameAt(sp, t, a)
  {
    hide PageUp, PageDown, FileByte, Covered;
    CoveredFlat(a, addr, length);
    if addr <= a < addr + length {
      PageOfFile(offset, a - addr, n);
    }
  }

  lemma PageOfFile(base: nat, k: nat, n: nat)
    requires base % PAGE == 0 && 0 < n && k < PageUp(n)
    ensures PageDown(base + k) < base + n
  {
    PageShift(base, k);
  }

  // ---- zero_bss ----

  lemma ClearTail(sp: Space, from: Word, to: Word, prot: Prot)
    requires from < to && forall a: Word :: from <= a < to ==> a in sp && sp[a].prot == prot
    ensures prot.write <==> Clear(sp, from, to).Loaded?
    ensures !prot.write ==> Clear(sp, from, to).Crashed?
    ensures prot.write ==> var t := Clear(sp, from, to).value; Zeros(t, from, to, prot) && SameOutside(sp, t, from, to)
  {
    assert Writable(sp, from) <==> prot.write;
  }

  lemma BssPages(sp: Space, aligned: Word, end: Word, prot: Prot)
    requires aligned % PAGE == 0 && end % PAGE == 0 && aligned <= end
    ensures MapBss(sp, aligned, end, prot).Some?
    ensures Zeros(MapBss(sp, aligned, end, prot).value, aligned, end, prot)
    ensures SameOutside(sp, MapBss(sp, aligned, end, prot).value, aligned, end)
  {
    hide HostMap, PageUp;
    if aligned < end {
      PageFacts(end - aligned);
      AnonymousMap(sp, aligned, end - aligned, prot);
    }
  }

  lemma ZerosJoin(sp: Space, mapped: Space, t: Space, bss: Word, aligned: Word, end: Word, prot: Prot)
    requires bss <= aligned <= end
    requires Zeros(mapped, aligned, end, prot) && SameOutside(sp, mapped, aligned, end)
    requires Zeros(t, bss, aligned, prot) && SameOutside(mapped, t, bss, aligned)
    ensures Zeros(t, bss, end, prot) && SameOutside(sp, t, bss, end)
  {
    forall a: Word | aligned <= a < end ensures a in t && t[a] == Cell(0, prot) {
      assert SameAt(mapped, t, a);
    }
    forall a: Word | a < bss || end <= a ensures SameAt(sp, t, a) {
      assert SameAt(sp, mapped, a) && SameAt(mapped, t, a);
    }
  }

  lemma BssIsZeroed(sp: Space, bss: Word, brk: Word, prot: Prot)
    requires bss < brk && brk + PAGE <= TWO64
    requires forall a: Word :: bss <= a < PageUp(bss) ==> a in sp && sp[a].prot == prot
    ensures bss % PAGE != 0 && !prot.write ==> ZeroBss(sp, bss, brk, prot).Crashed?
    ensures bss % PAGE == 0 || prot.write ==>
      && ZeroBss(sp, bss, brk, prot).Loaded?
      && Zeros(ZeroBss(sp, bss, brk, prot).value, bss, PageUp(brk), prot)
      && SameOutside(sp, ZeroBss(sp, bss, brk, prot).value, bss, PageUp(brk))
  {
    hide HostMap, Clear, Zeros, MapBss, PageUp, PageDown, RoundUp;
    RoundUpIsPageUp(brk);
    RoundUpIsPageUp(bss);
    PageFacts(brk);
    PageFacts(bss);
    PageMonotone(bss, brk);
    var aligned, end := PageUp(bss), PageUp(brk);
    BssPages(sp, aligned, end, prot);
    var mapped := MapBss(sp, aligned, end, prot).value;
    if bss < aligned {
      forall a: Word | bss <= a < aligned ensures a in mapped && mapped[a].prot == prot {
        assert SameAt(sp, mapped, a);
      }
      ClearTail(mapped, bss, aligned, prot);
      if prot.write {
        ZerosJoin(sp, mapped, Clear(mapped, bss, aligned).value, bss, aligned, end, prot);
      }
    }
  }

  // ---- One segment ----

  ghost predicate SameOutsidePages(s: Space, t: Space, ph: Phdr) {
    forall a: Word :: !InPages(ph, a) ==> SameAt(s, t, a)
  }

  // The file part of a segment, with the rest of its pages.
  predicate FilePart(sp: Space, file: File, ph: Phdr) {
    forall a: Word :: PageStart(ph) <= a < PageUp(ph.vaddr + ph.filesz) ==>
      && a in sp && sp[a].prot == Asked(ph)
      && (ph.vaddr <= a ==> sp[a].value == FileByte(file, ph.offset + (a - ph.vaddr)))
  }

  // The page arithmetic of the file part.
  lemma FilePartPages(file: File, ph: Phdr)
    requires SegmentOk(file, ph) && 0 < ph.filesz
    ensures var po := ph.vaddr % PAGE;
            && ph.offset >= po && (ph.offset - po) % PAGE == 0 && PageStart(ph) == ph.vaddr - po
            && PageStart(ph) + PageUp(ph.filesz + po) == PageUp(ph.vaddr + ph.filesz)
            && PageUp(ph.filesz + po) < TWO64
            && RoundUp(Plus(ph.filesz, po)) == PageUp(ph.filesz + po)
            && Wrap(ph.offset - po) == ph.offset - po
  {
    hide PageUp, RoundUp;
    var po := ph.vaddr % PAGE;
    PageFacts(ph.vaddr);
    PageFacts(ph.filesz + po);
    PageShift(ph.vaddr - po, ph.filesz + po);
    RoundUpIsPageUp(ph.filesz + po);
  }

  // The call of target_mmap for the file part, with its rounding worked out.
  lemma FilePartCall(sp: Space, file: File, ph: Phdr)
    requires SegmentOk(file, ph) && 0 < ph.filesz
    ensures var po := ph.vaddr % PAGE;
            && ph.offset >= po && (ph.offset - po) % PAGE == 0 && PageStart(ph) == ph.vaddr - po
            && PageStart(ph) + PageUp(ph.filesz + po) == PageUp(ph.vaddr + ph.filesz)
            && PageUp(ph.filesz + po) < TWO64
            && MapFilePart(sp, file, ph)
               == HostMap(sp, PageStart(ph), PageUp(ph.filesz + po), Asked(ph), Some(file), ph.offset - po)
  {
    hide HostMap, PageUp, PageDown, RoundUp, Plus, Wrap, ProtOf, Asked;
    ProtBits(ph);
    FilePartPages(file, ph);
  }

  lemma CellsArePart(sp: Space, file: File, ph: Phdr)
    requires SegmentOk(file, ph) && ph.offset >= ph.vaddr % PAGE
    requires FileCells(sp, file, PageStart(ph), PageUp(ph.vaddr + ph.filesz), Asked(ph), ph.offset - ph.vaddr % PAGE)
    ensures FilePart(sp, file, ph)
  {
    hide FileByte, PageUp;
  }

  lemma FilePartIsMapped(sp: Space, file: File, ph: Phdr)
    requires SegmentOk(file, ph) && 0 < ph.filesz
    ensures MapFilePart(sp, file, ph).Some?
    ensures FilePart(MapFilePart(sp, file, ph).value, file, ph)
    ensures SameOutside(sp, MapFilePart(sp, file, ph).value, PageStart(ph), PageUp(ph.vaddr + ph.filesz))
  {
    hide HostMap, MapFilePart, PageUp, PageDown, SameOutside, FilePart, FileCells;
    var po := ph.vaddr % PAGE;
    FilePartCall(sp, file, ph);
    PageFacts(ph.vaddr);
    FileMap(sp, file, PageStart(ph), ph.filesz + po, Asked(ph), ph.offset - po);
    CellsArePart(MapFilePart(sp, file, ph).value, file, ph);
  }

  // The call of target_mmap for a segment without file part.
  lemma EmptyPartCall(sp: Space, ph: Phdr)
    requires ph.vaddr + ph.memsz + PAGE <= TWO64 && 0 < ph.memsz
    ensures var n := PageUp(ph.memsz + ph.vaddr % PAGE);
            && 0 < n < TWO64 && PageUp(n) == n && PageStart(ph) % PAGE == 0 && PageStart(ph) + n == PageEnd(ph) <= TWO64
            && MapEmptyPart(sp, ph) == HostMap(sp, PageStart(ph), n, Asked(ph), None, 0)
  {
    hide HostMap, PageUp, RoundUp, ProtOf, Asked, PageDown, Plus;
    ProtBits(ph);
    StartOfPage(ph.vaddr);
    EmptyPartPages(ph);
  }

  lemma EmptyPartPages(ph: Phdr)
    requires ph.vaddr + ph.memsz + PAGE <= TWO64 && 0 < ph.memsz
    ensures var n := PageUp(ph.memsz + ph.vaddr % PAGE);
            && 0 < n < TWO64 && PageUp(n) == n && PageStart(ph) % PAGE == 0 && PageStart(ph) + n == PageEnd(ph) <= TWO64
            && RoundUp(Plus(ph.memsz, ph.vaddr % PAGE)) == n
  {
    hide PageUp, PageDown, RoundUp, Wrap;
    var n := ph.memsz + ph.vaddr % PAGE;
    SmallWord(n);
    PageFacts(ph.vaddr);
    PageFacts(n);
    PageFacts(PageUp(n));
    PageFacts(ph.vaddr + ph.memsz);
    StartOfPage(ph.vaddr);
    PageShift(PageStart(ph), n);
    RoundUpIsPageUp(n);
  }

  lemma StartOfPage(x: nat)
    ensures PageDown(x) == x - x % PAGE
  {
  }

  lemma EmptyPartIsMapped(sp: Space, ph: Phdr)
    requires ph.vaddr + ph.memsz + PAGE <= TWO64 && 0 < ph.memsz
    ensures MapEmptyPart(sp, ph).Some?
    ensures Zeros(MapEmptyPart(sp, ph).value, PageStart(ph), PageEnd(ph), Asked(ph))
    ensures SameOutside(sp, MapEmptyPart(sp, ph).value, PageStart(ph), PageEnd(ph))
  {
    hide HostMap, PageUp, PageDown, Zeros, SameOutside, MapEmptyPart, Asked;
    EmptyPartCall(sp, ph);
    AnonymousMap(sp, PageStart(ph), PageUp(ph.memsz + ph.vaddr % PAGE), Asked(ph));
  }

  lemma FileOnly(s: Space, t: Space, file: File, ph: Phdr)
    requires SegmentOk(file, ph) && 0 < ph.filesz == ph.memsz
    requires FilePart(t, file, ph) && SameOutside(s, t, PageStart(ph), PageEnd(ph))
    ensures SegmentLoaded(t, file, ph) && SameOutsidePages(s, t, ph)
  {
    hide FileByte, PageDown, PageUp, SameAt;
    PageFacts(ph.vaddr);
    PageFacts(ph.vaddr + ph.memsz);
  }

  lemma FileThenZeros(s: Space, mapped: Space, t: Space, file: File, ph: Phdr)
    requires SegmentOk(file, ph) && 0 < ph.filesz < ph.memsz
    requires FilePart(mapped, file, ph) && SameOutside(s, mapped, PageStart(ph), PageUp(ph.vaddr + ph.filesz))
    requires Zeros(t, ph.vaddr + ph.filesz, PageEnd(ph), Asked(ph))
    requires SameOutside(mapped, t, ph.vaddr + ph.filesz, PageEnd(ph))
    ensures SegmentLoaded(t, file, ph) && SameOutsidePages(s, t, ph)
  {
    hide FileByte, PageDown, PageUp;
    PageFacts(ph.vaddr);
    PageFacts(ph.vaddr + ph.filesz);
    PageFacts(ph.vaddr + ph.memsz);
    PageMonotone(ph.vaddr + ph.filesz, ph.vaddr + ph.memsz);
    forall a: Word | ph.vaddr <= a < ph.vaddr + ph.filesz
      ensures a in t && t[a] == Cell(FileByte(file, ph.offset + (a - ph.vaddr)), Asked(ph))
    {
      assert SameAt(mapped, t, a);
    }
    forall a: Word | !InPages(ph, a) ensures SameAt(s, t, a) {
      assert SameAt(s, mapped, a) && SameAt(mapped, t, a);
    }
  }

  lemma ZerosOnly(s: Space, t: Space, file: File, ph: Phdr)
    requires SegmentOk(file, ph) && 0 == ph.filesz < ph.memsz
    requires Zeros(t, PageStart(ph), PageEnd(ph), Asked(ph)) && SameOutside(s, t, PageStart(ph), PageEnd(ph))
    ensures SegmentLoaded(t, file, ph) && SameOutsidePages(s, t, ph)
  {
    hide FileByte, PageDown, PageUp, SameAt;
    PageFacts(ph.vaddr);
    PageFacts(ph.vaddr + ph.memsz);
  }

  lemma SegmentIsMapped(sp: Space, file: File, ph: Phdr)
    requires SegmentOk(file, ph)
    ensures !TailWritable(ph) ==> MapSegment(sp, file, ph).Crashed?
    ensures TailWritable(ph) ==>
      && MapSegment(sp, file, ph).Loaded?
      && SegmentLoaded(MapSegment(sp, file, ph).value, file, ph)
      && SameOutsidePages(sp, MapSegment(sp, file, ph).value, ph)
  {
    hide ZeroBss, MapFilePart, MapEmptyPart, PageUp, PageDown, Zeros, SegmentLoaded, SameOutside, SameOutsidePages,
      FileByte, ProtOf;
    var ef, em := ph.vaddr + ph.filesz, ph.vaddr + ph.memsz;
    PageMonotone(ef, em);
    ProtBits(ph);
    if ph.filesz != 0 {
      FilePartIsMapped(sp, file, ph);
      var mapped := MapFilePart(sp, file, ph).value;
      if ph.filesz < ph.memsz {
        PageFacts(ph.vaddr);
        BssIsZeroed(mapped, ef, em, Asked(ph));
        if TailWritable(ph) {
          FileThenZeros(sp, mapped, ZeroBss(mapped, ef, em, Asked(ph)).value, file, ph);
        }
      } else {
        FileOnly(sp, mapped, file, ph);
      }
    } else if ph.memsz != 0 {
      EmptyPartIsMapped(sp, ph);
      ZerosOnly(sp, MapEmptyPart(sp, ph).value, file, ph);
    } else {
      NothingToMap(sp, file, ph);
    }
  }

  lemma NothingToMap(sp: Space, file: File, ph: Phdr)
    requires ph.memsz == 0
    ensures SegmentLoaded(sp, file, ph) && SameOutsidePages(sp, sp, ph)
  {
  }

  // ---- All segments ----

  ghost predicate AllLoadable(phs: seq<Phdr>) {
    forall i :: IsLoad(phs, i) ==> Loadable(phs[i])
  }

  ghost predicate AllInPlace(sp: Space, file: File, phs: seq<Phdr>) {
    forall i :: IsLoad(phs, i) ==> SegmentLoaded(sp, file, phs[i])
  }

  ghost predicate InSomePages(phs: seq<Phdr>, a: Word) {
    exists i :: IsLoad(phs, i) && InPages(phs[i], a)
  }

  ghost predicate OnlyInPages(s: Space, t: Space, phs: seq<Phdr>) {
    forall a: Word :: !InSomePages(phs, a) ==> SameAt(s, t, a)
  }

  // The highest segment end, or from.
  function TopOf(from: nat, phs: seq<Phdr>): nat
    decreases phs
  {
    if phs == [] then from
    else if phs[0].kind != PT_LOAD then TopOf(from, phs[1..])
    else
      var end := phs[0].vaddr + phs[0].memsz;
      TopOf(if end > from then end else from, phs[1..])
  }

  lemma TailIsLoad(phs: seq<Phdr>)
    requires phs != []
    ensures forall i :: IsLoad(phs[1..], i) ==> IsLoad(phs, i + 1) && phs[1..][i] == phs[i + 1]
    ensures forall i :: IsLoad(phs, i) && i > 0 ==> IsLoad(phs[1..], i - 1) && phs[1..][i - 1] == phs[i]
  {
  }

  lemma TailWellFormed(file: File, phs: seq<Phdr>)
    requires phs != [] && WellFormed(file, phs)
    ensures WellFormed(file, phs[1..])
    ensures IsLoad(phs, 0) ==> forall i :: IsLoad(phs[1..], i) ==> PagesApart(phs[0], phs[1..][i])
  {
    hide SegmentOk, PagesApart;
    TailIsLoad(phs);
  }

  lemma {:induction false} OthersUntouched(l: Layout, file: File, phs: seq<Phdr>)
    requires WellFormed(file, phs) && LoadSegments(l, file, phs).Loaded?
    ensures OnlyInPages(l.space, LoadSegments(l, file, phs).value.space, phs)
    decreases phs
  {
    hide WellFormed, MapSegment, SegmentOk, SegmentLoaded, TailWritable, InPages, SameAt;
    if phs != [] {
      var last := LoadSegments(l, file, phs).value.space;
      TailWellFormed(file, phs);
      TailIsLoad(phs);
      var next := l;
      if phs[0].kind == PT_LOAD {
        HeadIsOk(file, phs);
        SegmentIsMapped(l.space, file, phs[0]);
        next := LoadSegment(l, file, phs[0]).value;
      }
      OthersUntouched(next, file, phs[1..]);
      forall a: Word | !InSomePages(phs, a) ensures SameAt(l.space, last, a) {
        assert !InSomePages(phs[1..], a);
        assert phs[0].kind == PT_LOAD ==> IsLoad(phs, 0);
        SameTwice(l.space, next.space, last, a);
      }
    } else {
      SameRefl(l.space);
    }
  }

  lemma HeadIsOk(file: File, phs: seq<Phdr>)
    requires phs != [] && WellFormed(file, phs) && phs[0].kind == PT_LOAD
    ensures SegmentOk(file, phs[0])
  {
    assert IsLoad(phs, 0);
  }

  lemma SameRefl(s: Space)
    ensures forall a: Word :: SameAt(s, s, a)
  {
  }

  lemma SameTwice(s: Space, t: Space, u: Space, a: Word)
    ensures SameAt(s, t, a) && SameAt(t, u, a) ==> SameAt(s, u, a)
  {
  }

  // A loaded segment survives mappings that stay off its pages.
  lemma SegmentSurvives(s: Space, t: Space, file: File, ph: Phdr)
    requires SegmentLoaded(s, file, ph)
    requires forall a: Word :: InPages(ph, a) ==> SameAt(s, t, a)
    ensures SegmentLoaded(t, file, ph)
  {
    hide FileByte, PageUp, PageDown;
    PageFacts(ph.vaddr);
    PageFacts(ph.vaddr + ph.memsz);
    forall a: Word | ph.vaddr <= a < ph.vaddr + ph.memsz
      ensures a in t && t[a] == SegmentCell(file, ph, a)
    {
      assert InPages(ph, a);
      assert SameAt(s, t, a);
    }
  }

  lemma ApartMeans(p: Phdr, q: Phdr, a: Word)
    requires PagesApart(p, q) && InPages(p, a)
    ensures !InPages(q, a)
  {
  }

  lemma OffTheseOnes(ph: Phdr, phs: seq<Phdr>, a: Word)
    requires InPages(ph, a) && forall i :: IsLoad(phs, i) ==> PagesApart(ph, phs[i])
    ensures !InSomePages(phs, a)
  {
    hide InPages, PagesApart;
    forall i | IsLoad(phs, i) ensures !InPages(phs[i], a) {
      ApartMeans(ph, phs[i], a);
    }
  }

  // The segment loop succeeds exactly when every segment is readable and has a
  // writable page wherever memset must clear part of one; and then every
  // segment is in place, whatever was mapped after it.
  lemma {:induction false} SegmentsAreLoaded(l: Layout, file: File, phs: seq<Phdr>)
    requires WellFormed(file, phs)
    ensures LoadSegments(l, file, phs).Loaded? <==> AllLoadable(phs)
    ensures LoadSegments(l, file, phs).Loaded? ==> AllInPlace(LoadSegments(l, file, phs).value.space, file, phs)
    decreases phs
  {
    hide WellFormed, MapSegment, SegmentOk, SegmentLoaded, TailWritable, InPages, SameAt, PagesApart, ProtOf, PfR, PfX;
    if phs != [] {
      ProtBits(phs[0]);
      TailWellFormed(file, phs);
      TailIsLoad(phs);
      var rest := phs[1..];
      if phs[0].kind == PT_LOAD {
        assert IsLoad(phs, 0);
        HeadIsOk(file, phs);
        SegmentIsMapped(l.space, file, phs[0]);
        if Loadable(phs[0]) {
          var next := LoadSegment(l, file, phs[0]).value;
          SegmentsAreLoaded(next, file, rest);
          if AllLoadable(rest) {
            OthersUntouched(next, file, rest);
            forall a: Word | InPages(phs[0], a)
              ensures SameAt(next.space, LoadSegments(next, file, rest).value.space, a)
            {
              OffTheseOnes(phs[0], rest, a);
            }
            SegmentSurvives(next.space, LoadSegments(next, file, rest).value.space, file, phs[0]);
          }
        }
      } else {
        SegmentsAreLoaded(l, file, rest);
      }
    }
  }

  // ---- Extent, break and heap ----

  lemma {:induction false} BrkIsTop(l: Layout, file: File, phs: seq<Phdr>)
    requires WellFormed(file, phs) && LoadSegments(l, file, phs).Loaded?
    ensures LoadSegments(l, file, phs).value.brk == TopOf(l.brk, phs)
    decreases phs
  {
    hide WellFormed, MapSegment;
    if phs != [] {
      TailWellFormed(file, phs);
      if phs[0].kind == PT_LOAD {
        HeadIsOk(file, phs);
        BrkIsTop(LoadSegment(l, file, phs[0]).value, file, phs[1..]);
      } else {
        BrkIsTop(l, file, phs[1..]);
      }
    }
  }

  lemma {:induction false} HighestByte(lo: Word, hi: Word, file: File, phs: seq<Phdr>)
    requires WellFormed(file, phs)
    ensures Extent(lo, hi, phs).1 + 1 == TopOf(hi + 1, phs)
    decreases phs
  {
    hide WellFormed;
    if phs != [] {
      TailWellFormed(file, phs);
      if phs[0].kind == PT_LOAD {
        HeadIsOk(file, phs);
        var ph := phs[0];
        HighestByte(Min(Wrap(ph.vaddr - ph.offset), lo), Max(Wrap(ph.vaddr + ph.memsz - 1), hi), file, phs[1..]);
      } else {
        HighestByte(lo, hi, file, phs[1..]);
      }
    }
  }

  // p_vaddr - p_offset, as the first header loop computes it.
  function BaseOf(ph: Phdr): Word {
    Wrap(ph.vaddr - ph.offset)
  }

  // loaddr is the least of these addresses, and so page-aligned.
  lemma {:induction false} LowestAddress(lo: Word, hi: Word, file: File, phs: seq<Phdr>)
    requires WellFormed(file, phs)
    ensures Extent(lo, hi, phs).0 <= lo
    ensures forall i :: IsLoad(phs, i) ==> Extent(lo, hi, phs).0 <= BaseOf(phs[i])
    ensures Extent(lo, hi, phs).0 == lo || exists i :: IsLoad(phs, i) && Extent(lo, hi, phs).0 == BaseOf(phs[i])
    decreases phs
  {
    hide WellFormed;
    if phs != [] {
      TailWellFormed(file, phs);
      TailIsLoad(phs);
      var next, top := lo, hi;
      if phs[0].kind == PT_LOAD {
        assert IsLoad(phs, 0);
        next := Min(BaseOf(phs[0]), lo);
        top := Max(Wrap(phs[0].vaddr + phs[0].memsz - 1), hi);
      }
      LowestAddress(next, top, file, phs[1..]);
      var least := Extent(next, top, phs[1..]).0;
      if least != next {
        var i :| IsLoad(phs[1..], i) && least == BaseOf(phs[1..][i]);
        assert IsLoad(phs, i + 1) && least == BaseOf(phs[i + 1]);
      }
    }
  }

  // The base of a segment is a page; when the subtraction does not wrap, it is
  // at or below the segment's first page.
  lemma BaseIsPage(file: File, ph: Phdr)
    requires SegmentOk(file, ph)
    ensures BaseOf(ph) % PAGE == 0
    ensures ph.offset <= ph.vaddr ==> BaseOf(ph) <= PageStart(ph)
  {
    hide PageDown;
    PageFacts(ph.vaddr);
    assert (ph.vaddr - ph.offset) % PAGE == 0;
    if ph.offset > ph.vaddr {
      assert BaseOf(ph) == ph.vaddr - ph.offset + TWO64;
    }
  }

  // TopOf is the maximum it is named for.
  lemma {:induction false} TopIsMaximum(from: nat, phs: seq<Phdr>)
    ensures from <= TopOf(from, phs)
    ensures forall i :: IsLoad(phs, i) ==> phs[i].vaddr + phs[i].memsz <= TopOf(from, phs)
    ensures TopOf(from, phs) == from || exists i :: IsLoad(phs, i) && phs[i].vaddr + phs[i].memsz == TopOf(from, phs)
    decreases phs
  {
    if phs != [] {
      TailIsLoad(phs);
      var end := phs[0].vaddr + phs[0].memsz;
      var next := if phs[0].kind == PT_LOAD && end > from then end else from;
      TopIsMaximum(next, phs[1..]);
      var top := TopOf(next, phs[1..]);
      assert phs[0].kind == PT_LOAD ==> IsLoad(phs, 0);
      if top != next {
        var i :| IsLoad(phs[1..], i) && phs[1..][i].vaddr + phs[1..][i].memsz == top;
        assert IsLoad(phs, i + 1);
      }
    }
  }

  ghost predicate SomeLoad(phs: seq<Phdr>) {
    exists i :: IsLoad(phs, i)
  }

  // The two header loops agree: the last byte found by the first is just below
  // the break found by the second.
  lemma ExtentMeetsBrk(file: File, phs: seq<Phdr>)
    requires WellFormed(file, phs) && SomeLoad(phs)
    ensures Extent(TWO64 - 1, 0, phs).1 + 1 == TopOf(0, phs)
    ensures TopOf(0, phs) + RESERVE_BRK + PAGE <= TWO64
  {
    hide WellFormed, TopOf, Extent;
    HighestByte(TWO64 - 1, 0, file, phs);
    TopIsMaximum(0, phs);
    TopIsMaximum(1, phs);
    LoadsAreOk(file, phs);
  }

  lemma LoadsAreOk(file: File, phs: seq<Phdr>)
    requires WellFormed(file, phs)
    ensures forall i :: IsLoad(phs, i) ==> SegmentOk(file, phs[i])
  {
  }

  // loaddr, and the end of the pages up to the future heap's end.
  function LoadAddr(phs: seq<Phdr>): Word {
    Extent(TWO64 - 1, 0, phs).0
  }

  function ReserveEnd(phs: seq<Phdr>): nat {
    PageUp(TopOf(0, phs)) + RESERVE_BRK
  }

  // loaddr wraps when no segment lies as low in the file as in memory; the
  // reservation then runs through the top of the address space.
  predicate InReservation(phs: seq<Phdr>, a: Word) {
    var lo, end := LoadAddr(phs), ReserveEnd(phs);
    if lo <= end then lo <= a < end else lo <= a || a < end
  }

  // The reservation is neither empty nor everything.
  predicate Reservable(phs: seq<Phdr>) {
    LoadAddr(phs) != ReserveEnd(phs)
  }

  lemma LoadAddrIsPage(file: File, phs: seq<Phdr>)
    requires WellFormed(file, phs) && SomeLoad(phs)
    ensures LoadAddr(phs) % PAGE == 0
    ensures forall i :: IsLoad(phs, i) && phs[i].offset <= phs[i].vaddr ==> LoadAddr(phs) <= PageStart(phs[i])
  {
    hide WellFormed, Extent, PageDown, BaseOf;
    LowestAddress(TWO64 - 1, 0, file, phs);
    LoadsAreOk(file, phs);
    forall i | IsLoad(phs, i)
      ensures BaseOf(phs[i]) % PAGE == 0
      ensures phs[i].offset <= phs[i].vaddr ==> BaseOf(phs[i]) <= PageStart(phs[i])
    {
      BaseIsPage(file, phs[i]);
    }
    var i :| IsLoad(phs, i);
  }

  // With a segment whose base does not wrap, the reservation runs from loaddr to
  // the heap's end.
  lemma UsuallyReservable(file: File, phs: seq<Phdr>, i: int)
    requires WellFormed(file, phs) && IsLoad(phs, i) && phs[i].offset <= phs[i].vaddr
    ensures LoadAddr(phs) <= PageUp(TopOf(0, phs)) && Reservable(phs)
  {
    hide WellFormed, TopOf, Extent, PageUp, PageDown;
    LoadAddrIsPage(file, phs);
    TopIsMaximum(0, phs);
    PageFacts(phs[i].vaddr);
    PageFacts(TopOf(0, phs));
  }

  // The length that is asked for, rounded up to pages.
  lemma ReservedLength(file: File, phs: seq<Phdr>)
    requires WellFormed(file, phs) && SomeLoad(phs)
    ensures var lo, end := LoadAddr(phs), ReserveEnd(phs);
      var length := Span(lo, Plus(Extent(TWO64 - 1, 0, phs).1, RESERVE_BRK));
      && lo % PAGE == 0 && end < TWO64
      && (lo < end ==> 0 < length && PageUp(length) == end - lo)
      && (lo > end ==> 0 < length && PageUp(length) == end - lo + TWO64)
      && (lo == end ==> length == 0 || PageUp(length) == TWO64)
  {
    hide WellFormed, TopOf, Extent, PageUp, PageDown, Wrap;
    var (lo, hi) := Extent(TWO64 - 1, 0, phs);
    var last := TopOf(0, phs) + RESERVE_BRK;
    ExtentMeetsBrk(file, phs);
    LoadAddrIsPage(file, phs);
    PageShift(RESERVE_BRK, TopOf(0, phs));
    PageFacts(last);
    assert Plus(hi, RESERVE_BRK) == last - 1 by { SmallWord(last - 1); }
    if lo <= last {
      SpanFlat(lo, last);
    } else {
      SpanWraps(lo, last);
    }
  }

  // Pages from lo to last, which does not lie below it.
  lemma SpanFlat(lo: Word, last: nat)
    requires lo % PAGE == 0 && lo <= last && last + PAGE <= TWO64
    ensures Wrap(last - lo) == last - lo && PageUp(last - lo) == PageUp(last) - lo
    ensures lo <= PageUp(last) && (lo == PageUp(last) ==> last == lo)
  {
    hide PageUp, PageDown;
    PageFacts(last);
    PageShift(lo, last - lo);
  }

  // Pages from lo through the top of the address space to last.
  lemma SpanWraps(lo: Word, last: nat)
    requires lo % PAGE == 0 && last < lo && last + PAGE <= TWO64
    ensures Wrap(last - lo) == last - lo + TWO64 && PageUp(last - lo + TWO64) == PageUp(last) - lo + TWO64
    ensures PageUp(last) <= lo
  {
    hide PageUp, PageDown;
    PageFacts(last);
    PageBetween(last, lo);
    PageShift(lo, last - lo + TWO64);
    PageShift(TWO64, last);
  }

  lemma PageBetween(x: nat, page: nat)
    requires page % PAGE == 0 && x <= page
    ensures PageUp(x) <= page
  {
  }

  // The reservation succeeds exactly when it is neither empty nor everything,
  // and covers whole pages up to the end of the future heap.
  lemma RangeIsReserved(sp: Space, file: File, phs: seq<Phdr>)
    requires WellFormed(file, phs) && SomeLoad(phs)
    ensures Reserve(sp, phs).Some? <==> Reservable(phs)
    ensures Reservable(phs) ==>
      var t := Reserve(sp, phs).value;
      forall a: Word :: if InReservation(phs, a) then a in t && t[a] == Cell(0, PROT_NONE) else SameAt(sp, t, a)
  {
    hide WellFormed, TopOf, Extent, HostMap, PageUp, PageDown, Covered, ReserveEnd, LoadAddr;
    var lo, end := LoadAddr(phs), ReserveEnd(phs);
    var (first, hi) := Extent(TWO64 - 1, 0, phs);
    var length := Span(lo, Plus(hi, RESERVE_BRK));
    LoadAddrIs(phs);
    ReservedLength(file, phs);
    if Reservable(phs) {
      AnonymousMapWraps(sp, lo, length, PROT_NONE, 0);
      forall a: Word
        ensures var t := Reserve(sp, phs).value;
          if InReservation(phs, a) then a in t && t[a] == Cell(0, PROT_NONE) else SameAt(sp, t, a)
      {
        AnonymousMapWraps(sp, lo, length, PROT_NONE, a);
        CoveredRound(a, lo, end);
      }
    } else {
      WholeSpaceRefused(sp, lo, length);
    }
  }

  lemma LoadAddrIs(phs: seq<Phdr>)
    ensures LoadAddr(phs) == Extent(TWO64 - 1, 0, phs).0
  {
  }

  lemma CoveredRound(a: Word, lo: Word, end: Word)
    requires lo != end
    ensures Covered(a, lo, if lo < end then end - lo else end - lo + TWO64)
       <==> if lo <= end then lo <= a < end else lo <= a || a < end
  {
    assert Wrap(a - lo) == if a >= lo then a - lo else a - lo + TWO64;
  }

  lemma WholeSpaceRefused(sp: Space, addr: Word, length: Word)
    requires length == 0 || PageUp(length) == TWO64
    ensures HostMap(sp, addr, length, PROT_NONE, None, 0).None?
  {
    hide PageUp;
  }

  lemma HeapIsMapped(l: Layout, file: File, phs: seq<Phdr>)
    requires WellFormed(file, phs) && SomeLoad(phs) && l.brk == TopOf(0, phs)
    ensures MapHeap(l, phs).Some?
    ensures Zeros(MapHeap(l, phs).value, PageUp(l.brk), PageUp(l.brk) + RESERVE_BRK, PROT_READ_WRITE)
    ensures SameOutside(l.space, MapHeap(l, phs).value, PageUp(l.brk), PageUp(l.brk) + RESERVE_BRK)
  {
    hide WellFormed, TopOf, Extent, HostMap, PageUp, PageDown, SameOutside, Zeros;
    ExtentMeetsBrk(file, phs);
    var hi := Extent(TWO64 - 1, 0, phs).1;
    RoundUpIsPageUp(l.brk);
    PageFacts(l.brk);
    var start := PageUp(l.brk);
    var length := l.brk + RESERVE_BRK - start;
    assert Span(start, Plus(hi, RESERVE_BRK)) == length;
    PageShift(start, length);
    PageShift(RESERVE_BRK, l.brk);
    AnonymousMap(l.space, start, length, PROT_READ_WRITE);
  }

  lemma SegmentsBelowHeap(file: File, phs: seq<Phdr>, i: int)
    requires WellFormed(file, phs) && IsLoad(phs, i)
    ensures PageEnd(phs[i]) <= PageUp(TopOf(0, phs))
  {
    hide WellFormed, TopOf, Extent, PageUp, PageDown;
    TopIsMaximum(0, phs);
    PageMonotone(phs[i].vaddr + phs[i].memsz, TopOf(0, phs));
  }

  // The layout after load_elf_binary has mapped the program and its heap.
  ghost predicate ImageOk(before: Space, l: Layout, file: File, phs: seq<Phdr>) {
    var heap := PageUp(l.brk);
    && AllInPlace(l.space, file, phs)
    && l.brk == TopOf(0, phs)
    && Zeros(l.space, heap, heap + RESERVE_BRK, PROT_READ_WRITE)
    && (forall i :: IsLoad(phs, i) ==> PageEnd(phs[i]) <= heap)
    && (forall i :: IsLoad(phs, i) && phs[i].offset <= phs[i].vaddr ==> LoadAddr(phs) <= PageStart(phs[i]))
    && OnlyThere(before, l.space, phs, heap)
  }

  // Nothing changed but the reservation, the segments' pages and the heap.
  ghost predicate OnlyThere(s: Space, t: Space, phs: seq<Phdr>, heap: nat) {
    forall a: Word ::
      !InReservation(phs, a) && !InSomePages(phs, a) && (a < heap || heap + RESERVE_BRK <= a) ==> SameAt(s, t, a)
  }

  // Loading succeeds exactly when the range can be reserved and every segment is
  // loadable, and then every segment holds its bytes, the heap is 32 MiB of
  // zeros from the page above the highest segment end, and nothing outside the
  // reservation, the segments and the heap has changed.
  lemma ImageIsLoaded(sp: Space, file: File, phs: seq<Phdr>)
    requires WellFormed(file, phs) && SomeLoad(phs)
    ensures LoadImage(sp, file, phs).Loaded? <==> Reservable(phs) && AllLoadable(phs)
    ensures LoadImage(sp, file, phs).Loaded? ==> ImageOk(sp, LoadImage(sp, file, phs).value, file, phs)
  {
    hide WellFormed, TopOf, Extent, LoadSegments, Reserve, MapHeap, AllLoadable, AllInPlace, Reservable,
      InReservation, SomeLoad,
      ImageOk;
    RangeIsReserved(sp, file, phs);
    if Reservable(phs) {
      var start := Layout(Reserve(sp, phs).value, 0);
      SegmentsAreLoaded(start, file, phs);
      if AllLoadable(phs) {
        BrkIsTop(start, file, phs);
        OthersUntouched(start, file, phs);
        var l := LoadSegments(start, file, phs).value;
        HeapIsMapped(l, file, phs);
        LayoutIsOk(sp, start.space, l, MapHeap(l, phs).value, file, phs);
      }
    }
  }

  lemma LayoutIsOk(before: Space, reserved: Space, l: Layout, after: Space, file: File, phs: seq<Phdr>)
    requires WellFormed(file, phs) && SomeLoad(phs) && l.brk == TopOf(0, phs)
    requires forall a: Word :: !InReservation(phs, a) ==> SameAt(before, reserved, a)
    requires var heap := PageUp(l.brk);
             && OnlyInPages(reserved, l.space, phs)
             && AllInPlace(l.space, file, phs)
             && SameOutside(l.space, after, heap, heap + RESERVE_BRK)
             && Zeros(after, heap, heap + RESERVE_BRK, PROT_READ_WRITE)
    ensures ImageOk(before, l.(space := after), file, phs)
  {
    hide WellFormed, TopOf, Extent, PageUp, PageDown, SegmentLoaded, Zeros, SameAt, InReservation, LoadAddr;
    var heap := PageUp(l.brk);
    LoadAddrIsPage(file, phs);
    forall i | IsLoad(phs, i)
      ensures PageEnd(phs[i]) <= heap && SegmentLoaded(after, file, phs[i])
    {
      SegmentsBelowHeap(file, phs, i);
      SegmentSurvives(l.space, after, file, phs[i]);
    }
    forall a: Word | !InReservation(phs, a) && !InSomePages(phs, a) && (a < heap || heap + RESERVE_BRK <= a)
      ensures SameAt(before, after, a)
    {
      SameTwice(before, reserved, l.space, a);
      SameTwice(before, l.space, after, a);
    }
  }

  // ---- The stack ----

  // The end of the pages mapped for a stack of size bytes and its guard page.
  function StackEnd(at: nat, size: nat): nat {
    at + PageUp(size + PAGE)
  }

  function StackCell(exec: bool): Cell {
    Cell(0, Prot(true, true, exec))
  }

  // A zeroed stack above a guard page that nothing may access.
  predicate StackAt(sp: Space, at: nat, size: nat, exec: bool) {
    && (forall a: Word :: at <= a < at + PAGE ==> a in sp && sp[a].prot == PROT_NONE)
    && Zeros(sp, at + PAGE, StackEnd(at, size), Prot(true, true, exec))
  }

  lemma GuardIsProtected(sp: Space, at: Word, size: nat, exec: bool)
    requires at % PAGE == 0 && StackEnd(at, size) <= TWO64
    requires Zeros(sp, at, StackEnd(at, size), Prot(true, true, exec))
    ensures Protect(sp, at, PAGE, PROT_NONE).Some?
    ensures StackAt(Protect(sp, at, PAGE, PROT_NONE).value, at, size, exec)
    ensures SameOutside(sp, Protect(sp, at, PAGE, PROT_NONE).value, at, at + PAGE)
  {
    PageFacts(size + PAGE);
    assert PageUp(PAGE) == PAGE;
  }

  lemma OutsideTwice(s: Space, t: Space, u: Space, from: nat, to: nat, end: nat)
    requires SameOutside(s, t, from, end) && SameOutside(t, u, from, to) && to <= end
    ensures SameOutside(s, u, from, end)
  {
    forall a: Word | a < from || end <= a ensures SameAt(s, u, a) {
      assert SameAt(s, t, a) && SameAt(t, u, a);
    }
  }

  // The stack is put at mmap_next_start, which moves past it. Whatever was
  // mapped there is replaced; everything else stays.
  lemma StackIsMapped(sp: Space, next: Word, size: Word, exec: bool)
    requires next % PAGE == 0 && TASK_UNMAPPED_BASE <= next && next + size + 2 * PAGE < TWO64
    ensures MapStack(sp, next, size, exec).Some?
    ensures var r := MapStack(sp, next, size, exec).value;
            && r.at == next && r.next == StackEnd(next, size)
            && StackAt(r.space, next, size, exec)
            && SameOutside(sp, r.space, next, StackEnd(next, size))
  {
    hide HostMap, Protect, PageUp, PageDown, RoundUp, SameOutside, StackAt, Zeros;
    var length := size + PAGE;
    assert Plus(size, PAGE) == length;
    RoundUpIsPageUp(length);
    PageFacts(length);
    PageFacts(PageUp(length));
    AnonymousMap(sp, next, PageUp(length), PROT_NONE);
    var reserved := HostMap(sp, next, PageUp(length), PROT_NONE, None, 0).value;
    AnonymousMap(reserved, next, length, Prot(true, true, exec));
    var stack := HostMap(reserved, next, length, Prot(true, true, exec), None, 0).value;
    OutsideTwice(sp, reserved, stack, next, next + PageUp(length), next + PageUp(length));
    GuardIsProtected(stack, next, size, exec);
    OutsideTwice(sp, stack, Protect(stack, next, PAGE, PROT_NONE).value, next, next + PAGE, next + PageUp(length));
  }

  // ---- The whole process ----

  // What the stack puts on the segment's bytes is what its header asks for.
  ghost predicate Spared(file: File, ph: Phdr, next: nat, size: nat, exec: bool) {
    forall a: Word :: InSegment(ph, a) && next <= a < StackEnd(next, size) ==>
      next + PAGE <= a && SegmentCell(file, ph, a) == StackCell(exec)
  }

  ghost predicate AllSpared(file: File, phs: seq<Phdr>, next: nat, size: nat) {
    forall i :: IsLoad(phs, i) ==> Spared(file, phs[i], next, size, ExecStack(false, phs))
  }

  predicate Disjoint(from: nat, to: nat, from': nat, to': nat) {
    to <= from' || to' <= from
  }

  // The stack stays off the heap, or only its own zeros fall on it.
  predicate HeapSpared(heap: nat, next: nat, size: nat, exec: bool) {
    || Disjoint(heap, heap + RESERVE_BRK, next, StackEnd(next, size))
    || (!exec && Disjoint(heap, heap + RESERVE_BRK, next, next + PAGE))
  }

  predicate HeapIsZero(sp: Space, brk: nat) {
    Zeros(sp, PageUp(brk), PageUp(brk) + RESERVE_BRK, PROT_READ_WRITE)
  }

  // A segment that was in place is so afterwards exactly when it was spared.
  lemma SegmentAfterStack(s: Space, t: Space, file: File, ph: Phdr, next: nat, size: nat, exec: bool)
    requires SegmentLoaded(s, file, ph) && Asked(ph).read
    requires StackAt(t, next, size, exec) && SameOutside(s, t, next, StackEnd(next, size))
    ensures SegmentLoaded(t, file, ph) <==> Spared(file, ph, next, size, exec)
  {
    hide FileByte, PageUp;
    if Spared(file, ph, next, size, exec) {
      forall a: Word | InSegment(ph, a) ensures a in t && t[a] == SegmentCell(file, ph, a) {
        assert SameAt(s, t, a) || next <= a < StackEnd(next, size);
      }
    }
    if SegmentLoaded(t, file, ph) {
      forall a: Word | InSegment(ph, a) && next <= a < StackEnd(next, size)
        ensures next + PAGE <= a && SegmentCell(file, ph, a) == StackCell(exec)
      {
        assert a in t && t[a] == SegmentCell(file, ph, a);
      }
    }
  }

  lemma HeapAfterStack(s: Space, t: Space, heap: nat, next: nat, size: nat, exec: bool)
    requires Zeros(s, heap, heap + RESERVE_BRK, PROT_READ_WRITE) && heap + RESERVE_BRK <= TWO64
    requires StackAt(t, next, size, exec) && SameOutside(s, t, next, StackEnd(next, size))
    requires StackEnd(next, size) <= TWO64
    ensures Zeros(t, heap, heap + RESERVE_BRK, PROT_READ_WRITE) <==> HeapSpared(heap, next, size, exec)
  {
    PageFacts(size + PAGE);
    hide PageUp;
    if HeapSpared(heap, next, size, exec) {
      forall a: Word | heap <= a < heap + RESERVE_BRK ensures a in t && t[a] == Cell(0, PROT_READ_WRITE) {
        assert SameAt(s, t, a) || next <= a < StackEnd(next, size);
      }
    } else {
      var a: Word := if heap <= next then next else heap;
      assert a in t && t[a] != Cell(0, PROT_READ_WRITE);
    }
  }

  // What load_elf_binary hands to create_elf_tables, wherever the stack lands.
  ghost predicate ProcessMade(p: Process, file: File, phs: seq<Phdr>, next: Word, stackSize: Word) {
    && p.brk == TopOf(0, phs)
    && (forall i :: IsLoad(phs, i) ==>
          (SegmentLoaded(p.space, file, phs[i]) <==> Spared(file, phs[i], next, stackSize, ExecStack(false, phs))))
    && (HeapIsZero(p.space, p.brk) <==> HeapSpared(PageUp(p.brk), next, stackSize, ExecStack(false, phs)))
    && (forall i :: IsLoad(phs, i) ==> PageEnd(phs[i]) <= PageUp(p.brk))
    && StackAt(p.space, next, stackSize, ExecStack(false, phs))
    && p.p == next + PAGE + stackSize - 8
    && p.next == StackEnd(next, stackSize)
  }

  // Loading succeeds exactly when every segment is loadable. Each segment, and
  // the heap, is then intact exactly when the stack, which is placed without
  // regard to the program, spares it.
  lemma ProcessIsLoaded(sp: Space, next: Word, file: File, phs: seq<Phdr>, stackSize: Word)
    requires WellFormed(file, phs) && SomeLoad(phs)
    requires next % PAGE == 0 && TASK_UNMAPPED_BASE <= next && next + stackSize + 2 * PAGE < TWO64
    ensures LoadProcess(sp, next, file, phs, stackSize).Loaded? <==> Reservable(phs) && AllLoadable(phs)
    ensures Reservable(phs) && AllLoadable(phs) ==>
      var p := LoadProcess(sp, next, file, phs, stackSize).value;
      && ProcessMade(p, file, phs, next, stackSize)
      && (AllInPlace(p.space, file, phs) <==> AllSpared(file, phs, next, stackSize))
  {
    hide WellFormed, TopOf, LoadImage, MapStack, PageUp, AllLoadable, StackAt, SegmentLoaded, SomeLoad, Reservable,
      SameOutside,
      HeapSpared, Zeros, Spared;
    ImageIsLoaded(sp, file, phs);
    if Reservable(phs) && AllLoadable(phs) {
      var l := LoadImage(sp, file, phs).value;
      var exec := ExecStack(false, phs);
      StackIsMapped(l.space, next, stackSize, exec);
      PageFacts(stackSize + PAGE);
      var s := MapStack(l.space, next, stackSize, exec).value.space;
      AllAfterStack(l.space, s, file, phs, next, stackSize);
      HeapFits(file, phs);
      HeapAfterStack(l.space, s, PageUp(l.brk), next, stackSize, exec);
    }
  }

  lemma HeapFits(file: File, phs: seq<Phdr>)
    requires WellFormed(file, phs) && SomeLoad(phs)
    ensures PageUp(TopOf(0, phs)) + RESERVE_BRK <= TWO64
  {
    hide WellFormed, TopOf, PageUp;
    ExtentMeetsBrk(file, phs);
    PageFacts(TopOf(0, phs));
  }

  lemma AllAfterStack(s: Space, t: Space, file: File, phs: seq<Phdr>, next: nat, size: nat)
    requires AllInPlace(s, file, phs) && AllLoadable(phs)
    requires StackAt(t, next, size, ExecStack(false, phs)) && SameOutside(s, t, next, StackEnd(next, size))
    ensures forall i :: IsLoad(phs, i) ==>
      (SegmentLoaded(t, file, phs[i]) <==> Spared(file, phs[i], next, size, ExecStack(false, phs)))
  {
    hide SegmentLoaded, StackAt, SameOutside, Spared, StackEnd, TailWritable;
    forall i | IsLoad(phs, i)
      ensures SegmentLoaded(t, file, phs[i]) <==> Spared(file, phs[i], next, size, ExecStack(false, phs))
    {
      assert Loadable(phs[i]);
      SegmentAfterStack(s, t, file, phs[i], next, size, ExecStack(false, phs));
    }
  }

  // In particular a segment below or above the pages of the stack is spared.
  predicate OffStack(ph: Phdr, next: nat, size: nat) {
    Disjoint(ph.vaddr, ph.vaddr + ph.memsz, next, StackEnd(next, size))
  }

  lemma OffStackIsSpared(file: File, ph: Phdr, next: nat, size: nat, exec: bool)
    requires OffStack(ph, next, size)
    ensures Spared(file, ph, next, size, exec)
  {
    hide StackEnd, SegmentCell;
  }

  // One readable, executable byte at the address the stack will get.
  const DOOMED := Phdr(PT_LOAD, 5, 0, TASK_UNMAPPED_BASE, 1, 1)

  // A well-formed program that loads without an error and is then overwritten.
  lemma StackDestroysProgram(sp: Space, stackSize: Word)
    requires TASK_UNMAPPED_BASE + stackSize + 2 * PAGE < TWO64
    ensures WellFormed([0x13], [DOOMED]) && SomeLoad([DOOMED])
    ensures var r := LoadProcess(sp, TASK_UNMAPPED_BASE, [0x13], [DOOMED], stackSize);
            r.Loaded? && !AllInPlace(r.value.space, [0x13], [DOOMED])
  {
    hide LoadProcess, PageUp, HeapSpared, Reservable;
    var phs := [DOOMED];
    assert IsLoad(phs, 0);
    UsuallyReservable([0x13], phs, 0);
    ProcessIsLoaded(sp, TASK_UNMAPPED_BASE, [0x13], phs, stackSize);
    PageFacts(stackSize + PAGE);
    assert InSegment(DOOMED, TASK_UNMAPPED_BASE);
    assert !Spared([0x13], phs[0], TASK_UNMAPPED_BASE, stackSize, ExecStack(false, phs));
  }

  // ---- Places for mappings without an address ----

  // A request, and the memory at the time it is made.
  datatype Request = Request(space: Space, length: Word, prot: Prot)

  // The addresses a run of requests is given.
  function Placements(next: Word, rs: seq<Request>): Option<seq<Word>>
    decreases rs
  {
    if rs == [] then Some([])
    else match MapAnywhere(rs[0].space, next, 0, rs[0].length, rs[0].prot, 0)
      case None => None
      case Some(p) =>
        match Placements(p.next, rs[1..])
        case None => None
        case Some(rest) => Some([p.at] + rest)
  }

  function PagesOf(rs: seq<Request>): nat {
    if rs == [] then 0 else PageUp(rs[0].length) + PagesOf(rs[1..])
  }

  // However the memory changes in between, requests are served one above the
  // other and never overlap.
  lemma {:induction false} PlacesAreApart(next: Word, rs: seq<Request>)
    requires next % PAGE == 0 && TASK_UNMAPPED_BASE <= next && next + PagesOf(rs) + 2 * PAGE < TWO64
    requires forall i :: 0 <= i < |rs| ==> 0 < rs[i].length
    ensures Placements(next, rs).Some? && |Placements(next, rs).value| == |rs|
    ensures forall i :: 0 <= i < |rs| ==>
      var at := Placements(next, rs).value[i];
      next <= at && at + PageUp(rs[i].length) <= next + PagesOf(rs)
    ensures forall i, j :: 0 <= i < j < |rs| ==>
      Placements(next, rs).value[i] + PageUp(rs[i].length) <= Placements(next, rs).value[j]
    decreases rs
  {
    hide MapAnywhere, PageUp;
    if rs != [] {
      var r, rest := rs[0], rs[1..];
      PageFacts(r.length);
      PlaceIsNext(r.space, next, r.length, r.prot);
      var after := next + PageUp(r.length);
      PlacesAreApart(after, rest);
      var ats, all := Placements(after, rest).value, Placements(next, rs).value;
      assert all == [next] + ats;
      forall i, j | 0 <= i < j < |rs| ensures all[i] + PageUp(rs[i].length) <= all[j] {
        assert all[j] == ats[j - 1] && rs[j] == rest[j - 1];
        assert i > 0 ==> all[i] == ats[i - 1] && rs[i] == rest[i - 1];
      }
      forall i | 0 <= i < |rs| ensures next <= all[i] && all[i] + PageUp(rs[i].length) <= next + PagesOf(rs) {
        assert i > 0 ==> all[i] == ats[i - 1] && rs[i] == rest[i - 1];
      }
    }
  }

  lemma PlaceIsNext(sp: Space, next: Word, n: Word, prot: Prot)
    requires next % PAGE == 0 && TASK_UNMAPPED_BASE <= next && 0 < n && next + n + 2 * PAGE < TWO64
    ensures MapAnywhere(sp, next, 0, n, prot, 0).Some?
    ensures MapAnywhere(sp, next, 0, n, prot, 0).value.at == next
    ensures MapAnywhere(sp, next, 0, n, prot, 0).value.next == next + PageUp(n)
  {
    hide HostMap, PageUp, PageDown, RoundUp, SameOutside, Zeros;
    RoundUpIsPageUp(n);
    PageFacts(n);
    PageFacts(PageUp(n));
    AnonymousMap(sp, next, PageUp(n), PROT_NONE);
    AnonymousMap(HostMap(sp, next, PageUp(n), PROT_NONE, None, 0).value, next, n, prot);
  }

  // ---- The program break ----

  // After any requests the break is the last one, but never below the start of
  // the heap.
  lemma {:induction false} BreakIsLastRequest(floor: Word, current: Word, requests: seq<Word>)
    requires floor <= current
    ensures Breaks(floor, current, requests) >= floor
    ensures requests == [] ==> Breaks(floor, current, requests) == current
    ensures requests != [] ==>
      Breaks(floor, current, requests) == BreakAfter(floor, requests[|requests| - 1])
    decreases requests
  {
    if requests != [] {
      BreakIsLastRequest(floor, BreakAfter(floor, requests[0]), requests[1..]);
    }
  }

  // No sequence of do_brk calls moves the break below the heap, hence into a
  // segment.
  lemma BreakStaysAboveSegments(sp: Space, l: Layout, file: File, phs: seq<Phdr>, requests: seq<Word>, i: int)
    requires WellFormed(file, phs) && SomeLoad(phs) && ImageOk(sp, l, file, phs) && IsLoad(phs, i)
    ensures RoundUp(l.brk) == PageUp(l.brk)
    ensures phs[i].vaddr + phs[i].memsz <= PageEnd(phs[i]) <= Breaks(RoundUp(l.brk), RoundUp(l.brk), requests)
  {
    hide WellFormed, AllInPlace, Zeros, SameOutside, PageUp, PageDown, RoundUp, TopOf, Extent;
    ExtentMeetsBrk(file, phs);
    RoundUpIsPageUp(l.brk);
    PageFacts(phs[i].vaddr + phs[i].memsz);
    BreakIsLastRequest(RoundUp(l.brk), RoundUp(l.brk), requests);
  }
}
