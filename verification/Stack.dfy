// The initial process stack of create_elf_tables (elfload.c:106-170): strings
// from the top down, then a table of pointers below them, and a reader that
// starts at the resulting stack pointer.
module Stack {
  import opened Bits
  import opened Words
  import opened Machine
  import opened HandlerFacts

  // A C string without its terminating zero.
  type CString = seq<Byte>

  predicate NoZero(s: CString) {
    forall k :: 0 <= k < |s| ==> s[k] != 0
  }

  predicate AllNoZero(list: seq<CString>) {
    forall k :: 0 <= k < |list| ==> NoZero(list[k])
  }

  // ---- Layout ----

  // The strings one after the other, each with its terminating zero.
  function Flat(list: seq<CString>): seq<Byte> {
    if list == [] then [] else list[0] + [0] + Flat(list[1..])
  }

  // Where each string of Flat(list) begins, when it is placed at base.
  function Addrs(base: nat, list: seq<CString>): (r: seq<nat>)
    ensures |r| == |list|
    decreases list
  {
    if list == [] then [] else [base] + Addrs(base + |list[0]| + 1, list[1..])
  }

  function Reverse(s: seq<nat>): (r: seq<nat>)
    ensures |r| == |s|
  {
    if s == [] then [] else Reverse(s[1..]) + [s[0]]
  }

  // Little-endian bytes of a value.
  function LeBytes(v: nat, n: nat): (r: seq<Byte>)
    ensures |r| == n
  {
    if n == 0 then [] else [v % 256] + LeBytes(v / 256, n - 1)
  }

  // A table of target_ulong values.
  function WordBytes(ws: seq<nat>): (r: seq<Byte>)
    ensures |r| == 8 * |ws|
  {
    if ws == [] then [] else LeBytes(ws[0], 8) + WordBytes(ws[1..])
  }

  // memcpy into guest memory
  function Copy(mem: Memory, addr: int, bytes: seq<Byte>): Memory
    requires 0 <= addr && addr + |bytes| <= TWO64
  {
    var end := addr + |bytes|;
    mem + map a: Word | addr <= a < end && InRange(a, addr, end) :: bytes[a - addr]
  }

  lemma CopyNothing(mem: Memory, addr: int)
    requires 0 <= addr <= TWO64
    ensures Copy(mem, addr, []) == mem
  {
  }

  // Writing x just below y is writing x + y.
  lemma CopyBelow(mem: Memory, a: int, x: seq<Byte>, y: seq<Byte>)
    requires 0 <= a && a + |x| + |y| <= TWO64
    ensures Copy(Copy(mem, a + |x|, y), a, x) == Copy(mem, a, x + y)
  {
  }

  // A write leaves everything outside its range alone.
  lemma CopyElsewhere(mem: Memory, addr: int, bytes: seq<Byte>, a: Word)
    requires 0 <= addr && addr + |bytes| <= TWO64
    ensures a < addr || addr + |bytes| <= a ==> (a in Copy(mem, addr, bytes) <==> a in mem)
    ensures a in mem && (a < addr || addr + |bytes| <= a) ==> Copy(mem, addr, bytes)[a] == mem[a]
  {
  }

  // ---- The reader ----

  function ReadWord(mem: Memory, a: Word): Option<nat> {
    LoadBytes(mem, a, 8)
  }

  function ReadString(mem: Memory, a: Word): Option<CString>
    decreases TWO64 - a
  {
    if a !in mem then None
    else if mem[a] == 0 then Some([])
    else if a + 1 == TWO64 then None
    else match ReadString(mem, a + 1)
      case None => None
      case Some(rest) => Some([mem[a]] + rest)
  }

  // Strings behind a null-terminated vector of pointers.
  function ReadVector(mem: Memory, a: Word): Option<seq<CString>>
    decreases TWO64 - a
  {
    match ReadWord(mem, a)
    case None => None
    case Some(p) =>
      if p == 0 then Some([])
      else if p >= TWO64 || a + 8 >= TWO64 then None
      else match (ReadString(mem, p), ReadVector(mem, a + 8))
        case (Some(s), Some(rest)) => Some([s] + rest)
        case _ => None
  }

  datatype Arguments = Arguments(argc: nat, argv: seq<CString>, envp: seq<CString>)

  // What a program finds at its stack pointer: argc, the argv vector, and the
  // envp vector after it.
  function ReadArguments(mem: Memory, sp: Word): Option<Arguments> {
    if sp + 8 >= TWO64 then None
    else match (ReadWord(mem, sp), ReadVector(mem, sp + 8))
      case (Some(argc), Some(argv)) =>
        var envAt := sp + 8 + 8 * (|argv| + 1);
        if envAt >= TWO64 then None
        else (match ReadVector(mem, envAt)
          case Some(envp) => Some(Arguments(argc, argv, envp))
          case None => None)
      case _ => None
  }

  // ---- create_elf_tables ----

  class Builder {
    var mem: Memory

    constructor (mem: Memory)
      ensures this.mem == mem
    {
      this.mem := mem;
    }

    method TargetMemoryCopy(addr: int, bytes: seq<Byte>)
      requires 0 <= addr && addr + |bytes| <= TWO64
      modifies this
      ensures mem == Copy(old(mem), addr, bytes)
    {
      mem := Copy(mem, addr, bytes);
    }

    // The loop over envp, and the one over argv: strings from last to first,
    // each below the previous one, with its address recorded in ptrs.
    method PushStrings(list: seq<CString>, start: nat, ptrs: array<Word>, from: nat) returns (top: nat, j: nat)
      requires |Flat(list)| < start <= TWO64 && from + |list| <= ptrs.Length
      modifies this, ptrs
      ensures top == start - |Flat(list)| && j == from + |list|
      ensures mem == Copy(old(mem), top, Flat(list))
      ensures ptrs[..from] == old(ptrs[..from])
      ensures ptrs[from..j] == Reverse(Addrs(top, list))
    {
      hide Flat, Addrs, Reverse, Copy;
      top, j := start, from;
      var i := |list|;
      NothingFrom(list, top);
      CopyNothing(mem, top);
      while i > 0
        invariant 0 <= i <= |list| && j == from + |list| - i
        invariant top == start - |Flat(list[i..])| && |Flat(list[i..])| <= |Flat(list)|
        invariant mem == Copy(old(mem), top, Flat(list[i..]))
        invariant ptrs[..from] == old(ptrs[..from])
        invariant ptrs[from..j] == Reverse(Addrs(top, list[i..]))
      {
        i := i - 1;
        ghost var rest := list[i + 1..];
        SuffixFits(list, i);
        var n := |list[i]| + 1;
        top := top - n;
        FlatSuffix(list, i, top);
        ReverseCons(top, Addrs(top + n, rest));
        ptrs[j] := top;
        j := j + 1;
        CopyBelow(old(mem), top, list[i] + [0], Flat(rest));
        TargetMemoryCopy(top, list[i] + [0]);
        assert ptrs[from..j] == ptrs[from..j - 1] + [top];
      }
    }

    // The loop that writes ptrs below the strings, last entry lowest.
    method PushTable(ptrs: array<Word>, count: nat, start: nat) returns (top: nat)
      requires count <= ptrs.Length && 8 * count <= start <= TWO64
      modifies this
      ensures top == start - 8 * count
      ensures mem == Copy(old(mem), top, WordBytes(Reverse(ptrs[..count])))
    {
      hide Reverse, WordBytes, LeBytes, Copy;
      top := start;
      var i := 0;
      NothingWritten(ptrs[..0]);
      CopyNothing(mem, top);
      while i < count
        invariant 0 <= i <= count && top == start - 8 * i
        invariant mem == Copy(old(mem), top, WordBytes(Reverse(ptrs[..i])))
      {
        top := top - 8;
        CopyBelow(old(mem), top, LeBytes(ptrs[i], 8), WordBytes(Reverse(ptrs[..i])));
        ReverseSnoc(ptrs[..i], ptrs[i]);
        WordBytesCons(ptrs[i], Reverse(ptrs[..i]));
        TargetMemoryCopy(top, LeBytes(ptrs[i], 8));
        i := i + 1;
        assert ptrs[..i] == ptrs[..i - 1] + [ptrs[i - 1]];
      }
    }

    // The file name in place of argv[0], and argc.
    method PlaceFilename(filename: CString, argc: Word, start: nat, ptrs: array<Word>, from: nat)
        returns (top: Word, j: nat)
      requires |filename| + 1 <= start < TWO64 && from + 2 == ptrs.Length
      modifies this, ptrs
      ensures top == start - |filename| - 1 && j == ptrs.Length
      ensures mem == Copy(old(mem), top, filename + [0])
      ensures ptrs[..] == old(ptrs[..from]) + [top] + [argc]
    {
      hide Copy;
      var n := |filename| + 1;
      top, j := start - n, from;
      ptrs[j] := top;
      j := j + 1;
      TargetMemoryCopy(top, filename + [0]);
      ptrs[j] := argc;
      j := j + 1;
    }

    // The two string loops, with their nulls in ptrs.
    method PlaceVectors(p: Word, rest: seq<CString>, envp: seq<CString>, ptrs: array<Word>) returns (top: Word, j: nat)
      requires 2 + |envp| + |rest| <= ptrs.Length
      requires |Flat(rest)| + |Flat(envp)| < p
      modifies this, ptrs
      ensures j == 2 + |envp| + |rest| && top == p - |Flat(rest)| - |Flat(envp)|
      ensures mem == Copy(old(mem), top, Flat(rest) + Flat(envp))
      ensures ptrs[..j] == [0] + Reverse(Addrs(p - |Flat(envp)|, envp)) + [0] + Reverse(Addrs(top, rest))
    {
      hide Flat, Addrs, Reverse, Copy;
      ghost var before := mem;
      top, j := p, 0;
      ptrs[j] := 0;
      j := j + 1;
      top, j := PushStrings(envp, top, ptrs, j);
      ghost var e := Reverse(Addrs(top, envp));
      ptrs[j] := 0;
      j := j + 1;
      assert ptrs[..j] == [0] + e + [0];
      top, j := PushStrings(rest, top, ptrs, j);
      CopyBelow(before, top, Flat(rest), Flat(envp));
      assert ptrs[..j] == ptrs[..2 + |envp|] + ptrs[2 + |envp|..j];
    }

    // The strings of create_elf_tables and the entries of ptrs they leave.
    method PlaceStrings(p: Word, filename: CString, argv: seq<CString>, envp: seq<CString>, ptrs: array<Word>)
      returns (top: Word, j: nat)
      requires |argv| >= 1 && ptrs.Length == 1 + |envp| + 1 + |argv| + 1 < TWO64
      requires |Flat([filename] + argv[1..] + envp)| < p
      modifies this, ptrs
      ensures j == ptrs.Length
      ensures top == p - |Flat([filename] + argv[1..] + envp)|
      ensures mem == Copy(old(mem), top, Flat([filename] + argv[1..] + envp))
      ensures Reverse(ptrs[..]) == Table(top, [filename] + argv[1..], envp)
    {
      hide Flat, Addrs, Reverse, Copy, Table;
      ghost var before, rest := mem, argv[1..];
      FlatParts(filename, rest, envp);
      top, j := PlaceVectors(p, argv[1..], envp, ptrs);
      top, j := PlaceFilename(filename, |argv|, top, ptrs, j);
      CopyBelow(before, top, filename + [0], Flat(rest) + Flat(envp));
      TableOrder(ptrs[..], top, filename, rest, envp);
    }

    // The whole of create_elf_tables; p is bprm->p. No index of ptrs is out of
    // range, and j ends at its allocated length.
    method CreateElfTables(p: Word, filename: CString, argv: seq<CString>, envp: seq<CString>) returns (sp: Word)
      requires |argv| >= 1 && NoZero(filename) && AllNoZero(argv) && AllNoZero(envp)
      requires StackNeeded([filename] + argv[1..], envp) < p
      modifies this
      ensures sp % 8 == 0 && sp <= p <= sp + StackNeeded([filename] + argv[1..], envp)
      ensures ReadArguments(mem, sp) == Some(Arguments(|argv|, [filename] + argv[1..], envp))
      ensures forall a: Word :: a < sp || p <= a ==> SameAt(mem, old(mem), a)
      ensures AuxvAt(sp, |argv|, envp) + 24 <= p
      ensures forall a: Word :: 0 <= a - AuxvAt(sp, |argv|, envp) < 24 ==> SameAt(mem, old(mem), a)
    {
      hide Flat, Addrs, Reverse, Copy, WordBytes, ReadArguments, SameAt, NoZero, Table;
      ghost var before, args := mem, [filename] + argv[1..];
      var size := 1 + |envp| + 1 + |argv| + 1;
      var ptrs := new Word[size];
      var top, j := PlaceStrings(p, filename, argv, envp, ptrs);
      ghost var low := top;
      assert ptrs[..j] == ptrs[..];
      top := top - top % 8;
      top := top - 8;
      top := top - 16;
      top := PushTable(ptrs, j, top);
      sp := top;
      ArgumentsAreRead(mem, before, sp, low, p, args, envp);
      forall a: Word | a < sp || p <= a || 0 <= a - AuxvAt(sp, |argv|, envp) < 24 ensures SameAt(mem, before, a) {
        OnlyBelow(mem, before, sp, low, p, args, envp, a);
      }
    }
  }

  // Bytes of stack used in the worst case of alignment.
  function StackNeeded(args: seq<CString>, envp: seq<CString>): nat {
    |Flat(args + envp)| + 7 + 8 + 16 + 8 * (|args| + |envp| + 3)
  }

  // The table of words from the stack pointer up.
  function Table(low: nat, args: seq<CString>, envp: seq<CString>): (r: seq<nat>)
    ensures |r| == |args| + |envp| + 3
  {
    [|args|] + Addrs(low, args) + [0] + Addrs(low + |Flat(args)|, envp) + [0]
  }

  // Where the auxiliary vector begins, past the null that ends envp.
  function AuxvAt(sp: Word, argc: nat, envp: seq<CString>): nat {
    sp + 8 * (argc + |envp| + 3)
  }

  // Memory after create_elf_tables.
  ghost predicate StackImage(mem: Memory, before: Memory, sp: Word, low: nat, p: Word, args: seq<CString>,
    envp: seq<CString>) {
    && low + |Flat(args + envp)| == p
    && 0 < sp
    && sp + 8 * (|args| + |envp| + 3) <= low
    && mem == Copy(Copy(before, low, Flat(args + envp)), sp, WordBytes(Table(low, args, envp)))
  }

  lemma FlatCons(s: CString, rest: seq<CString>, base: nat)
    ensures Flat([s] + rest) == s + [0] + Flat(rest)
    ensures Addrs(base, [s] + rest) == [base] + Addrs(base + |s| + 1, rest)
  {
    assert ([s] + rest)[1..] == rest;
  }

  lemma FlatSuffix(list: seq<CString>, i: nat, base: nat)
    requires i < |list|
    ensures Flat(list[i..]) == list[i] + [0] + Flat(list[i + 1..])
    ensures |Flat(list[i..])| <= |Flat(list)|
    ensures Addrs(base, list[i..]) == [base] + Addrs(base + |list[i]| + 1, list[i + 1..])
  {
    hide Flat, Addrs;
    assert list[i..] == [list[i]] + list[i + 1..];
    FlatCons(list[i], list[i + 1..], base);
    SuffixIsShorter(list, i);
  }

  lemma SuffixFits(list: seq<CString>, i: nat)
    requires i < |list|
    ensures |list[i]| + 1 + |Flat(list[i + 1..])| <= |Flat(list)|
  {
    hide Flat, Addrs;
    FlatSuffix(list, i, 0);
  }

  lemma NothingFrom(list: seq<CString>, base: nat)
    ensures list[|list|..] == [] && Flat([]) == []
    ensures Reverse(Addrs(base, [])) == []
  {
  }

  lemma ReverseCons(x: nat, s: seq<nat>)
    ensures Reverse([x] + s) == Reverse(s) + [x]
  {
    assert ([x] + s)[1..] == s;
  }

  lemma NothingWritten(ws: seq<nat>)
    requires ws == []
    ensures WordBytes(Reverse(ws)) == []
  {
  }

  lemma WordBytesCons(w: nat, ws: seq<nat>)
    ensures WordBytes([w] + ws) == LeBytes(w, 8) + WordBytes(ws)
  {
    assert ([w] + ws)[1..] == ws;
  }

  lemma {:induction false} SuffixIsShorter(list: seq<CString>, i: nat)
    requires i <= |list|
    ensures |Flat(list[i..])| <= |Flat(list)|
  {
    if i == 0 {
      assert list[0..] == list;
    } else {
      SuffixIsShorter(list[1..], i - 1);
      assert list[1..][i - 1..] == list[i..];
    }
  }

  lemma {:induction false} ReverseSnoc(s: seq<nat>, x: nat)
    ensures Reverse(s + [x]) == [x] + Reverse(s)
  {
    if s != [] {
      ReverseSnoc(s[1..], x);
      assert (s + [x])[1..] == s[1..] + [x];
    }
  }

  // ---- How the pieces are put together ----

  lemma {:induction false} FlatAppend(a: seq<CString>, b: seq<CString>)
    ensures Flat(a + b) == Flat(a) + Flat(b)
  {
    if a == [] {
      assert a + b == b;
    } else {
      FlatAppend(a[1..], b);
      assert (a + b)[1..] == a[1..] + b;
    }
  }

  lemma FlatParts(filename: CString, rest: seq<CString>, envp: seq<CString>)
    ensures Flat([filename] + rest) == filename + [0] + Flat(rest)
    ensures Flat([filename] + rest + envp) == filename + [0] + (Flat(rest) + Flat(envp))
  {
    hide Flat, Addrs;
    FlatCons(filename, rest, 0);
    FlatAppend([filename] + rest, envp);
  }

  lemma {:induction false} ReverseAppend(a: seq<nat>, b: seq<nat>)
    ensures Reverse(a + b) == Reverse(b) + Reverse(a)
  {
    if a == [] {
      assert a + b == b;
    } else {
      ReverseAppend(a[1..], b);
      assert (a + b)[1..] == a[1..] + b;
    }
  }

  lemma {:induction false} ReverseTwice(s: seq<nat>)
    ensures Reverse(Reverse(s)) == s
  {
    if s != [] {
      ReverseSnoc(Reverse(s[1..]), s[0]);
      ReverseTwice(s[1..]);
    }
  }

  // ptrs, as the loops fill it, is the table from its last entry to its first.
  lemma TableOrder(ptrs: seq<nat>, low: nat, filename: CString, rest: seq<CString>, envp: seq<CString>)
    requires ptrs == [0] + Reverse(Addrs(low + |filename| + 1 + |Flat(rest)|, envp)) + [0]
                     + Reverse(Addrs(low + |filename| + 1, rest)) + [low] + [|rest| + 1]
    ensures Reverse(ptrs) == Table(low, [filename] + rest, envp)
  {
    hide Flat, Addrs, Reverse;
    var e := Addrs(low + |filename| + 1 + |Flat(rest)|, envp);
    var a := Addrs(low + |filename| + 1, rest);
    var p1 := [0] + Reverse(e);
    var p2 := p1 + [0];
    var p3 := p2 + Reverse(a);
    var p4 := p3 + [low];
    ReverseSnoc(p4, |rest| + 1);
    ReverseSnoc(p3, low);
    ReverseAppend(p2, Reverse(a));
    ReverseTwice(a);
    ReverseSnoc(p1, 0);
    ReverseCons(0, Reverse(e));
    ReverseTwice(e);
    FlatCons(filename, rest, low);
    assert ptrs == p4 + [|rest| + 1];
    assert Reverse(p2) == [0] + (e + [0]);
    assert Reverse(p3) == a + Reverse(p2);
    assert Reverse(ptrs) == [|rest| + 1] + ([low] + (a + ([0] + (e + [0]))));
    var args := [filename] + rest;
    assert low + |Flat(args)| == low + |filename| + 1 + |Flat(rest)|;
    assert Addrs(low, args) == [low] + a;
    assert Addrs(low + |Flat(args)|, envp) == e;
    assert |args| == |rest| + 1;
  }

  // ---- What the reader finds ----

  // The bytes are in memory from base up.
  predicate Present(mem: Memory, base: nat, bytes: seq<Byte>) {
    && base + |bytes| <= TWO64
    && forall a: Word :: base <= a < base + |bytes| ==> a in mem && mem[a] == bytes[a - base]
  }

  lemma PresentPart(mem: Memory, base: nat, x: seq<Byte>, y: seq<Byte>)
    requires Present(mem, base, x + y)
    ensures Present(mem, base, x) && Present(mem, base + |x|, y)
  {
    assert forall k :: 0 <= k < |x| ==> (x + y)[k] == x[k];
    assert forall k :: |x| <= k < |x| + |y| ==> (x + y)[k] == y[k - |x|];
  }

  lemma CopyIsPresent(mem: Memory, base: nat, bytes: seq<Byte>)
    requires base + |bytes| <= TWO64
    ensures Present(Copy(mem, base, bytes), base, bytes)
  {
  }

  lemma StillPresent(mem: Memory, at: nat, written: seq<Byte>, base: nat, bytes: seq<Byte>)
    requires Present(mem, base, bytes) && at + |written| <= base
    ensures Present(Copy(mem, at, written), base, bytes)
  {
  }

  lemma FirstIsPresent(mem: Memory, a: Word, bytes: seq<Byte>)
    requires Present(mem, a, bytes) && bytes != []
    ensures a in mem && mem[a] == bytes[0]
  {
  }

  lemma {:induction false} ReadLeBytes(mem: Memory, a: nat, v: nat, n: nat)
    requires a + n < TWO64 && Present(mem, a, LeBytes(v, n)) && v < Pow2(8 * n)
    ensures LoadBytes(mem, a, n) == Some(v)
    decreases n
  {
    hide LoadBytes, LeBytes, Present, Pow2, Plus;
    if n == 0 {
      Pow2Values();
      LoadNothing(mem, a);
    } else {
      var low, high := v % 256, v / 256;
      Pow2Byte(n - 1);
      LeBytesUnfold(v, n);
      PresentPart(mem, a, [low], LeBytes(high, n - 1));
      FirstIsPresent(mem, a, [low]);
      PlusOne(a);
      ReadLeBytes(mem, a + 1, high, n - 1);
      LoadOneMore(mem, a, n - 1);
    }
  }

  lemma LeBytesUnfold(v: nat, n: nat)
    requires n > 0
    ensures LeBytes(v, n) == [v % 256] + LeBytes(v / 256, n - 1)
  {
  }

  lemma PlusOne(a: Word)
    requires a + 1 < TWO64
    ensures Plus(a, 1) == a + 1
  {
  }

  lemma Pow2Byte(n: nat)
    ensures Pow2(8 * (n + 1)) == 256 * Pow2(8 * n)
  {
    hide Pow2;
    Pow2Four(8 * n);
    Pow2Four(8 * n + 4);
  }

  lemma ReadOneWord(mem: Memory, a: nat, w: nat)
    requires a + 8 < TWO64 && Present(mem, a, LeBytes(w, 8)) && w < TWO64
    ensures ReadWord(mem, a) == Some(w)
  {
    Pow2Values();
    ReadLeBytes(mem, a, w, 8);
  }

  lemma {:induction false} ReadOneString(mem: Memory, a: nat, s: CString)
    requires a + |s| + 1 <= TWO64 && Present(mem, a, s + [0]) && NoZero(s)
    ensures ReadString(mem, a) == Some(s)
    decreases |s|
  {
    FirstIsPresent(mem, a, s + [0]);
    if s != [] {
      assert s + [0] == [s[0]] + (s[1..] + [0]);
      PresentPart(mem, a, [s[0]], s[1..] + [0]);
      assert s[0] != 0 && [s[0]] + s[1..] == s;
      assert NoZero(s[1..]) by {
        forall k | 0 <= k < |s| - 1 ensures s[1..][k] != 0 {
          assert s[1..][k] == s[k + 1];
        }
      }
      ReadOneString(mem, a + 1, s[1..]);
    }
  }

  // A null-terminated vector of pointers to the strings of Flat(list) reads
  // back as list.
  lemma {:induction false} ReadOneVector(mem: Memory, a: nat, base: nat, list: seq<CString>)
    requires 0 < base && base + |Flat(list)| < TWO64 && a + 8 * (|list| + 1) < TWO64
    requires AllNoZero(list)
    requires Present(mem, base, Flat(list))
    requires Present(mem, a, WordBytes(Addrs(base, list) + [0]))
    ensures ReadVector(mem, a) == Some(list)
    decreases |list|
  {
    hide NoZero, LeBytes, Present, ReadWord, ReadString;
    if list == [] {
      WordBytesCons(0, []);
      assert [0] + [] == [0] && Addrs(base, []) + [0] == [0];
      assert WordBytes([]) == [] && LeBytes(0, 8) + [] == LeBytes(0, 8);
      ReadOneWord(mem, a, 0);
    } else {
      var s, rest := list[0], list[1..];
      var next := base + |s| + 1;
      assert [s] + rest == list;
      FlatCons(s, rest, base);
      PresentPart(mem, base, s + [0], Flat(rest));
      ReadOneString(mem, base, s);
      assert Addrs(base, list) + [0] == [base] + (Addrs(next, rest) + [0]);
      WordBytesCons(base, Addrs(next, rest) + [0]);
      PresentPart(mem, a, LeBytes(base, 8), WordBytes(Addrs(next, rest) + [0]));
      ReadOneWord(mem, a, base);
      ReadOneVector(mem, a + 8, next, rest);
    }
  }

  lemma {:induction false} WordBytesAppend(a: seq<nat>, b: seq<nat>)
    ensures WordBytes(a + b) == WordBytes(a) + WordBytes(b)
  {
    hide LeBytes;
    if a == [] {
      assert a + b == b;
    } else {
      WordBytesAppend(a[1..], b);
      assert (a + b)[1..] == a[1..] + b;
    }
  }

  // Strings above the table, undisturbed by it.
  lemma StringsAndTable(mem: Memory, before: Memory, sp: Word, low: nat, p: nat, args: seq<CString>, envp: seq<CString>)
    requires p < TWO64 && StackImage(mem, before, sp, low, p, args, envp)
    ensures Present(mem, low, Flat(args)) && Present(mem, low + |Flat(args)|, Flat(envp))
    ensures Present(mem, sp, WordBytes(Table(low, args, envp)))
  {
    hide Flat, Addrs, Copy, Present, WordBytes, LeBytes, Table;
    var table, strings := WordBytes(Table(low, args, envp)), Flat(args + envp);
    OneAboveTheOther(before, low, strings, sp, table);
    FlatAppend(args, envp);
    PresentPart(mem, low, Flat(args), Flat(envp));
  }

  lemma OneAboveTheOther(mem: Memory, base: nat, strings: seq<Byte>, at: nat, table: seq<Byte>)
    requires at + |table| <= base && base + |strings| <= TWO64
    ensures Present(Copy(Copy(mem, base, strings), at, table), base, strings)
    ensures Present(Copy(Copy(mem, base, strings), at, table), at, table)
  {
    hide Copy, Present;
    var placed := Copy(mem, base, strings);
    CopyIsPresent(mem, base, strings);
    StillPresent(placed, at, table, base, strings);
    CopyIsPresent(placed, at, table);
  }

  lemma TableParts(low: nat, args: seq<CString>, envp: seq<CString>)
    ensures WordBytes(Table(low, args, envp))
         == LeBytes(|args|, 8) + (WordBytes(Addrs(low, args) + [0])
                                  + WordBytes(Addrs(low + |Flat(args)|, envp) + [0]))
  {
    hide Flat, Addrs, WordBytes, LeBytes;
    var a := Addrs(low, args) + [0];
    var e := Addrs(low + |Flat(args)|, envp) + [0];
    assert Table(low, args, envp) == [|args|] + (a + e);
    WordBytesCons(|args|, a + e);
    WordBytesAppend(a, e);
  }

  // Round trip: the reader at sp recovers what the loader was given.
  lemma ArgumentsAreRead(mem: Memory, before: Memory, sp: Word, low: nat, p: nat, args: seq<CString>,
      envp: seq<CString>)
    requires p < TWO64 && StackImage(mem, before, sp, low, p, args, envp)
    requires AllNoZero(args) && AllNoZero(envp)
    ensures ReadArguments(mem, sp) == Some(Arguments(|args|, args, envp))
  {
    hide Flat, Addrs, Copy, Present, WordBytes, LeBytes, ReadWord, ReadVector, AllNoZero;
    StringsAndTable(mem, before, sp, low, p, args, envp);
    TableParts(low, args, envp);
    FlatAppend(args, envp);
    var a := WordBytes(Addrs(low, args) + [0]);
    var e := WordBytes(Addrs(low + |Flat(args)|, envp) + [0]);
    PresentPart(mem, sp, LeBytes(|args|, 8), a + e);
    PresentPart(mem, sp + 8, a, e);
    ReadOneWord(mem, sp, |args|);
    ReadOneVector(mem, sp + 8, low, args);
    ReadOneVector(mem, sp + 8 + 8 * (|args| + 1), low + |Flat(args)|, envp);
  }

  // Only [sp, p) is written, and there not what lies between the pointer table
  // and the strings.
  lemma OnlyBelow(mem: Memory, before: Memory, sp: Word, low: nat, p: nat, args: seq<CString>, envp: seq<CString>,
      a: Word)
    requires p < TWO64 && StackImage(mem, before, sp, low, p, args, envp)
    ensures a < sp || p <= a || AuxvAt(sp, |args|, envp) <= a < low ==> SameAt(mem, before, a)
  {
    hide Copy, Flat, Addrs, WordBytes;
    CopyElsewhere(before, low, Flat(args + envp), a);
    CopyElsewhere(Copy(before, low, Flat(args + envp)), sp, WordBytes(Table(low, args, envp)), a);
  }

  // Two different strings of the image never share a byte, and none reaches
  // into another: each ends before the next begins.
  lemma {:induction false} StringsApart(base: nat, list: seq<CString>, i: nat, j: nat)
    requires i < j < |list|
    ensures base <= Addrs(base, list)[i]
    ensures Addrs(base, list)[i] + |list[i]| + 1 <= Addrs(base, list)[j]
    ensures Addrs(base, list)[j] + |list[j]| + 1 <= base + |Flat(list)|
    decreases list
  {
    hide Flat;
    assert [list[0]] + list[1..] == list;
    FlatCons(list[0], list[1..], base);
    if i > 0 {
      StringsApart(base + |list[0]| + 1, list[1..], i - 1, j - 1);
    } else {
      StringInside(base + |list[0]| + 1, list[1..], j - 1);
    }
  }

  lemma {:induction false} StringInside(base: nat, list: seq<CString>, i: nat)
    requires i < |list|
    ensures base <= Addrs(base, list)[i]
    ensures Addrs(base, list)[i] + |list[i]| + 1 <= base + |Flat(list)|
    decreases list
  {
    hide Flat;
    assert [list[0]] + list[1..] == list;
    FlatCons(list[0], list[1..], base);
    if i > 0 {
      StringInside(base + |list[0]| + 1, list[1..], i - 1);
    }
  }
}
