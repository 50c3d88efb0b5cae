/** What one injected system call does to a stopped process, and how the svc instruction it runs on is found. */
module Injection {
  import opened Words
  import opened ProcMaps
  import opened Tracee

  // ----- one injected call -----

  /** The registers with the first arguments replaced. */
  function Overlay(x: XRegs, args: seq<Word>): XRegs
    requires |args| <= 8
  {
    seq<Word>(31, i requires 0 <= i < 31 => if i < |args| then args[i] else x[i])
  }

  function Loaded(m: Machine, sysno: Word, args: seq<Word>, pc: Word): Machine
    requires |args| <= 8
  {
    m.(regs := m.regs.(x := Overlay(m.regs.x[8 := sysno], args), pc := pc))
  }

  /** The process after an injected call has run to its end. */
  function Call(e: Env, m: Machine, sysno: Word, args: seq<Word>, pc: Word): Machine
    requires |args| <= 8
  {
    Complete(e, Loaded(m, sysno, args, pc))
  }

  /** An injected call leaves pc just past the svc and, but for x8, the arguments and the result,
      every register as it was. */
  lemma CallKeepsRegisters(e: Env, m: Machine, sysno: Word, args: seq<Word>, pc: Word)
    requires |args| <= 8 && sysno != SYS_EXECVE
    ensures var r := Call(e, m, sysno, args, pc).regs;
            && r.pc == NextPc(pc) && r.sp == m.regs.sp && r.pstate == m.regs.pstate
            && forall i | 1 <= i < 31 ::
                 r.x[i] == if i < |args| then args[i] else if i == 8 then sysno else m.regs.x[i]
  {
    var l := Loaded(m, sysno, args, pc);
    SyscallKeepsRegisters(e, l.(regs := l.regs.(pc := NextPc(pc)), waited := 0));
  }

  lemma CallWaited(e: Env, m: Machine, sysno: Word, args: seq<Word>, pc: Word)
    requires |args| <= 8 && sysno != SYS_EXECVE
    ensures Call(e, m, sysno, args, pc).waited == 0
  {
    var l := Loaded(m, sysno, args, pc);
    SyscallKeepsRegisters(e, l.(regs := l.regs.(pc := NextPc(pc)), waited := 0));
  }

  // ----- finding the svc gadget -----

  predicate MatchesAt(bytes: seq<Byte>, i: nat) {
    i + 4 <= |bytes| && bytes[i..i + 4] == SVC_BYTES
  }

  /** The first offset from i on at which the four bytes of svc stand. */
  function ScanSvc(bytes: seq<Byte>, i: nat): (k: Option<nat>)
    ensures k.Some? ==> k.value + 4 <= |bytes|
    decreases |bytes| - i
  {
    if i + 4 > |bytes| then None
    else if MatchesAt(bytes, i) then Some(i)
    else ScanSvc(bytes, i + 1)
  }

  lemma {:induction false} ScanSvcIsFirst(bytes: seq<Byte>, i: nat)
    ensures match ScanSvc(bytes, i)
            case Some(k) => i <= k && MatchesAt(bytes, k) && forall j | i <= j < k :: !MatchesAt(bytes, j)
            case None => forall j | i <= j :: !MatchesAt(bytes, j)
    decreases |bytes| - i
  {
    if i + 4 > |bytes| || MatchesAt(bytes, i) {
    } else {
      ScanSvcIsFirst(bytes, i + 1);
    }
  }

  function FindSvcInMap(mm: MemoryMap, mem: Memory): Result<Word> {
    if mm.size == 0 || !UserReadable(mem, mm.base, End(mm)) then Err(TransferFailed)
    else if mm.size < 3 then Err(Panic)
    else
      match ScanSvc(Load(mem, mm.base, mm.size), 0)
      case None => Err(NoSvc)
      case Some(i) => var addr: Word := mm.base + i; Ok(addr)
  }

  /** What find_svc_instruction answers for a map list and a memory. */
  function FindSvc(maps: seq<MemoryMap>, mem: Memory): Result<Word> {
    if maps == [] then Err(NoVdso)
    else if maps[0].name == "[vdso]" then FindSvcInMap(maps[0], mem)
    else FindSvc(maps[1..], mem)
  }

  /** The gadget found is the first svc of the first region called [vdso]. */
  lemma {:induction false} FindSvcIsFirst(maps: seq<MemoryMap>, mem: Memory) returns (k: nat, i: nat)
    requires FindSvc(maps, mem).Ok?
    ensures k < |maps| && maps[k].name == "[vdso]" && forall j | 0 <= j < k :: maps[j].name != "[vdso]"
    ensures Readable(mem, maps[k].base, End(maps[k])) && FindSvc(maps, mem) == Ok(maps[k].base + i)
    ensures var bytes := Load(mem, maps[k].base, maps[k].size);
            MatchesAt(bytes, i) && forall j | 0 <= j < i :: !MatchesAt(bytes, j)
  {
    if maps[0].name == "[vdso]" {
      var bytes := Load(mem, maps[0].base, maps[0].size);
      ScanSvcIsFirst(bytes, 0);
      k, i := 0, ScanSvc(bytes, 0).value;
    } else {
      k, i := FindSvcIsFirst(maps[1..], mem);
      k := k + 1;
    }
  }

  /** The k-th region is the first one called [vdso]. */
  ghost predicate FirstVdso(maps: seq<MemoryMap>, k: nat) {
    k < |maps| && maps[k].name == "[vdso]" && forall j | 0 <= j < k :: maps[j].name != "[vdso]"
  }

  /** The bytes of svc #0 stand at the address. */
  predicate SvcBytesAt(mem: Memory, a: nat) {
    && a in mem && mem[a].value == 0x01 && a + 1 in mem && mem[a + 1].value == 0x00
    && a + 2 in mem && mem[a + 2].value == 0x00 && a + 3 in mem && mem[a + 3].value == 0xd4
  }

  /** A region can be read by another process and has an svc in it. */
  ghost predicate HoldsSvc(mm: MemoryMap, mem: Memory) {
    && mm.size >= 3 && End(mm) <= TASK_SIZE && Readable(mem, mm.base, End(mm))
    && exists a :: mm.base <= a && a + 4 <= End(mm) && SvcBytesAt(mem, a)
  }

  lemma MatchesAtIs(mm: MemoryMap, mem: Memory, i: nat)
    requires Readable(mem, mm.base, End(mm)) && i + 4 <= mm.size
    ensures MatchesAt(Load(mem, mm.base, mm.size), i) <==> SvcBytesAt(mem, mm.base + i)
  {
    var bytes := Load(mem, mm.base, mm.size);
    var at, word := mm.base + i, bytes[i..i + 4];
    assert at in mem && at + 1 in mem && at + 2 in mem && at + 3 in mem;
    assert word[0] == mem[at].value && word[1] == mem[at + 1].value;
    assert word[2] == mem[at + 2].value && word[3] == mem[at + 3].value;
    assert word == SVC_BYTES <==> word[0] == 0x01 && word[1] == 0x00 && word[2] == 0x00 && word[3] == 0xd4;
  }

  /** One region has a gadget exactly if it holds an svc, and the gadget is the first one. */
  lemma FindSvcInMapIff(mm: MemoryMap, mem: Memory)
    ensures FindSvcInMap(mm, mem).Ok? <==> HoldsSvc(mm, mem)
    ensures FindSvcInMap(mm, mem) != Err(NoVdso)
    ensures FindSvcInMap(mm, mem).Ok? ==>
              var svc := FindSvcInMap(mm, mem).value;
              SvcBytesAt(mem, svc) && forall a | mm.base <= a < svc :: !SvcBytesAt(mem, a)
  {
    hide ScanSvc, SvcBytesAt, MatchesAt;
    if mm.size >= 3 && UserReadable(mem, mm.base, End(mm)) {
      var bytes := Load(mem, mm.base, mm.size);
      ScanSvcIsFirst(bytes, 0);
      forall i: nat | i + 4 <= mm.size
        ensures MatchesAt(bytes, i) <==> SvcBytesAt(mem, mm.base + i)
      {
        MatchesAtIs(mm, mem, i);
      }
      NoLateMatch(bytes);
      forall a | mm.base <= a && a + 4 <= End(mm)
        ensures SvcBytesAt(mem, a) <==> MatchesAt(bytes, a - mm.base)
      {
        assert a == mm.base + (a - mm.base);
      }
    }
  }

  lemma NoLateMatch(bytes: seq<Byte>)
    ensures forall i: nat | MatchesAt(bytes, i) :: i + 4 <= |bytes|
  {
  }

  /** A gadget is found exactly when some region is called [vdso] and the first of them holds an svc, whatever
      comes before it. It is not found for want of a [vdso] exactly when no region has that name. */
  lemma {:induction false} FindSvcIff(maps: seq<MemoryMap>, mem: Memory)
    ensures FindSvc(maps, mem).Ok? <==> exists k: nat :: FirstVdso(maps, k) && HoldsSvc(maps[k], mem)
    ensures FindSvc(maps, mem) == Err(NoVdso) <==> forall mm | mm in maps :: mm.name != "[vdso]"
  {
    hide FindSvcInMap, HoldsSvc;
    if maps == [] {
    } else if maps[0].name == "[vdso]" {
      FindSvcInMapIff(maps[0], mem);
      assert FirstVdso(maps, 0);
    } else {
      FindSvcIff(maps[1..], mem);
      forall k: nat | k + 1 < |maps|
        ensures FirstVdso(maps, k + 1) <==> FirstVdso(maps[1..], k)
      {
        FirstVdsoOfRest(maps, k);
      }
      if k: nat :| FirstVdso(maps, k) && HoldsSvc(maps[k], mem) {
        assert FirstVdso(maps[1..], k - 1);
      }
      assert forall mm :: mm in maps <==> mm == maps[0] || mm in maps[1..];
    }
  }

  lemma FirstVdsoOfRest(maps: seq<MemoryMap>, k: nat)
    requires k + 1 < |maps| && maps[0].name != "[vdso]"
    ensures FirstVdso(maps, k + 1) <==> FirstVdso(maps[1..], k)
  {
    assert forall j | 1 <= j < k + 1 :: maps[j] == maps[1..][j - 1];
    assert forall j | 0 <= j < k :: maps[1..][j] == maps[j + 1];
  }

  /** A map list read once keeps finding the same gadget while memory only grows. */
  lemma {:induction false} FindSvcExtends(maps: seq<MemoryMap>, m: Memory, m': Memory)
    requires Extends(m, m') && FindSvc(maps, m).Ok?
    ensures FindSvc(maps, m') == FindSvc(maps, m)
  {
    if maps[0].name == "[vdso]" {
      assert Load(m, maps[0].base, maps[0].size) == Load(m', maps[0].base, maps[0].size);
    } else {
      FindSvcExtends(maps[1..], m, m');
    }
  }

  /** The gadget address found by way of the list still holds an executable svc. */
  ghost predicate GadgetLive(maps: seq<MemoryMap>, mem: Memory) {
    FindSvc(maps, mem).Ok? ==> SvcAt(mem, FindSvc(maps, mem).value)
  }

  // ----- first moves -----

  /** n is the first number of steps after which pc has changed. */
  ghost predicate FirstMove(e: Env, m: Machine, n: nat) {
    && Steps(e, m, n).regs.pc != m.regs.pc
    && forall k: nat | k < n :: Steps(e, m, k).regs.pc == m.regs.pc
  }

  lemma InjectedCallMoves(e: Env, m: Machine, sysno: Word, args: seq<Word>, pc: Word) returns (n: nat)
    requires |args| <= 8 && SvcAt(m.mem, pc)
    requires sysno == SYS_EXECVE ==> Call(e, m, sysno, args, pc).regs.pc != pc
    ensures FirstMove(e, Loaded(m, sysno, args, pc), n)
    ensures Steps(e, Loaded(m, sysno, args, pc), n) == Call(e, m, sysno, args, pc)
  {
    var l := Loaded(m, sysno, args, pc);
    CallCompletesOnce(e, l);
    if sysno != SYS_EXECVE {
      CallKeepsRegisters(e, m, sysno, args, pc);
    }
    n := Remaining(e, l) + 1;
  }

  // ----- the calls that are injected -----

  lemma RoundUpFacts(n: nat)
    ensures n <= RoundUp(n) < n + PAGE && RoundUp(n) % PAGE == 0
    ensures n % PAGE == 0 ==> RoundUp(n) == n
  {
  }

  /** Nothing but memory and registers differs. */
  ghost predicate SameIo(m: Machine, m': Machine) {
    m'.fds == m.fds && m'.out == m.out && m'.image == m.image
  }

  lemma CallMunmap(e: Env, m: Machine, lo: Word, size: Word, pc: Word)
    requires lo % PAGE == 0 && size % PAGE == 0 && size > 0 && lo + size <= TASK_SIZE
    ensures var r := Call(e, m, SYS_MUNMAP, [lo, size], pc);
            r.mem == Unmap(m.mem, lo, lo + size) && SameIo(m, r) && r.clock == m.clock + 1 && r.regs.x[0] == 0
  {
    RoundUpFacts(size);
  }

  function MmapArgs(hint: Word, size: Word, prot: Word): seq<Word> {
    [hint, size, prot, ANONYMOUS_PRIVATE, MINUS_ONE, 0]
  }

  /** The registers an injected mmap leaves, but for its result: the number 222, and an anonymous private mapping
      (0x22) of no file. */
  lemma MmapRegisters(e: Env, m: Machine, hint: Word, size: Word, prot: Word, pc: Word)
    ensures var x := Call(e, m, SYS_MMAP, MmapArgs(hint, size, prot), pc).regs.x;
            x[1] == size && x[2] == prot && x[3] == 0x22 && x[4] == 0xffff_ffff_ffff_ffff && x[5] == 0 && x[8] == 222
  {
    CallKeepsRegisters(e, m, SYS_MMAP, MmapArgs(hint, size, prot), pc);
    hide Call;
  }

  predicate Grants(e: Env, mem: Memory, t: nat, hint: Word, n: nat) {
    n > 0 && !e.deny(t) && Mappable(mem, Placement(e, mem, t, hint, n), n)
  }

  lemma CallMmap(e: Env, m: Machine, hint: Word, size: Word, prot: Word, pc: Word)
    ensures var r, n := Call(e, m, SYS_MMAP, MmapArgs(hint, size, prot), pc), RoundUp(size);
            var lo := Placement(e, m.mem, m.clock, hint, n);
            && SameIo(m, r) && r.clock == m.clock + 1
            && (Grants(e, m.mem, m.clock, hint, n) ==>
                  r.regs.x[0] == lo && r.mem == m.mem + Zeros(lo, lo + n, ProtOf(prot)))
            && (!Grants(e, m.mem, m.clock, hint, n) ==>
                  r.regs.x[0] >= WORD_LIMIT - 4096 && r.regs.x[0] != MINUS_ONE && r.mem == m.mem)
  {
  }

  lemma CallMprotect(e: Env, m: Machine, lo: Word, size: Word, prot: Word, pc: Word)
    requires lo % PAGE == 0 && size % PAGE == 0
    ensures var r := Call(e, m, SYS_MPROTECT, [lo, size, prot], pc);
            && SameIo(m, r) && r.clock == m.clock + 1
            && r.mem == if Mapped(m.mem, lo, lo + size) then Protect(m.mem, lo, lo + size, ProtOf(prot)) else m.mem
  {
    RoundUpFacts(size);
  }

  lemma CallClose(e: Env, m: Machine, fd: Word, pc: Word)
    ensures var r := Call(e, m, SYS_CLOSE, [fd], pc);
            && r.mem == m.mem && r.out == m.out && r.image == m.image && r.clock == m.clock + 1
            && r.fds == m.fds - {fd}
  {
    assert fd !in m.fds ==> m.fds - {fd} == m.fds;
  }

  lemma CallOpenat(e: Env, m: Machine, dir: Word, path: Word, flags: Word, mode: Word, pc: Word)
    ensures var r, s := Call(e, m, SYS_OPENAT, [dir, path, flags, mode], pc), ReadString(m.mem, path);
            && r.mem == m.mem && r.out == m.out && r.image == m.image && r.clock == m.clock + 1
            && r.fds == if s.Some? && e.opens(s.value).Some? && LowestFree(m.fds, 0) < WORD_LIMIT
                        then m.fds[LowestFree(m.fds, 0) := Opened(e.opens(s.value).value, flags)] else m.fds
  {
    hide LowestFree, ReadString;
  }

  /** execve gets the strings the memory holds, and replaces the process or returns an errno. */
  lemma CallExecve(e: Env, m: Machine, path: Word, argv: Word, envp: Word, pc: Word)
    ensures var r := Call(e, m, SYS_EXECVE, [path, argv, envp], pc);
            && r.fds == m.fds && r.out == m.out
            && match (ReadString(m.mem, path), ReadVector(m.mem, argv), ReadVector(m.mem, envp))
               case (Some(p), Some(a), Some(v)) =>
                 (match e.loads(p)
                  case Some(program) =>
                    r.image == Some(Exec(p, a, v)) && r.mem == program.mem && r.regs == program.regs
                  case None =>
                    r.image == m.image && r.mem == m.mem && r.regs.x[0] == Negative(ENOENT) && r.regs.pc == NextPc(pc))
               case _ =>
                 r.image == m.image && r.mem == m.mem && r.regs.x[0] == Negative(EFAULT) && r.regs.pc == NextPc(pc)
  {
    hide ReadString, ReadVector;
  }

  // ----- filled regions -----

  /** A mapped range that starts with the given bytes and is zero after them. */
  function Filled(lo: nat, hi: nat, bytes: seq<Byte>, prot: Prot): (cells: Memory)
    ensures forall a: nat :: a in cells <==> lo <= a < hi
    ensures forall a | a in cells :: cells[a] == Cell(if a - lo < |bytes| then bytes[a - lo] else 0, prot)
  {
    map a: nat | lo <= a < hi && Within(a, lo, hi) :: Cell(if a - lo < |bytes| then bytes[a - lo] else 0, prot)
  }

  /** Writing into fresh memory fills it. */
  lemma StoreFills(mem: Memory, lo: nat, hi: nat, bytes: seq<Byte>, prot: Prot)
    requires Free(mem, lo, hi) && lo + |bytes| <= hi
    ensures Store(mem + Zeros(lo, hi, prot), lo, bytes) == mem + Filled(lo, hi, bytes, prot)
  {
  }

  lemma ProtectFilled(mem: Memory, lo: nat, hi: nat, bytes: seq<Byte>, prot: Prot, prot': Prot)
    requires Free(mem, lo, hi)
    ensures Protect(mem + Filled(lo, hi, bytes, prot), lo, hi, prot') == mem + Filled(lo, hi, bytes, prot')
  {
  }

  // ----- the gadget page -----

  function SvcPattern(n: nat): (bytes: seq<Byte>)
    ensures |bytes| == n
    ensures forall i | 0 <= i < n :: bytes[i] == SVC_BYTES[i % 4]
  {
    seq<Byte>(n, i requires 0 <= i < n => SVC_BYTES[i % 4])
  }

  /** A page every aligned address of which holds an executable svc. */
  ghost predicate GadgetPage(mem: Memory, page: nat) {
    page % PAGE == 0 && forall a | page <= a < page + PAGE && a % 4 == 0 :: SvcAt(mem, a)
  }

  lemma PatternIsSvc(mem: Memory, page: nat, a: nat)
    requires page % PAGE == 0 && page <= a < page + PAGE && a % 4 == 0
    requires forall b | page <= b < page + PAGE :: b in mem && mem[b] == Cell(SVC_BYTES[(b - page) % 4], RWX)
    ensures SvcAt(mem, a)
  {
    var k := (a - page) / 4;
    assert a - page == 4 * k && k < 1024;
    assert mem[a].value == 0x01 && mem[a + 1].value == 0x00 && mem[a + 2].value == 0x00 && mem[a + 3].value == 0xd4;
    assert Mapped(mem, a, a + 4);
  }

  lemma PatternIsGadget(mem: Memory, page: nat)
    requires page % PAGE == 0
    ensures GadgetPage(mem + Filled(page, page + PAGE, SvcPattern(PAGE), RWX), page)
  {
    var mem' := mem + Filled(page, page + PAGE, SvcPattern(PAGE), RWX);
    forall a | page <= a < page + PAGE && a % 4 == 0
      ensures SvcAt(mem', a)
    {
      PatternIsSvc(mem', page, a);
    }
  }

  /** The result of an mmap with a hint: the mapping where the kernel placed it, or an errno. */
  predicate MmapOutcome(e: Env, before: Memory, t: nat, hint: Word, n: nat, prot: Prot, after: Memory, ret: Word) {
    if Grants(e, before, t, hint, n)
    then ret == Placement(e, before, t, hint, n) && after == before + Zeros(ret, ret + n, prot)
    else ret >= WORD_LIMIT - 4096 && ret != MINUS_ONE && after == before
  }

  /** Asked for above everything mapped, a page comes where it was asked for, or nothing can be written there. */
  lemma PageAskedFor(e: Env, before: Memory, t: nat, page: Word, after: Memory, ret: Word)
    requires page % PAGE == 0 && LOWEST_MAPPABLE <= page
    requires forall a: nat | page - PAGE <= a :: a !in before
    requires MmapOutcome(e, before, t, page, PAGE, RWX, after, ret)
    ensures if page + PAGE <= TASK_SIZE && !e.deny(t) then after == before + Zeros(page, page + PAGE, RWX)
            else !UserWritable(after, page, page + PAGE)
  {
    assert page !in before;
  }

  /** Asked for above everything mapped, a page can be written exactly when it fits into user space
      and the mmap is not refused; written with the svc pattern it is a gadget page. */
  lemma SvcPageOutcome(e: Env, before: Memory, t: nat, page: Word, after: Memory, ret: Word)
    requires page % PAGE == 0 && LOWEST_MAPPABLE <= page
    requires forall a: nat | page - PAGE <= a :: a !in before
    requires MmapOutcome(e, before, t, page, PAGE, RWX, after, ret)
    ensures var done, granted := before + Filled(page, page + PAGE, SvcPattern(PAGE), RWX),
                                 page + PAGE <= TASK_SIZE && !e.deny(t);
            && (UserWritable(after, page, page + PAGE) <==> granted)
            && (granted ==> Store(after, page, SvcPattern(PAGE)) == done) && GadgetPage(done, page)
  {
    hide GadgetPage, SvcPattern, Store, Filled, MmapOutcome, Zeros;
    PageAskedFor(e, before, t, page, after, ret);
    StoreFills(before, page, page + PAGE, SvcPattern(PAGE), RWX);
    PatternIsGadget(before, page);
  }

  lemma GadgetWorks(mem: Memory, page: nat)
    requires GadgetPage(mem, page)
    ensures SvcAt(mem, page)
  {
    hide SvcAt;
    assert page == 4 * (1024 * (page / PAGE));
  }

  lemma GadgetKept(m: Memory, m': Memory, page: nat)
    requires GadgetPage(m, page) && SameOn(m, m', page, page + PAGE)
    ensures GadgetPage(m', page)
  {
    forall a | page <= a < page + PAGE && a % 4 == 0
      ensures SvcAt(m', a)
    {
      SvcAtSame(m, m', a);
    }
  }

  /** What is found and live in a memory is found and live in every larger one. */
  lemma GadgetLiveExtends(maps: seq<MemoryMap>, m: Memory, m': Memory)
    requires Extends(m, m') && FindSvc(maps, m).Ok? && GadgetLive(maps, m)
    ensures FindSvc(maps, m') == FindSvc(maps, m) && GadgetLive(maps, m')
  {
    FindSvcExtends(maps, m, m');
    SvcAtSame(m, m', FindSvc(maps, m).value);
  }

  // ----- map lists -----

  /** A region the kernel can list and map again: whole pages of user space. */
  predicate WholePages(mm: MemoryMap) {
    && mm.base % PAGE == 0 && mm.size % PAGE == 0 && mm.size > 0
    && LOWEST_MAPPABLE <= mm.base && End(mm) <= TASK_SIZE
  }

  predicate Inside(a: nat, mm: MemoryMap) {
    mm.base <= a < End(mm)
  }

  /** Every mapped address is in a listed region, and every listed region is whole pages. */
  ghost predicate Covers(maps: seq<MemoryMap>, mem: Memory) {
    && (forall mm | mm in maps :: WholePages(mm))
    && (forall a | a in mem :: exists mm | mm in maps :: Inside(a, mm))
  }

  function Max(a: nat, b: nat): nat {
    if a >= b then a else b
  }

  function HighestEnd(maps: seq<MemoryMap>): nat {
    if maps == [] then 0 else Max(HighestEnd(maps[..|maps| - 1]), End(maps[|maps| - 1]))
  }

  lemma {:induction false} HighestEndIsHighest(maps: seq<MemoryMap>)
    ensures forall mm | mm in maps :: End(mm) <= HighestEnd(maps)
    ensures maps == [] || exists mm | mm in maps :: HighestEnd(maps) == End(mm)
  {
    if maps == [] {
    } else {
      var front, last := maps[..|maps| - 1], maps[|maps| - 1];
      HighestEndIsHighest(front);
      assert maps == front + [last];
      assert last in maps;
      if front != [] && HighestEnd(maps) != End(last) {
        var mm :| mm in front && HighestEnd(front) == End(mm);
        assert mm in maps;
      }
    }
  }

  lemma HighestEndSteps(maps: seq<MemoryMap>)
    ensures HighestEnd(maps[..0]) == 0 && maps[..|maps|] == maps
    ensures forall i | 0 <= i < |maps| :: HighestEnd(maps[..i + 1]) == Max(HighestEnd(maps[..i]), End(maps[i]))
  {
    assert forall i | 0 <= i < |maps| :: maps[..i + 1][..i] == maps[..i];
  }

  /** Where map_svc_region wants its page: one page above the highest region. */
  function GadgetAddress(maps: seq<MemoryMap>): nat {
    HighestEnd(maps) + PAGE
  }

  /** However the list is ordered, nothing is mapped at that page or above it. */
  lemma AboveEverything(maps: seq<MemoryMap>, mem: Memory)
    requires Covers(maps, mem)
    ensures forall a: nat | HighestEnd(maps) <= a :: a !in mem
    ensures GadgetAddress(maps) % PAGE == 0
    ensures forall mm | mm in maps :: End(mm) + 4096 <= GadgetAddress(maps)
    ensures maps != [] ==> exists mm | mm in maps :: GadgetAddress(maps) == End(mm) + 4096
    ensures maps != [] ==> LOWEST_MAPPABLE <= GadgetAddress(maps) && HighestEnd(maps) <= TASK_SIZE
  {
    HighestEndIsHighest(maps);
    HighestEndIsPage(maps);
    hide HighestEnd, WholePages;
    forall a | a in mem
      ensures a < HighestEnd(maps)
    {
      var mm :| mm in maps && Inside(a, mm);
      assert End(mm) <= HighestEnd(maps);
    }
  }

  lemma {:induction false} HighestEndIsPage(maps: seq<MemoryMap>)
    requires forall mm | mm in maps :: WholePages(mm)
    ensures HighestEnd(maps) % PAGE == 0 && HighestEnd(maps) <= TASK_SIZE
    ensures maps != [] ==> LOWEST_MAPPABLE <= HighestEnd(maps)
  {
    if maps == [] {
    } else {
      var front, last := maps[..|maps| - 1], maps[|maps| - 1];
      assert last in maps && forall mm | mm in front :: mm in maps;
      HighestEndIsPage(front);
    }
  }

  // ----- the image of a saved region -----

  lemma UnmapFrees(mem: Memory, mm: MemoryMap, page: nat)
    requires WholePages(mm) && Apart(mm, page, page + PAGE)
    ensures Mappable(Unmap(mem, mm.base, End(mm)), mm.base, mm.size)
    ensures GadgetPage(mem, page) ==> GadgetPage(Unmap(mem, mm.base, End(mm)), page)
  {
    if GadgetPage(mem, page) {
      GadgetKept(mem, Unmap(mem, mm.base, End(mm)), page);
    }
  }

  lemma GadgetKeptBeside(mem: Memory, mm: MemoryMap, bytes: seq<Byte>, prot: Prot, page: nat)
    requires GadgetPage(mem, page) && Apart(mm, page, page + PAGE)
    ensures GadgetPage(mem + Filled(mm.base, End(mm), bytes, prot), page)
  {
    GadgetKept(mem, mem + Filled(mm.base, End(mm), bytes, prot), page);
  }

  lemma ZerosAreFilled(lo: nat, hi: nat, prot: Prot)
    ensures Zeros(lo, hi, prot) == Filled(lo, hi, [], prot)
  {
  }

  function ProtOfMap(mm: MemoryMap): Prot {
    Prot(mm.readable, mm.writable, mm.executable)
  }

  /** A saved region as it is rebuilt: its captured bytes, zeros where none were captured, its permissions. */
  function SavedCells(mm: MemoryMap): Memory {
    Filled(mm.base, End(mm), mm.data, ProtOfMap(mm))
  }

  function Restored(mem: Memory, mm: MemoryMap): Memory {
    Unmap(mem, mm.base, End(mm)) + SavedCells(mm)
  }

  ghost predicate Apart(mm: MemoryMap, lo: nat, hi: nat) {
    End(mm) <= lo || hi <= mm.base
  }

  /** The mappings of injected data. */
  function Injected(addr: nat, bytes: seq<Byte>): Memory {
    Filled(addr, addr + RoundUp(|bytes|), bytes, Prot(true, true, false))
  }

  /** A granted block of data can be written, and is then all that is new. */
  lemma BlockFills(mem: Memory, lo: nat, n: nat, bytes: seq<Byte>)
    requires Mappable(mem, lo, n) && |bytes| <= n
    ensures var mapped := mem + Zeros(lo, lo + n, Prot(true, true, false));
            && UserWritable(mapped, lo, lo + |bytes|)
            && Store(mapped, lo, bytes) == mem + Filled(lo, lo + n, bytes, Prot(true, true, false))
  {
    StoreFills(mem, lo, lo + n, bytes, Prot(true, true, false));
    hide Store, Filled;
  }

  lemma NowhereToWrite(mem: Memory, at: nat, bytes: seq<Byte>)
    requires at >= TASK_SIZE && bytes != []
    ensures !UserWritable(mem, at, at + |bytes|)
  {
  }

  /** The result of mapping and writing a block of data: the block alone is added, at a place that
      was free, or nothing is. It is added exactly when the kernel grants the mapping. */
  lemma BlockOutcome(e: Env, before: Memory, t: nat, bytes: seq<Byte>, n: nat, after: Memory, ret: Word)
    requires n == RoundUp(|bytes|) && MmapOutcome(e, before, t, 0, n, Prot(true, true, false), after, ret)
    ensures UserWritable(after, ret, ret + |bytes|) && bytes != [] <==> Grants(e, before, t, 0, n)
    ensures if Grants(e, before, t, 0, n)
            then && ret == e.place(t) && Mappable(before, ret, n)
                 && Store(after, ret, bytes) == before + Injected(ret, bytes)
            else after == before
  {
    RoundUpFacts(|bytes|);
    hide RoundUp, Store, Filled, Zeros, UserWritable, Free;
    if Grants(e, before, t, 0, n) {
      BlockFills(before, ret, n, bytes);
    } else if bytes != [] {
      NowhereToWrite(after, ret, bytes);
    }
  }

  lemma FreshExtends(mem: Memory, lo: nat, hi: nat, bytes: seq<Byte>, prot: Prot)
    requires Free(mem, lo, hi)
    ensures Extends(mem, mem + Filled(lo, hi, bytes, prot))
  {
  }

  lemma InjectedExtends(mem: Memory, addr: nat, bytes: seq<Byte>)
    requires Mappable(mem, addr, RoundUp(|bytes|))
    ensures Extends(mem, mem + Injected(addr, bytes))
  {
    FreshExtends(mem, addr, addr + RoundUp(|bytes|), bytes, Prot(true, true, false));
  }

  /** The little-endian bytes of a list of words, one after the other. */
  function LeBytes(xs: seq<Word>): (bytes: seq<Byte>)
    ensures |bytes| == 8 * |xs|
  {
    if xs == [] then [] else ToLe(xs[0], 8) + LeBytes(xs[1..])
  }

  /** What is known of a hole while its region is rebuilt in it. */
  lemma RegionFilled(hole: Memory, mm: MemoryMap, page: nat)
    requires Mappable(hole, mm.base, mm.size) && WholePages(mm) && |mm.data| <= mm.size
    requires GadgetPage(hole, page) && Apart(mm, page, page + PAGE)
    ensures !Mapped(hole, mm.base, End(mm))
    ensures mm.data != [] ==> !UserWritable(hole, mm.base, mm.base + |mm.data|)
    ensures var p := Prot(mm.readable, true, mm.executable);
            var mapped, filled := hole + Filled(mm.base, End(mm), [], p), hole + Filled(mm.base, End(mm), mm.data, p);
            && UserWritable(mapped, mm.base, mm.base + |mm.data|)
            && Store(mapped, mm.base, mm.data) == filled && (mm.data == [] ==> mapped == filled)
            && GadgetPage(filled, page)
            && Mapped(filled, mm.base, End(mm))
            && Protect(filled, mm.base, End(mm), ProtOfMap(mm)) == hole + SavedCells(mm)
            && (mm.writable ==> filled == hole + SavedCells(mm))
    ensures GadgetPage(hole + SavedCells(mm), page)
  {
    var p := Prot(mm.readable, true, mm.executable);
    assert mm.base !in hole;
    ZerosAreFilled(mm.base, End(mm), p);
    StoreFills(hole, mm.base, End(mm), mm.data, p);
    ProtectFilled(hole, mm.base, End(mm), mm.data, p, ProtOfMap(mm));
    GadgetKeptBeside(hole, mm, mm.data, p, page);
    GadgetKeptBeside(hole, mm, mm.data, ProtOfMap(mm), page);
  }

  // ----- words written one at a time -----

  /** Adjacent stores are one store. */
  lemma StoreAppend(mem: Memory, lo: nat, a: seq<Byte>, b: seq<Byte>)
    ensures Store(Store(mem, lo, a), lo + |a|, b) == Store(mem, lo, a + b)
  {
  }

  // ----- rot13 -----

  function Rot13Byte(b: Byte): Byte {
    if 65 <= b <= 90 then (b - 65 + 13) % 26 + 65
    else if 97 <= b <= 122 then (b - 97 + 13) % 26 + 97
    else b
  }

  lemma Rot13ByteTwice(b: Byte)
    ensures Rot13Byte(Rot13Byte(b)) == b
  {
  }

  const UPPERCASE := "ABCDEFGHIJKLMNOPQRSTUVWXYZ"
  const LOWERCASE := "abcdefghijklmnopqrstuvwxyz"

  /** The byte is the k-th letter of an alphabet, counted from 0. */
  predicate LetterAt(alphabet: string, k: nat, b: Byte) {
    k < |alphabet| && alphabet[k] as int == b
  }

  /** The letter thirteen places on in the same alphabet, round its end; any other byte itself. */
  ghost predicate IsRot13(b: Byte, r: Byte) {
    && (forall k: nat | LetterAt(UPPERCASE, k, b) :: LetterAt(UPPERCASE, (k + 13) % 26, r))
    && (forall k: nat | LetterAt(LOWERCASE, k, b) :: LetterAt(LOWERCASE, (k + 13) % 26, r))
    && ((forall k: nat :: !LetterAt(UPPERCASE, k, b) && !LetterAt(LOWERCASE, k, b)) ==> r == b)
  }

  lemma AlphabetIs(alphabet: string, first: Byte, b: Byte)
    requires |alphabet| == 26 && forall k | 0 <= k < 26 :: alphabet[k] as int == first + k
    ensures forall k: nat :: LetterAt(alphabet, k, b) <==> k < 26 && b == first + k
  {
  }

  lemma AlphabetCodes()
    ensures |UPPERCASE| == 26 && forall k | 0 <= k < 26 :: UPPERCASE[k] as int == 65 + k
    ensures |LOWERCASE| == 26 && forall k | 0 <= k < 26 :: LOWERCASE[k] as int == 97 + k
  {
  }

  /** Which bytes are letters, and at which place. */
  lemma LetterPlaces(b: Byte)
    ensures forall k: nat :: LetterAt(UPPERCASE, k, b) <==> k < 26 && b == 65 + k
    ensures forall k: nat :: LetterAt(LOWERCASE, k, b) <==> k < 26 && b == 97 + k
  {
    AlphabetCodes();
    AlphabetIs(UPPERCASE, 65, b);
    AlphabetIs(LOWERCASE, 97, b);
  }

  lemma UppercaseIs(b: Byte, r: Byte)
    requires 65 <= b <= 90
    ensures IsRot13(b, r) <==> r == (b - 65 + 13) % 26 + 65
  {
    LetterPlaces(b);
    LetterPlaces(r);
    hide LetterAt;
    assert LetterAt(UPPERCASE, b - 65, b);
  }

  lemma LowercaseIs(b: Byte, r: Byte)
    requires 97 <= b <= 122
    ensures IsRot13(b, r) <==> r == (b - 97 + 13) % 26 + 97
  {
    LetterPlaces(b);
    LetterPlaces(r);
    hide LetterAt;
    assert LetterAt(LOWERCASE, b - 97, b);
  }

  lemma NoLetterIs(b: Byte, r: Byte)
    requires !(65 <= b <= 90) && !(97 <= b <= 122)
    ensures IsRot13(b, r) <==> r == b
  {
    LetterPlaces(b);
    hide LetterAt;
  }

  /** rot13_byte gives each byte that one and no other. */
  lemma Rot13ByteIs(b: Byte, r: Byte)
    ensures r == Rot13Byte(b) <==> IsRot13(b, r)
  {
    hide IsRot13;
    if 65 <= b <= 90 {
      UppercaseIs(b, r);
    } else if 97 <= b <= 122 {
      LowercaseIs(b, r);
    } else {
      NoLetterIs(b, r);
    }
  }

  function Rot13Bytes(bytes: seq<Byte>): (r: seq<Byte>)
    ensures |r| == |bytes|
    ensures forall i | 0 <= i < |bytes| :: r[i] == Rot13Byte(bytes[i])
  {
    seq<Byte>(|bytes|, i requires 0 <= i < |bytes| => Rot13Byte(bytes[i]))
  }

  /** Memory with every byte of a range rotated. */
  function Rot13Mem(mem: Memory, lo: nat, n: nat): Memory {
    map a | a in mem :: if lo <= a < lo + n then mem[a].(value := Rot13Byte(mem[a].value)) else mem[a]
  }

  /** Each byte of a range is rotated, and nothing else in memory has changed. */
  ghost predicate RotatedRange(before: Memory, after: Memory, lo: nat, n: nat) {
    && after.Keys == before.Keys
    && forall a | a in before ::
         && after[a].prot == before[a].prot
         && if lo <= a < lo + n then IsRot13(before[a].value, after[a].value) else after[a].value == before[a].value
  }

  lemma Rot13MemRotates(mem: Memory, lo: nat, n: nat)
    ensures RotatedRange(mem, Rot13Mem(mem, lo, n), lo, n)
  {
    var after := Rot13Mem(mem, lo, n);
    assert after.Keys == mem.Keys;
    hide IsRot13;
    forall a | a in mem
      ensures lo <= a < lo + n ==> IsRot13(mem[a].value, after[a].value)
    {
      Rot13ByteIs(mem[a].value, Rot13Byte(mem[a].value));
    }
  }

  lemma Rot13MemTwice(mem: Memory, lo: nat, n: nat)
    ensures Rot13Mem(Rot13Mem(mem, lo, n), lo, n) == mem
  {
    forall a | a in mem
      ensures Rot13Mem(Rot13Mem(mem, lo, n), lo, n)[a] == mem[a]
    {
      Rot13ByteTwice(mem[a].value);
    }
  }

  /** Every word that the loop reads is mapped. The last one reaches seven bytes past the range. */
  predicate WordsMapped(mem: Memory, lo: nat, n: nat) {
    n == 0 || UserMapped(mem, lo, lo + n + 7)
  }

  lemma OneMoreWord(mem: Memory, lo: nat, n: nat)
    ensures WordsMapped(mem, lo, n + 1) <==> WordsMapped(mem, lo, n) && UserMapped(mem, lo + n, lo + n + 8)
  {
  }

  lemma {:induction false} FewerWords(mem: Memory, lo: nat, n: nat, k: nat)
    requires k < n && WordsMapped(mem, lo, n)
    ensures UserMapped(mem, lo + k, lo + k + 8)
  {
  }

  /** Changing the low byte of the word at an address rotates that address and nothing else: the
      seven bytes after it, some rotated later and some never, are written back as they were. */
  lemma Rot13Step(mem: Memory, lo: nat, i: nat)
    requires Mapped(mem, lo + i, lo + i + 8)
    ensures var done := Rot13Mem(mem, lo, i);
            var c := WordOf(Load(done, lo + i, 8));
            var rot := c - c % 256 + Rot13Byte(c % 256);
            && rot < WORD_LIMIT
            && (if rot == c then done else Store(done, lo + i, ToLe(rot, 8))) == Rot13Mem(mem, lo, i + 1)
  {
    RotatedOneMore(mem, lo, i);
    hide Rot13Mem, Rot13Byte, Store, WordOf, ToLe, Load;
    LowByteStep(Rot13Mem(mem, lo, i), lo + i);
  }

  lemma RotatedOneMore(mem: Memory, lo: nat, i: nat)
    requires lo + i in mem
    ensures var done, at := Rot13Mem(mem, lo, i), lo + i;
            && done.Keys == mem.Keys
            && Rot13Mem(mem, lo, i + 1) == done[at := done[at].(value := Rot13Byte(done[at].value))]
  {
    hide Rot13Byte;
  }

  /** Putting another byte into the low byte of a word is putting it into the first of its bytes. */
  lemma LowByteReplaced(bytes: seq<Byte>, b: Byte)
    requires |bytes| == 8
    ensures var c := WordOf(bytes);
            c % 256 == bytes[0] && c - c % 256 + b < WORD_LIMIT && ToLe(c - c % 256 + b, 8) == bytes[0 := b]
  {
    var c := WordOf(bytes);
    hide WordOf;
    assert ToLe(c, 8)[0] == c % 256;
    assert c / 256 <= (WORD_LIMIT - 1) / 256;
    LowByteIsFirst(c, b);
  }

  lemma LowByteStep(mem: Memory, at: nat)
    requires Mapped(mem, at, at + 8)
    ensures var c := WordOf(Load(mem, at, 8));
            var rot := c - c % 256 + Rot13Byte(c % 256);
            && rot < WORD_LIMIT
            && (if rot == c then mem else Store(mem, at, ToLe(rot, 8)))
               == mem[at := mem[at].(value := Rot13Byte(mem[at].value))]
  {
    hide WordOf, ToLe, Store, Rot13Byte;
    var bytes := Load(mem, at, 8);
    var b := Rot13Byte(bytes[0]);
    LowByteReplaced(bytes, b);
    WriteBack(mem, at, bytes[0 := b]);
    if b == bytes[0] {
      assert mem[at := mem[at].(value := b)] == mem;
    }
  }

  lemma WriteBack(mem: Memory, at: nat, bytes: seq<Byte>)
    requires Mapped(mem, at, at + 8) && |bytes| == 8
    requires forall i | 1 <= i < 8 :: bytes[i] == mem[at + i].value
    ensures Store(mem, at, bytes) == mem[at := mem[at].(value := bytes[0])]
  {
    forall a | a in mem && a != at
      ensures Store(mem, at, bytes)[a] == mem[a]
    {
      if at < a < at + 8 {
        assert bytes[a - at] == mem[at + (a - at)].value;
      }
    }
  }

  // ----- coloured text -----

  /** ESC [ 3 1 m */
  const RED: seq<Byte> := [0x1b, 0x5b, 0x33, 0x31, 0x6d]
  /** ESC [ 0 m */
  const RESET: seq<Byte> := [0x1b, 0x5b, 0x30, 0x6d]

  function Colored(text: seq<Byte>): (c: seq<Byte>)
    ensures |c| == |text| + 9
  {
    RED + text + RESET
  }

  /** The text between ESC [ 3 1 m and ESC [ 0 m. */
  predicate IsRed(text: seq<Byte>, red: seq<Byte>) {
    red == [0x1b, 0x5b, 0x33, 0x31, 0x6d] + text + [0x1b, 0x5b, 0x30, 0x6d]
  }

  lemma ColoredIsRed(text: seq<Byte>)
    ensures IsRed(text, Colored(text))
  {
  }

  function ZeroBytes(n: nat): (z: seq<Byte>)
    ensures |z| == n && forall i | 0 <= i < n :: z[i] == 0
  {
    seq<Byte>(n, _ => 0)
  }

  /** Followed by zero bytes up to the next multiple of eight. */
  function Padded(bytes: seq<Byte>): (p: seq<Byte>)
    ensures |p| % 8 == 0 && |bytes| <= |p| < |bytes| + 8
    ensures p[..|bytes|] == bytes && forall i | |bytes| <= i < |p| :: p[i] == 0
  {
    bytes + ZeroBytes((8 - |bytes| % 8) % 8)
  }

  // ----- a map list that is never read again -----

  /** What a controller asks of a process between its one reading of the map list and its last use of
      it: mappings, closes, opens, and blocks of data mapped and written. */
  datatype Request =
    | Map(hint: Word, size: Word, prot: Word)
    | CloseFd(fd: Word)
    | Open(path: Word, flags: Word)
    | Inject(bytes: seq<Byte>)

  function Serve(e: Env, m: Machine, q: Request, svc: Word): Machine {
    match q
    case Map(hint, size, prot) => Call(e, m, SYS_MMAP, MmapArgs(hint, size, prot), svc)
    case CloseFd(fd) => Call(e, m, SYS_CLOSE, [fd], svc)
    case Open(path, flags) => Call(e, m, SYS_OPENAT, [0, path, flags, 0], svc)
    case Inject(bytes) =>
      if |bytes| >= WORD_LIMIT then m
      else
        var after := Call(e, m, SYS_MMAP, MmapArgs(0, |bytes|, PROT_READ + PROT_WRITE), svc);
        var addr := after.regs.x[0];
        if UserWritable(after.mem, addr, addr + |bytes|) then after.(mem := Store(after.mem, addr, bytes)) else after
  }

  function ServeAll(e: Env, m: Machine, qs: seq<Request>, svc: Word): Machine
    decreases |qs|
  {
    if qs == [] then m else ServeAll(e, Serve(e, m, qs[0], svc), qs[1..], svc)
  }

  lemma MapExtends(e: Env, m: Machine, hint: Word, size: Word, prot: Word, svc: Word)
    ensures Extends(m.mem, Call(e, m, SYS_MMAP, MmapArgs(hint, size, prot), svc).mem)
  {
    CallMmap(e, m, hint, size, prot, svc);
    hide Call, RoundUp, ProtOf;
  }

  lemma ServeExtends(e: Env, m: Machine, q: Request, svc: Word)
    ensures Extends(m.mem, Serve(e, m, q, svc).mem)
  {
    hide Call, RoundUp, ProtOf, UserWritable, Store;
    match q {
      case Map(hint, size, prot) => MapExtends(e, m, hint, size, prot, svc);
      case CloseFd(fd) => CallClose(e, m, fd, svc);
      case Open(path, flags) => CallOpenat(e, m, 0, path, flags, 0, svc);
      case Inject(bytes) =>
        if |bytes| < WORD_LIMIT {
          InjectExtends(e, m, bytes, svc);
        }
    }
  }

  lemma InjectExtends(e: Env, m: Machine, bytes: seq<Byte>, svc: Word)
    requires |bytes| < WORD_LIMIT
    ensures Extends(m.mem, Serve(e, m, Inject(bytes), svc).mem)
  {
    hide Call, RoundUp, UserWritable, Store;
    var after := Call(e, m, SYS_MMAP, MmapArgs(0, |bytes|, PROT_READ + PROT_WRITE), svc);
    CallMmap(e, m, 0, |bytes|, PROT_READ + PROT_WRITE, svc);
    BlockOutcome(e, m.mem, m.clock, bytes, RoundUp(|bytes|), after.mem, after.regs.x[0]);
    if Grants(e, m.mem, m.clock, 0, RoundUp(|bytes|)) {
      FreshExtends(m.mem, after.regs.x[0], after.regs.x[0] + RoundUp(|bytes|), bytes, Prot(true, true, false));
    } else if bytes == [] {
      StoreEmpty(after.mem, after.regs.x[0]);
    }
  }

  lemma StoreEmpty(mem: Memory, at: nat)
    ensures Store(mem, at, []) == mem
  {
  }

  /** The registers of a process in which a mapping was injected: not its own. */
  ghost predicate LeftOnMmap(m: Machine, svc: Word) {
    m.regs.pc == NextPc(svc) && m.regs.x[8] == SYS_MMAP
  }

  /** What a command that gave up leaves of the registers: all of them if it had no gadget to begin with, and
      otherwise the process stands just past the gadget. */
  ghost predicate GaveUp(found: Result<Word>, before: Machine, after: Machine) {
    if found.Ok? then LeftOnMmap(after, found.value) else after == before
  }

  /** Serving a block takes one call. */
  lemma ServeInject(e: Env, m: Machine, bytes: seq<Byte>, svc: Word)
    requires |bytes| < WORD_LIMIT
    ensures var served := Serve(e, m, Inject(bytes), svc); served.clock == m.clock + 1 && LeftOnMmap(served, svc)
  {
    CallMmap(e, m, 0, |bytes|, PROT_READ + PROT_WRITE, svc);
    CallKeepsRegisters(e, m, SYS_MMAP, MmapArgs(0, |bytes|, PROT_READ + PROT_WRITE), svc);
    hide Call, Store, UserWritable;
  }

  /** Cached-map safety: after any number of such requests the list read at the start still leads to the
      same gadget, and the gadget is still an executable svc. */
  lemma {:induction false} CachedMapsStaySafe(e: Env, m: Machine, maps: seq<MemoryMap>, qs: seq<Request>)
    requires FindSvc(maps, m.mem).Ok? && GadgetLive(maps, m.mem)
    ensures var svc := FindSvc(maps, m.mem).value;
            var after := ServeAll(e, m, qs, svc);
            && FindSvc(maps, after.mem) == Ok(svc) && SvcAt(after.mem, svc) && Extends(m.mem, after.mem)
    decreases |qs|
  {
    hide SvcAt, Serve, FindSvc;
    if qs == [] {
    } else {
      var svc := FindSvc(maps, m.mem).value;
      ServeExtends(e, m, qs[0], svc);
      GadgetLiveExtends(maps, m.mem, Serve(e, m, qs[0], svc).mem);
      CachedMapsStaySafe(e, Serve(e, m, qs[0], svc), maps, qs[1..]);
    }
  }
}
