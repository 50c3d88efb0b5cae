/** Emptying the address space of a stopped child by injected calls that undo themselves
    (src/teleserver/spawn.rs). */
module Spawn {
  import opened Words
  import opened ProcMaps
  import opened Tracee
  import opened Ptrace
  import opened Injection
  import opened Cryogenics

  // ----- one call through a borrowed instruction -----

  /** Memory with svc over the instruction at pc and a zero word over the one after it. */
  function Patched(mem: Memory, pc: nat): Memory {
    Store(mem, pc, ToLe(SVC_WORD, 8))
  }

  /** The process with the call loaded and svc poked over its own next instruction, and a zero word
      over the one after it. */
  function Poked(m: Machine, sysno: Word, args: seq<Word>): Machine
    requires |args| <= 8
  {
    Loaded(m, sysno, args, m.regs.pc).(mem := Patched(m.mem, m.regs.pc))
  }

  /** The process after the one step that make_syscall gives it. */
  function Stepped(e: Env, m: Machine, sysno: Word, args: seq<Word>): Machine
    requires |args| <= 8
  {
    Step(e, Poked(m, sysno, args))
  }

  /** make_syscall: on success the registers are what they were and the borrowed bytes are back. */
  method MakeSyscall(proc: Process, sysno: Word, args: seq<Word>) returns (r: Result<Word>)
    requires proc.stop.UserStop? && |args| <= 8
    modifies proc`m
    ensures var m0, pc := old(proc.m), old(proc.m.regs.pc);
            var stepped := Stepped(proc.env, m0, sysno, args);
            && (r.Ok? <==> UserMapped(m0.mem, pc, pc + 8) && UserMapped(stepped.mem, pc, pc + 8))
            && (r.Ok? ==> r.value == stepped.regs.x[0]
                          && proc.m == stepped.(regs := m0.regs, mem := Store(stepped.mem, pc, Load(m0.mem, pc, 8))))
            && (r.Err? ==> proc.m == if UserMapped(m0.mem, pc, pc + 8) then stepped else m0)
    ensures var m0, pc := old(proc.m), old(proc.m.regs.pc);
            CanBorrow(m0) && Immediate(proc.env, m0.clock, sysno)
            && Beside(proc.env, Loaded(m0, sysno, args, pc), pc) ==>
              var called := Call(proc.env, m0, sysno, args, pc);
              r == Ok(called.regs.x[0]) && proc.m == called.(regs := m0.regs)
  {
    hide Step, Store, ToLe, WordOf, Load, UserMapped, CanBorrow, Immediate, Beside, Call;
    ghost var e, m0, pc := proc.env, proc.m, proc.m.regs.pc;
    if CanBorrow(m0) && Immediate(e, m0.clock, sysno) && Beside(e, Loaded(m0, sysno, args, pc), pc) {
      MakeSyscallTransparent(e, m0, sysno, args);
      BorrowedIsMapped(m0);
    }
    var oldRegisters := proc.GetRegs();
    var x: XRegs := oldRegisters.x[8 := sysno];
    for i := 0 to |args|
      invariant x == Overlay(oldRegisters.x[8 := sysno], args[..i])
    {
      x := x[i := args[i]];
    }
    assert args[..|args|] == args;

    var p := oldRegisters.pc;
    var oldData :- proc.Peek(p);
    var poked := proc.Poke(p, SVC_WORD);
    proc.SetRegs(oldRegisters.(x := x));
    assert proc.m == Poked(old(proc.m), sysno, args);
    proc.SingleStep();
    StepperSteps(proc.env, Poked(old(proc.m), sysno, args));
    var _ :- proc.Poke(p, oldData);
    var registersAfter := proc.GetRegs();
    proc.SetRegs(oldRegisters);
    return Ok(registersAfter.x[0]);
  }

  lemma StepperSteps(e: Env, m: Machine)
    ensures Stepper(e)(m) == Step(e, m)
  {
  }

  /** The next instruction can be fetched, and it and the one after it can be read and written. */
  ghost predicate CanBorrow(m: Machine) {
    Fetchable(m.mem, m.regs.pc) && UserMapped(m.mem, m.regs.pc, m.regs.pc + 8)
  }

  /** The call would not block at that time. */
  predicate Immediate(e: Env, t: nat, sysno: Word) {
    e.delay(t, sysno) == 0
  }

  lemma BorrowedIsMapped(m: Machine)
    requires CanBorrow(m)
    ensures UserMapped(m.mem, m.regs.pc, m.regs.pc + 8)
  {
  }

  lemma SvcPoked(mem: Memory, pc: nat)
    requires Fetchable(mem, pc) && Mapped(mem, pc, pc + 8)
    ensures SvcAt(Patched(mem, pc), pc)
  {
    var mem' := Patched(mem, pc);
    SvcWordBytes();
    assert forall i | 0 <= i < 4 :: mem'[pc + i].value == ToLe(SVC_WORD, 8)[i];
    assert Load(mem', pc, 4) == SVC_BYTES;
  }

  lemma ToLeStep(n: nat, k: nat, low: Byte, rest: nat)
    requires k > 0 && n == 256 * rest + low
    ensures ToLe(n, k) == [low] + ToLe(rest, k - 1)
  {
    assert n % 256 == low && n / 256 == rest;
  }

  lemma SvcWordBytes()
    ensures ToLe(SVC_WORD, 8) == SVC_BYTES + ToLe(0, 4)
  {
    hide ToLe;
    ToLeStep(0xd4000001, 8, 0x01, 0xd40000);
    ToLeStep(0xd40000, 7, 0x00, 0xd400);
    ToLeStep(0xd400, 6, 0x00, 0xd4);
    ToLeStep(0xd4, 5, 0xd4, 0);
  }

  /** The one step performs the call. */
  lemma OneStepSuffices(e: Env, m: Machine, sysno: Word, args: seq<Word>)
    requires CanBorrow(m) && Immediate(e, m.clock, sysno) && |args| <= 8
    ensures Stepped(e, m, sysno, args) == Complete(e, Poked(m, sysno, args))
  {
    NumberLoaded(m, sysno, args);
    SvcPoked(m.mem, m.regs.pc);
    hide SvcAt, Complete, Patched, Fetchable, Loaded;
  }

  lemma NumberLoaded(m: Machine, sysno: Word, args: seq<Word>)
    requires |args| <= 8
    ensures var l := Loaded(m, sysno, args, m.regs.pc);
            l.regs.x[8] == sysno && l.regs.pc == m.regs.pc && l.mem == m.mem && l.clock == m.clock
  {
  }

  /** One step is all the call gets: it is performed if and only if it does not block. Otherwise nothing
      happens but the wait, and the value handed back is the call's own first argument. */
  lemma PerformedIffNotBlocked(e: Env, m: Machine, sysno: Word, args: seq<Word>)
    requires Fetchable(m.mem, m.regs.pc) && Mapped(m.mem, m.regs.pc, m.regs.pc + 8) && |args| <= 8
    ensures var poked, stepped := Poked(m, sysno, args), Stepped(e, m, sysno, args);
            && (stepped == Complete(e, poked) <==> Remaining(e, poked) == 0)
            && (Remaining(e, poked) > 0 ==> stepped.mem == poked.mem && stepped.fds == m.fds
                                            && (args != [] ==> stepped.regs.x[0] == args[0]))
  {
    var poked := Poked(m, sysno, args);
    SvcPoked(m.mem, m.regs.pc);
    CompleteAdvancesClock(e, poked);
    hide SvcAt, Complete, Patched, Fetchable;
  }

  lemma CompleteAdvancesClock(e: Env, m: Machine)
    ensures Complete(e, m).clock == m.clock + 1
  {
    var s := m.(regs := m.regs.(pc := NextPc(m.regs.pc)), waited := 0);
    if s.regs.x[8] != SYS_EXECVE {
      SyscallKeepsRegisters(e, s);
      hide Syscall;
    }
  }

  // ----- transparency -----

  /** Where a string that starts at an address has its NUL, or where reading it faults. */
  function ScanEnd(mem: Memory, addr: nat): nat
    decreases TASK_SIZE - addr
  {
    if addr >= TASK_SIZE || addr !in mem || !mem[addr].prot.read || mem[addr].value == 0 then addr
    else ScanEnd(mem, addr + 1)
  }

  predicate ApartFrom(pc: nat, lo: nat, hi: nat) {
    hi <= pc || pc + 8 <= lo
  }

  /** The eight bytes at pc are mapped, and are those of the other memory. */
  ghost predicate WindowKept(mem: Memory, mem': Memory, pc: nat) {
    forall a | pc <= a < pc + 8 :: a in mem' && (a in mem ==> mem'[a].value == mem[a].value)
  }

  /** A call that is not spelled out acts no differently when svc is poked over pc, and leaves the bytes
      there alone. */
  ghost predicate BlindToPatch(e: Env, s: Machine, pc: nat) {
    var o := e.other(s.clock, s.regs.x, s.mem, s.fds);
    && e.other(s.clock, s.regs.x, Patched(s.mem, pc), s.fds) == o.(mem := Patched(o.mem, pc))
    && WindowKept(s.mem, o.mem, pc)
  }

  /** A call that neither reads nor unmaps the eight bytes at pc. mmap and mprotect never do. */
  ghost predicate Beside(e: Env, s: Machine, pc: nat) {
    var x := s.regs.x;
    if x[8] == SYS_MUNMAP then ApartFrom(pc, x[0], x[0] + RoundUp(x[1]))
    else if (x[8] == SYS_MMAP && x[3] == ANONYMOUS_PRIVATE) || x[8] == SYS_MPROTECT || x[8] == SYS_CLOSE then true
    else if x[8] == SYS_OPENAT then ApartFrom(pc, x[1], ScanEnd(s.mem, x[1]) + 1)
    else if x[8] == SYS_WRITE then ApartFrom(pc, x[1], x[1] as nat + x[2])
    else x[8] != SYS_EXECVE && BlindToPatch(e, s, pc)
  }

  /** The call has the same effect with svc poked over pc, and leaves the bytes there alone. */
  ghost predicate SameWhenPatched(s: Machine, after: Machine, patchedAfter: Machine, pc: nat) {
    patchedAfter == after.(mem := Patched(after.mem, pc)) && WindowKept(s.mem, after.mem, pc)
  }

  function Patch(s: Machine, pc: nat): Machine {
    s.(mem := Patched(s.mem, pc))
  }

  lemma PatchedShape(mem: Memory, pc: nat)
    ensures Patched(mem, pc).Keys == mem.Keys
    ensures forall a | a in mem && !(pc <= a < pc + 8) :: Patched(mem, pc)[a] == mem[a]
    ensures forall a | a in mem :: Patched(mem, pc)[a].prot == mem[a].prot
  {
    hide ToLe;
  }

  lemma MunmapPatched(s: Machine, pc: nat)
    requires Mapped(s.mem, pc, pc + 8) && ApartFrom(pc, s.regs.x[0], s.regs.x[0] + RoundUp(s.regs.x[1]))
    ensures SameWhenPatched(s, Munmap(s), Munmap(Patch(s, pc)), pc)
  {
    hide RoundUp, ToLe;
    var lo, hi := s.regs.x[0] as nat, s.regs.x[0] + RoundUp(s.regs.x[1]);
    assert Unmap(Patched(s.mem, pc), lo, hi) == Patched(Unmap(s.mem, lo, hi), pc);
  }

  lemma MapAtPatched(e: Env, s: Machine, pc: nat, lo: Word, n: nat)
    requires Mapped(s.mem, pc, pc + 8)
    ensures SameWhenPatched(s, MapAt(e, s, lo, n), MapAt(e, Patch(s, pc), lo, n), pc)
  {
    hide ToLe, ProtOf;
    PatchedShape(s.mem, pc);
    var zeros := Zeros(lo, lo + n, ProtOf(s.regs.x[2]));
    if Mappable(s.mem, lo, n) {
      assert Patched(s.mem, pc) + zeros == Patched(s.mem + zeros, pc);
    }
  }

  lemma MmapPatched(e: Env, s: Machine, pc: nat)
    requires Mapped(s.mem, pc, pc + 8)
    ensures SameWhenPatched(s, Mmap(e, s), Mmap(e, Patch(s, pc)), pc)
  {
    var n := RoundUp(s.regs.x[1]);
    hide RoundUp, Patched, MapAt;
    PatchedShape(s.mem, pc);
    assert Mappable(Patched(s.mem, pc), s.regs.x[0], n) <==> Mappable(s.mem, s.regs.x[0], n);
    MapAtPatched(e, s, pc, Placement(e, s.mem, s.clock, s.regs.x[0], n), n);
  }

  lemma MprotectPatched(s: Machine, pc: nat)
    requires Mapped(s.mem, pc, pc + 8)
    ensures SameWhenPatched(s, Mprotect(s), Mprotect(Patch(s, pc)), pc)
  {
    hide RoundUp, ProtOf, ToLe;
    var lo, n, prot := s.regs.x[0], RoundUp(s.regs.x[1]), ProtOf(s.regs.x[2]);
    PatchedShape(s.mem, pc);
    assert Protect(Patched(s.mem, pc), lo, lo + n, prot) == Patched(Protect(s.mem, lo, lo + n, prot), pc);
  }

  lemma {:induction false} StringPatched(mem: Memory, pc: nat, addr: nat)
    requires ApartFrom(pc, addr, ScanEnd(mem, addr) + 1)
    ensures ReadString(Patched(mem, pc), addr) == ReadString(mem, addr)
    decreases TASK_SIZE - addr
  {
    hide Patched;
    PatchedShape(mem, pc);
    ScanGoesUp(mem, addr);
    if addr >= TASK_SIZE || addr !in mem || !mem[addr].prot.read || mem[addr].value == 0 {
    } else {
      ScanGoesUp(mem, addr + 1);
      StringPatched(mem, pc, addr + 1);
    }
  }

  lemma {:induction false} ScanGoesUp(mem: Memory, addr: nat)
    ensures addr <= ScanEnd(mem, addr)
    decreases TASK_SIZE - addr
  {
    if addr >= TASK_SIZE || addr !in mem || !mem[addr].prot.read || mem[addr].value == 0 {
    } else {
      ScanGoesUp(mem, addr + 1);
    }
  }

  lemma OpenatPatched(e: Env, s: Machine, pc: nat)
    requires Mapped(s.mem, pc, pc + 8) && ApartFrom(pc, s.regs.x[1], ScanEnd(s.mem, s.regs.x[1]) + 1)
    ensures SameWhenPatched(s, Openat(e, s), Openat(e, Patch(s, pc)), pc)
  {
    StringPatched(s.mem, pc, s.regs.x[1]);
    hide ReadString, LowestFree, Patched;
  }

  lemma WritePatched(e: Env, s: Machine, pc: nat)
    requires Mapped(s.mem, pc, pc + 8) && ApartFrom(pc, s.regs.x[1], s.regs.x[1] as nat + s.regs.x[2])
    ensures SameWhenPatched(s, Write(e, s), Write(e, Patch(s, pc)), pc)
  {
    hide Patched;
    PatchedShape(s.mem, pc);
    var buf: nat, count: nat := s.regs.x[1], s.regs.x[2];
    assert Readable(Patched(s.mem, pc), buf, buf + count) <==> Readable(s.mem, buf, buf + count);
    if Readable(s.mem, buf, buf + count) {
      assert Load(Patched(s.mem, pc), buf, count) == Load(s.mem, buf, count);
    }
  }

  lemma OtherPatched(e: Env, s: Machine, pc: nat)
    requires BlindToPatch(e, s, pc)
    ensures SameWhenPatched(s, Other(e, s), Other(e, Patch(s, pc)), pc)
  {
    hide Patched, WindowKept;
  }

  lemma ClosePatched(s: Machine, pc: nat)
    requires Mapped(s.mem, pc, pc + 8)
    ensures SameWhenPatched(s, Close(s), Close(Patch(s, pc)), pc)
  {
    hide Patched;
  }

  /** Every call beside the eight bytes at pc. */
  lemma BesidePatched(e: Env, s: Machine, pc: nat)
    requires Mapped(s.mem, pc, pc + 8) && Beside(e, s, pc)
    ensures SameWhenPatched(s, Syscall(e, s), Syscall(e, Patch(s, pc)), pc)
  {
    hide Munmap, Mmap, Mprotect, Openat, Write, Other, Close, Patched, SameWhenPatched, BlindToPatch, RoundUp, ScanEnd;
    var x := s.regs.x;
    if x[8] == SYS_MUNMAP {
      MunmapPatched(s, pc);
    } else if x[8] == SYS_MMAP && x[3] == ANONYMOUS_PRIVATE {
      MmapPatched(e, s, pc);
    } else if x[8] == SYS_MPROTECT {
      MprotectPatched(s, pc);
    } else if x[8] == SYS_CLOSE {
      ClosePatched(s, pc);
    } else if x[8] == SYS_OPENAT {
      OpenatPatched(e, s, pc);
    } else if x[8] == SYS_WRITE {
      WritePatched(e, s, pc);
    } else {
      OtherPatched(e, s, pc);
    }
  }

  lemma CompletePatched(e: Env, l: Machine, pc: nat)
    requires Mapped(l.mem, pc, pc + 8) && Beside(e, l, pc)
    ensures SameWhenPatched(l, Complete(e, l), Complete(e, Patch(l, pc)), pc)
  {
    var s := l.(regs := l.regs.(pc := NextPc(l.regs.pc)), waited := 0);
    BesideIgnoresPc(e, l, s, pc);
    hide Beside, Syscall, Patched, WindowKept;
    BesidePatched(e, s, pc);
  }

  lemma BesideIgnoresPc(e: Env, l: Machine, s: Machine, pc: nat)
    requires s.regs.x == l.regs.x && s.mem == l.mem && s.fds == l.fds && s.clock == l.clock
    ensures Beside(e, s, pc) <==> Beside(e, l, pc)
  {
    hide RoundUp, ScanEnd, Patched, WindowKept;
  }

  /** Poking the old bytes back over the patch gives the memory the call was meant to leave. */
  lemma PatchUndone(mem: Memory, after: Memory, pc: nat)
    requires UserMapped(mem, pc, pc + 8) && WindowKept(mem, after, pc)
    ensures UserMapped(Patched(after, pc), pc, pc + 8)
    ensures Store(Patched(after, pc), pc, Load(mem, pc, 8)) == after
  {
    hide ToLe;
    forall a | pc <= a < pc + 8
      ensures a in mem && a in after && after[a].value == mem[a].value
    {
    }
  }

  /** Transparency: a call that does not block and lies beside the eight borrowed bytes ends exactly as the
      call itself would have ended on the process, in memory, result, descriptors and output. */
  lemma MakeSyscallTransparent(e: Env, m: Machine, sysno: Word, args: seq<Word>)
    requires CanBorrow(m) && Immediate(e, m.clock, sysno) && |args| <= 8
    requires Beside(e, Loaded(m, sysno, args, m.regs.pc), m.regs.pc)
    ensures var pc, stepped := m.regs.pc, Stepped(e, m, sysno, args);
            && UserMapped(stepped.mem, pc, pc + 8)
            && stepped.(mem := Store(stepped.mem, pc, Load(m.mem, pc, 8))) == Call(e, m, sysno, args, pc)
  {
    var pc, l := m.regs.pc, Loaded(m, sysno, args, m.regs.pc);
    NumberLoaded(m, sysno, args);
    OneStepSuffices(e, m, sysno, args);
    hide Beside, Complete, Patched, Store, Loaded, Stepped;
    CompletePatched(e, l, pc);
    PatchUndone(m.mem, Complete(e, l).mem, pc);
  }

  /** munmap with its range over the borrowed bytes removes them with it, and there is nothing left to
      poke the old ones back into. */
  lemma MunmapOverWindow(e: Env, m: Machine, lo: Word, size: Word)
    requires CanBorrow(m) && Immediate(e, m.clock, SYS_MUNMAP)
    requires lo % PAGE == 0 && size % PAGE == 0 && size > 0 && lo + size <= TASK_SIZE
    requires !ApartFrom(m.regs.pc, lo, lo + size)
    ensures var pc, stepped := m.regs.pc, Stepped(e, m, SYS_MUNMAP, [lo, size]);
            && !UserMapped(stepped.mem, pc, pc + 8) && SameIo(m, stepped) && stepped.regs.pc == NextPc(pc)
            && stepped.clock == m.clock + 1
            && stepped.mem == Unmap(Patched(m.mem, pc), lo, lo + size)
  {
    var pc := m.regs.pc;
    OneStepSuffices(e, m, SYS_MUNMAP, [lo, size]);
    PokedIsLoaded(m, SYS_MUNMAP, [lo, size]);
    CallMunmap(e, Patch(m, pc), lo, size, pc);
    CallKeepsRegisters(e, Patch(m, pc), SYS_MUNMAP, [lo, size], pc);
    hide Call, Patched;
    var a := if lo <= pc then pc else lo as nat;
    assert a !in Unmap(Patched(m.mem, pc), lo, lo + size);
  }

  lemma PokedIsLoaded(m: Machine, sysno: Word, args: seq<Word>)
    requires |args| <= 8
    ensures Poked(m, sysno, args) == Loaded(Patch(m, m.regs.pc), sysno, args, m.regs.pc)
  {
    hide Patched;
  }

  /** Where nothing can be fetched, the step does nothing, and the old bytes go back over the patch. */
  lemma NothingFetched(e: Env, m: Machine, sysno: Word, args: seq<Word>)
    requires !Fetchable(m.mem, m.regs.pc) && UserMapped(m.mem, m.regs.pc, m.regs.pc + 8) && 0 < |args| <= 8
    ensures var pc, stepped := m.regs.pc, Stepped(e, m, sysno, args);
            && UserMapped(stepped.mem, pc, pc + 8) && stepped.regs.x[0] == args[0]
            && stepped.(regs := m.regs, mem := Store(stepped.mem, pc, Load(m.mem, pc, 8))) == m
  {
    var pc := m.regs.pc;
    PatchedShape(m.mem, pc);
    NumberLoaded(m, sysno, args);
    PatchUndone(m.mem, m.mem, pc);
    hide Patched, Store;
    assert !Fetchable(Patched(m.mem, pc), pc);
  }

  // ----- emptying the address space -----

  /** unmap_one, in each case there is. Where no call can be made at pc, nothing happens. A region beside
      the borrowed bytes is removed, and nothing else. With a region over them, the call is made, but fails
      to put the bytes and the registers back. */
  method UnmapOne(proc: Process, mm: MemoryMap) returns (r: Result<()>)
    requires proc.stop.UserStop? && Immediate(proc.env, proc.m.clock, SYS_MUNMAP) && WholePages(mm)
    modifies proc`m
    ensures SameIo(old(proc.m), proc.m) && old(proc.m.clock) <= proc.m.clock <= old(proc.m.clock) + 1
    ensures var m0, pc := old(proc.m), old(proc.m.regs.pc);
            if !CanBorrow(m0) then r.Err? && proc.m == m0
            else if Apart(mm, pc, pc + 8) then
              r.Ok? && proc.m.regs == m0.regs && proc.m.mem == Unmap(m0.mem, mm.base, End(mm))
            else
              && r.Err? && proc.m.regs.pc == NextPc(pc)
              && proc.m.mem == Unmap(Patched(m0.mem, pc), mm.base, End(mm))
  {
    hide Stepped, Store, Load, Unmap, Fetchable, UserMapped, Patched, Immediate, Call;
    ghost var e, m0, pc := proc.env, proc.m, proc.m.regs.pc as nat;
    ArgumentsLoaded(m0, mm.base, mm.size);
    RoundUpFacts(mm.size);
    if !Fetchable(m0.mem, pc) && UserMapped(m0.mem, pc, pc + 8) {
      NothingFetched(e, m0, SYS_MUNMAP, [mm.base, mm.size]);
    } else if CanBorrow(m0) && Apart(mm, pc, pc + 8) {
      CallMunmap(e, m0, mm.base, mm.size, m0.regs.pc);
    } else if CanBorrow(m0) {
      MunmapOverWindow(e, m0, mm.base, mm.size);
    }
    var code := MakeSyscall(proc, SYS_MUNMAP, [mm.base, mm.size]);
    if code.Err? || code.value != 0 {
      return Err(MunmapFailed);
    }
    return Ok(());
  }

  lemma ArgumentsLoaded(m: Machine, lo: Word, size: Word)
    ensures var x := Loaded(m, SYS_MUNMAP, [lo, size], m.regs.pc).regs.x;
            x[0] == lo && x[1] == size && x[8] == SYS_MUNMAP
  {
  }

  /** The regions that are left: the one with pc in it, and those of 2 MB. */
  predicate IsKept(mm: MemoryMap, pc: nat) {
    Inside(pc, mm) || mm.size == 2097152
  }

  /** An address of a region among the first n that are not kept. */
  ghost predicate Gone(maps: seq<MemoryMap>, n: nat, pc: nat, a: nat) {
    exists k | 0 <= k < n && k < |maps| :: !IsKept(maps[k], pc) && Inside(a, maps[k])
  }

  /** Memory without the regions gone so far. */
  ghost predicate Emptied(start: Memory, maps: seq<MemoryMap>, n: nat, pc: nat, mem: Memory) {
    && (forall a :: a in mem <==> a in start && !Gone(maps, n, pc, a))
    && (forall a | a in mem :: mem[a] == start[a])
  }

  lemma SkipKept(start: Memory, maps: seq<MemoryMap>, n: nat, pc: nat, mem: Memory)
    requires Emptied(start, maps, n, pc, mem) && n < |maps| && IsKept(maps[n], pc)
    ensures Emptied(start, maps, n + 1, pc, mem)
  {
    forall a: nat
      ensures Gone(maps, n + 1, pc, a) <==> Gone(maps, n, pc, a)
    {
    }
  }

  lemma UnmapNext(start: Memory, maps: seq<MemoryMap>, n: nat, pc: nat, mem: Memory)
    requires Emptied(start, maps, n, pc, mem) && n < |maps| && !IsKept(maps[n], pc)
    ensures Emptied(start, maps, n + 1, pc, Unmap(mem, maps[n].base, End(maps[n])))
  {
    forall a: nat
      ensures Gone(maps, n + 1, pc, a) <==> Gone(maps, n, pc, a) || Inside(a, maps[n])
    {
    }
  }

  /** While regions beside the borrowed bytes go, a call can still be made at pc. */
  lemma StillBorrowable(m: Machine, m': Machine, mm: MemoryMap)
    requires CanBorrow(m) && m'.regs == m.regs
    requires Apart(mm, m.regs.pc, m.regs.pc + 8) && m'.mem == Unmap(m.mem, mm.base, End(mm))
    ensures CanBorrow(m')
  {
    var pc := m.regs.pc;
    assert Mapped(m.mem, pc, pc + 8);
    forall a | pc <= a < pc + 8
      ensures a in m'.mem && m'.mem[a] == m.mem[a]
    {
      assert a in m.mem;
    }
  }

  /** The eight bytes at pc lie in one region. */
  ghost predicate PcInOneRegion(maps: seq<MemoryMap>, pc: nat) {
    exists mm | mm in maps :: mm.base <= pc && pc + 8 <= End(mm)
  }

  /** No region among the first n that is to go lies over the borrowed bytes. */
  ghost predicate GoneApart(maps: seq<MemoryMap>, n: nat, pc: nat) {
    forall i | 0 <= i < n && i < |maps| :: !IsKept(maps[i], pc) ==> Apart(maps[i], pc, pc + 8)
  }

  /** So it is when the borrowed bytes lie in one region. */
  lemma OthersApart(maps: seq<MemoryMap>, pc: nat)
    requires Disjoint(maps) && PcInOneRegion(maps, pc)
    ensures GoneApart(maps, |maps|, pc)
  {
    var mm :| mm in maps && mm.base <= pc && pc + 8 <= End(mm);
    var k :| 0 <= k < |maps| && maps[k] == mm;
    forall i | 0 <= i < |maps| && !IsKept(maps[i], pc)
      ensures Apart(maps[i], pc, pc + 8)
    {
      if i < k {
        assert Apart(maps[i], maps[k].base, End(maps[k]));
      } else {
        assert Apart(maps[k], maps[i].base, End(maps[i]));
      }
    }
  }

  /** A region that is to go lies over the borrowed bytes if and only if one starts at the second instruction,
      pc being on the last one of its own region. */
  lemma GoneOverIff(m: Machine, maps: seq<MemoryMap>)
    requires Covers(maps, m.mem) && CanBorrow(m)
    ensures var pc := m.regs.pc;
            !GoneApart(maps, |maps|, pc)
            <==> exists i | 0 <= i < |maps| :: maps[i].base == pc + 4 && !IsKept(maps[i], pc)
  {
    var pc := m.regs.pc;
    AllWholePages(maps, m.mem);
    hide CanBorrow, Covers;
    forall i | 0 <= i < |maps| && !IsKept(maps[i], pc)
      ensures !Apart(maps[i], pc, pc as nat + 8) <==> maps[i].base == pc + 4
    {
      if !Apart(maps[i], pc, pc as nat + 8) {
        StartsAtSecond(m, maps[i], pc);
      }
    }
  }

  /** Two regions of one page each, side by side. */
  function TwoPages(lo: Word): seq<MemoryMap>
    requires lo + 2 * PAGE <= TASK_SIZE
  {
    [MemoryMap(lo, PAGE, "", true, true, true, true, []), MemoryMap(lo + PAGE, PAGE, "", true, true, true, true, [])]
  }

  lemma TwoPagesListed(mem: Memory, lo: Word)
    requires lo % PAGE == 0 && LOWEST_MAPPABLE <= lo && lo + 2 * PAGE <= TASK_SIZE
    requires mem == Zeros(lo, lo + 2 * PAGE, RWX)
    ensures Lists(TwoPages(lo), mem)
  {
    var maps := TwoPages(lo);
    forall a | a in mem
      ensures exists mm | mm in maps :: Inside(a, mm)
    {
      assert maps[0] in maps && maps[1] in maps;
      assert Inside(a, maps[0]) || Inside(a, maps[1]);
    }
    forall mm | mm in maps
      ensures WholePages(mm) && mm.data == [] && HasProt(mem, mm)
    {
      PageAfterPage(lo);
      assert mm == maps[0] || mm == maps[1];
    }
  }

  lemma PageAfterPage(lo: nat)
    requires lo % PAGE == 0
    ensures (lo + PAGE) % PAGE == 0
  {
  }

  lemma LastOfPage(mem: Memory, lo: nat)
    requires lo % PAGE == 0 && lo + 2 * PAGE <= TASK_SIZE && mem == Zeros(lo, lo + 2 * PAGE, RWX)
    ensures Fetchable(mem, lo + PAGE - 4) && UserMapped(mem, lo + PAGE - 4, lo + PAGE + 4)
  {
    assert lo + PAGE - 4 == 4 * (1024 * (lo / PAGE) + 1023);
  }

  /** It happens: with pc on the last instruction of the first of them, on every two pages there are. */
  lemma GoneOverHappens(m: Machine, lo: Word)
    requires lo % PAGE == 0 && LOWEST_MAPPABLE <= lo && lo + 2 * PAGE <= TASK_SIZE
    requires m.mem == Zeros(lo, lo + 2 * PAGE, RWX) && m.regs.pc == lo + PAGE - 4
    ensures Lists(TwoPages(lo), m.mem) && CanBorrow(m) && !GoneApart(TwoPages(lo), 2, m.regs.pc)
  {
    var maps := TwoPages(lo);
    TwoPagesListed(m.mem, lo);
    LastOfPage(m.mem, lo);
    hide Lists, Fetchable, UserMapped, Zeros;
    assert !IsKept(maps[1], m.regs.pc) && !Apart(maps[1], m.regs.pc, m.regs.pc as nat + 8);
  }

  /** The loop got as far as the j-th region, which lay over the second of the borrowed instructions. Its
      munmap went through, and nothing after it: the regions that were to go up to that one are gone, and
      the first instruction is still the svc. */
  ghost predicate LostAt(start: Memory, maps: seq<MemoryMap>, j: nat, pc: nat, mem: Memory) {
    && j < |maps| && !IsKept(maps[j], pc) && maps[j].base == pc + 4 && pc + 4 !in mem
    && Emptied(Patched(start, pc), maps, j + 1, pc, mem)
  }

  ghost predicate Lost(start: Memory, maps: seq<MemoryMap>, pc: Word, m: Machine) {
    m.regs.pc == NextPc(pc) && exists j :: LostAt(start, maps, j, pc, m.mem)
  }

  lemma NothingBorrowedAfter(start: Memory, maps: seq<MemoryMap>, pc: Word, m: Machine)
    requires Lost(start, maps, pc, m) && pc + 8 <= TASK_SIZE
    ensures !CanBorrow(m)
  {
    hide Emptied;
    assert NextPc(pc) == pc + 4;
  }

  lemma BecomesLost(start: Memory, maps: seq<MemoryMap>, i: nat, m: Machine, m': Machine)
    requires var pc := m.regs.pc;
             && CanBorrow(m) && Emptied(start, maps, i, pc, m.mem)
             && i < |maps| && !IsKept(maps[i], pc) && WholePages(maps[i]) && !Apart(maps[i], pc, pc + 8)
             && m'.regs.pc == NextPc(pc) && m'.mem == Unmap(Patched(m.mem, pc), maps[i].base, End(maps[i]))
    ensures Lost(start, maps, m.regs.pc, m')
  {
    var pc := m.regs.pc;
    StartsAtSecond(m, maps[i], pc);
    hide Emptied, Patched, Fetchable, Gone, CanBorrow, WholePages, Apart, IsKept;
    EmptiedPatched(start, maps, i, pc, m.mem);
    UnmapNext(Patched(start, pc), maps, i, pc, Patched(m.mem, pc));
    assert LostAt(start, maps, i, pc, m'.mem);
  }

  lemma WholePagesAligned(mm: MemoryMap)
    requires WholePages(mm)
    ensures mm.base % PAGE == 0 && mm.size > 0
  {
  }

  lemma BetweenInstructions(page: nat, pc: nat)
    requires page % PAGE == 0 && pc % 4 == 0 && pc < page < pc + 8
    ensures page == pc + 4
  {
    assert page == 4 * (1024 * (page / PAGE)) && pc == 4 * (pc / 4);
  }

  /** A region over the borrowed bytes that does not hold pc starts at the second instruction. */
  lemma StartsAtSecond(m: Machine, mm: MemoryMap, pc: nat)
    requires CanBorrow(m) && pc == m.regs.pc && WholePages(mm) && !Inside(pc, mm) && !Apart(mm, pc, pc + 8)
    ensures mm.base == pc + 4 && Inside(pc + 4, mm)
  {
    hide WholePages;
    WholePagesAligned(mm);
    BetweenInstructions(mm.base, pc);
  }

  lemma EmptiedPatched(start: Memory, maps: seq<MemoryMap>, n: nat, pc: nat, mem: Memory)
    requires Emptied(start, maps, n, pc, mem)
    ensures Emptied(Patched(start, pc), maps, n, pc, Patched(mem, pc))
  {
    hide ToLe, Gone;
  }

  /** What is left of an address space: the kept regions, byte for byte. */
  ghost predicate OnlyKept(start: Memory, maps: seq<MemoryMap>, pc: nat, mem: Memory) {
    && (forall a :: a in mem <==> a in start && exists mm | mm in maps :: IsKept(mm, pc) && Inside(a, mm))
    && (forall a | a in mem :: mem[a] == start[a])
  }

  lemma InOneRegion(maps: seq<MemoryMap>, a: nat)
    requires Disjoint(maps)
    ensures forall i, j | 0 <= i < j < |maps| :: !(Inside(a, maps[i]) && Inside(a, maps[j]))
  {
    forall i, j | 0 <= i < j < |maps|
      ensures !(Inside(a, maps[i]) && Inside(a, maps[j]))
    {
      assert Apart(maps[i], maps[j].base, End(maps[j]));
    }
  }

  /** Which regions those are. */
  lemma KeptAre(start: Memory, maps: seq<MemoryMap>, pc: nat, mem: Memory)
    requires Disjoint(maps) && OnlyKept(start, maps, pc, mem)
    ensures forall mm, a | mm in maps && mm.base <= a < mm.base + mm.size && a in start ::
              a in mem <==> mm.base <= pc < mm.base + mm.size || mm.size == 0x20_0000
  {
    forall mm, a | mm in maps && mm.base <= a < mm.base + mm.size && a in start
      ensures a in mem <==> IsKept(mm, pc)
    {
      InOneRegion(maps, a);
      var i :| 0 <= i < |maps| && maps[i] == mm;
      if other :| other in maps && IsKept(other, pc) && Inside(a, other) {
        var j :| 0 <= j < |maps| && maps[j] == other;
        assert i == j;
      }
    }
  }

  lemma AllGoneLeavesKept(start: Memory, maps: seq<MemoryMap>, pc: nat, mem: Memory)
    requires Covers(maps, start) && Disjoint(maps) && Emptied(start, maps, |maps|, pc, mem)
    ensures OnlyKept(start, maps, pc, mem)
  {
    forall a | a in start
      ensures !Gone(maps, |maps|, pc, a) <==> exists mm | mm in maps :: IsKept(mm, pc) && Inside(a, mm)
    {
      InOneRegion(maps, a);
      var mm :| mm in maps && Inside(a, mm);
      var i :| 0 <= i < |maps| && maps[i] == mm;
      assert !IsKept(mm, pc) ==> Gone(maps, |maps|, pc, a);
    }
  }

  /** How far the loop has come: as it should be, or lost. */
  ghost predicate Progress(start: Machine, maps: seq<MemoryMap>, n: nat, m: Machine) {
    var pc := start.regs.pc;
    if !CanBorrow(start) then m == start
    else if GoneApart(maps, n, pc) then m.regs == start.regs && CanBorrow(m) && Emptied(start.mem, maps, n, pc, m.mem)
    else Lost(start.mem, maps, pc, m)
  }

  lemma ProgressSkips(start: Machine, maps: seq<MemoryMap>, n: nat, m: Machine)
    requires Progress(start, maps, n, m) && n < |maps| && IsKept(maps[n], start.regs.pc)
    ensures Progress(start, maps, n + 1, m)
  {
    var pc := start.regs.pc;
    assert GoneApart(maps, n + 1, pc) <==> GoneApart(maps, n, pc);
    hide GoneApart, Lost, CanBorrow, Emptied;
    if CanBorrow(start) && GoneApart(maps, n, pc) {
      SkipKept(start.mem, maps, n, pc, m.mem);
    }
  }

  /** One turn of the loop on a region that is to go. */
  lemma ProgressUnmaps(start: Machine, maps: seq<MemoryMap>, n: nat, m: Machine, m': Machine)
    requires Progress(start, maps, n, m) && n < |maps| && !IsKept(maps[n], start.regs.pc) && WholePages(maps[n])
    requires !CanBorrow(m) ==> m' == m
    requires CanBorrow(m) && Apart(maps[n], m.regs.pc, m.regs.pc + 8) ==>
               m'.regs == m.regs && m'.mem == Unmap(m.mem, maps[n].base, End(maps[n]))
    requires CanBorrow(m) && !Apart(maps[n], m.regs.pc, m.regs.pc + 8) ==>
               m'.regs.pc == NextPc(m.regs.pc)
               && m'.mem == Unmap(Patched(m.mem, m.regs.pc), maps[n].base, End(maps[n]))
    ensures Progress(start, maps, n + 1, m')
  {
    var pc: nat := start.regs.pc;
    assert GoneApart(maps, n + 1, pc) <==> GoneApart(maps, n, pc) && Apart(maps[n], pc, pc + 8);
    if CanBorrow(start) {
      BorrowedIsMapped(start);
      hide GoneApart, Lost, CanBorrow, Emptied, Unmap, Patched, Apart, IsKept;
      if !GoneApart(maps, n, pc) {
        NothingBorrowedAfter(start.mem, maps, start.regs.pc, m);
      } else if Apart(maps[n], pc, pc + 8) {
        UnmapNext(start.mem, maps, n, pc, m.mem);
        StillBorrowable(m, m', maps[n]);
      } else {
        BecomesLost(start.mem, maps, n, m, m');
      }
    }
  }

  /** unmap_existing_memory, in each case there is. Where no call can be made at pc, nothing happens.
      Otherwise exactly the region with pc in it and the regions of 2 MB are left, with their bytes and
      permissions, and the registers are unchanged, if and only if no other region lies over the two
      instructions that are borrowed. When one does, the loop gets no further than that region. */
  method UnmapExistingMemory(proc: Process)
    requires proc.stop.UserStop?
    requires var maps := proc.env.maps(proc.m.mem);
             && Covers(maps, proc.m.mem) && Disjoint(maps)
             && forall t | proc.m.clock <= t < proc.m.clock + |maps| :: Immediate(proc.env, t, SYS_MUNMAP)
    modifies proc`m
    ensures SameIo(old(proc.m), proc.m)
    ensures var m0, maps, pc := old(proc.m), proc.env.maps(old(proc.m.mem)), old(proc.m.regs.pc);
            if !CanBorrow(m0) then proc.m == m0
            else if GoneApart(maps, |maps|, pc) then
              && proc.m.regs == m0.regs && OnlyKept(m0.mem, maps, pc, proc.m.mem)
              && forall mm, a | mm in maps && mm.base <= a < mm.base + mm.size && a in m0.mem ::
                   a in proc.m.mem <==> mm.base <= pc < mm.base + mm.size || mm.size == 0x20_0000
            else
              proc.m.regs.pc == NextPc(pc) && exists j :: LostAt(m0.mem, maps, j, pc, proc.m.mem)
  {
    hide CanBorrow, Covers, Disjoint, GoneApart, Emptied, OnlyKept, Unmap, WholePages, Patched, Immediate, LostAt;
    hide Progress;
    var memoryMaps := proc.ReadMaps();
    var processRegisters := proc.GetRegs();
    var pc := processRegisters.pc;
    ghost var start := proc.m;
    NothingGone(start, memoryMaps);
    AllWholePages(memoryMaps, start.mem);
    for i := 0 to |memoryMaps|
      invariant proc.stop.UserStop? && SameIo(start, proc.m) && start.clock <= proc.m.clock <= start.clock + i
      invariant Progress(start, memoryMaps, i, proc.m)
    {
      var mm := memoryMaps[i];
      ghost var before := proc.m;
      if mm.base <= pc && pc < mm.base + mm.size {
        ProgressSkips(start, memoryMaps, i, before);
        continue;
      }
      if mm.size == 2097152 {
        ProgressSkips(start, memoryMaps, i, before);
        continue;
      }
      // a failure is reported and passed over
      var _ := UnmapOne(proc, mm);
      ProgressUnmaps(start, memoryMaps, i, before, proc.m);
    }
    ProgressEnds(start, memoryMaps, proc.m);
    if CanBorrow(start) && GoneApart(memoryMaps, |memoryMaps|, pc) {
      KeptAre(start.mem, memoryMaps, pc, proc.m.mem);
    }
  }

  lemma ProgressEnds(start: Machine, maps: seq<MemoryMap>, m: Machine)
    requires Covers(maps, start.mem) && Disjoint(maps) && Progress(start, maps, |maps|, m)
    ensures if !CanBorrow(start) then m == start
            else if GoneApart(maps, |maps|, start.regs.pc) then
              m.regs == start.regs && OnlyKept(start.mem, maps, start.regs.pc, m.mem)
            else Lost(start.mem, maps, start.regs.pc, m)
  {
    hide CanBorrow, Covers, Disjoint, GoneApart, Emptied, OnlyKept, Lost;
    if CanBorrow(start) && GoneApart(maps, |maps|, start.regs.pc) {
      AllGoneLeavesKept(start.mem, maps, start.regs.pc, m.mem);
    }
  }

  lemma NothingGone(start: Machine, maps: seq<MemoryMap>)
    ensures Progress(start, maps, 0, start)
  {
  }

  lemma AllWholePages(maps: seq<MemoryMap>, mem: Memory)
    requires Covers(maps, mem)
    ensures forall i | 0 <= i < |maps| :: WholePages(maps[i])
  {
  }
}
