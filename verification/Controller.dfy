/** The process controller (src/proctool/pcontroller.rs): system-call injection and what is built on it. */
module Controller {
  import opened Words
  import opened ProcMaps
  import opened Tracee
  import opened Ptrace
  import opened Injection
  import opened Utf8

  class ProcessController {
    const proc: Process
    var memoryMaps: Option<seq<MemoryMap>>
    var detachOnDrop: bool

    constructor (proc: Process)
      ensures this.proc == proc && memoryMaps == None && detachOnDrop
    {
      this.proc := proc;
      memoryMaps := None;
      detachOnDrop := true;
    }

    /** The cached map list, or the one that would be cached now. */
    ghost function Maps(): seq<MemoryMap>
      reads this, proc
    {
      if memoryMaps.Some? then memoryMaps.value else proc.env.maps(proc.m.mem)
    }

    /** Stopped in user code, with a live gadget wherever one is found. */
    ghost predicate Ready()
      reads this, proc
    {
      proc.stop.UserStop? && GadgetLive(Maps(), proc.m.mem)
    }

    method GetMemoryMaps() returns (maps: seq<MemoryMap>)
      modifies this`memoryMaps
      ensures maps == old(Maps()) && memoryMaps == Some(maps)
    {
      if memoryMaps.None? {
        maps := proc.ReadMaps();
        memoryMaps := Some(maps);
      }
      maps := memoryMaps.value;
    }

    /** The address of the first svc in the [vdso] segment. */
    method FindSvcInstruction() returns (r: Result<Word>)
      modifies this`memoryMaps
      ensures memoryMaps == Some(old(Maps()))
      ensures r == FindSvc(old(Maps()), proc.m.mem)
      ensures var maps := old(Maps());
              && (r.Ok? <==> exists k: nat :: FirstVdso(maps, k) && HoldsSvc(maps[k], proc.m.mem))
              && (r == Err(NoVdso) <==> forall mm | mm in maps :: mm.name != "[vdso]")
    {
      hide HoldsSvc, FirstVdso;
      var maps := GetMemoryMaps();
      FindSvcIff(maps, proc.m.mem);
      assert maps[0..] == maps;
      for i := 0 to |maps|
        invariant FindSvc(maps, proc.m.mem) == FindSvc(maps[i..], proc.m.mem)
      {
        assert maps[i..][1..] == maps[i + 1..];
        if maps[i].name == "[vdso]" {
          r := FindSvcInstructionInMap(proc, maps[i]);
          return;
        }
      }
      return Err(NoVdso);
    }

    method PrepareSyscallAtPc(sysno: Word, args: seq<Word>, pc: Word)
      requires IsTraceStop(proc.stop) && |args| <= 8
      modifies proc`m
      ensures proc.m == Loaded(old(proc.m), sysno, args, pc)
    {
      var registers := proc.GetRegs();
      var x: XRegs := registers.x[8 := sysno];
      for i := 0 to |args|
        invariant x == Overlay(registers.x[8 := sysno], args[..i])
      {
        x := x[i := args[i]];
      }
      proc.SetRegs(registers.(x := x, pc := pc));
      assert args[..|args|] == args;
    }

    /** Steps until pc has moved. It does not return from a call that never completes, nor from code
        that cannot be fetched, so a first move n must exist. */
    method EnsureNotInSyscall(ghost n: nat)
      requires proc.stop.UserStop?
      requires FirstMove(proc.env, proc.m, n)
      modifies proc`m
      ensures proc.m == Steps(proc.env, old(proc.m), n)
    {
      hide Stepper;
      var initialRegisters := proc.GetRegs();
      ghost var k: nat := 0;
      while true
        invariant k < n
        invariant FirstMove(proc.env, old(proc.m), n)
        invariant proc.m == Steps(proc.env, old(proc.m), k)
        decreases n - k
      {
        proc.SingleStep();
        k := k + 1;
        var currentRegisters := proc.GetRegs();
        if currentRegisters.pc != initialRegisters.pc {
          assert Steps(proc.env, old(proc.m), k).regs.pc != old(proc.m).regs.pc;
          break;
        }
      }
    }

    method PrepareSyscall(sysno: Word, args: seq<Word>) returns (r: Result<()>)
      requires IsTraceStop(proc.stop) && |args| <= 8
      modifies proc`m, this`memoryMaps
      ensures memoryMaps == Some(old(Maps()))
      ensures r.Ok? <==> FindSvc(old(Maps()), old(proc.m.mem)).Ok?
      ensures proc.m == if r.Ok? then Loaded(old(proc.m), sysno, args, FindSvc(old(Maps()), old(proc.m.mem)).value)
                        else old(proc.m)
    {
      hide FindSvc;
      var newPc :- FindSvcInstruction();
      PrepareSyscallAtPc(sysno, args, newPc);
      return Ok(());
    }

    /** The injected call is performed exactly once, however long it blocks. */
    method ExecuteSyscallAtPc(sysno: Word, args: seq<Word>, pc: Word) returns (r: Word)
      requires proc.stop.UserStop? && |args| <= 8
      requires SvcAt(proc.m.mem, pc)
      requires sysno == SYS_EXECVE ==> Call(proc.env, proc.m, sysno, args, pc).regs.pc != pc
      modifies proc`m
      ensures proc.m == Call(proc.env, old(proc.m), sysno, args, pc)
      ensures r == proc.m.regs.x[0]
    {
      PrepareSyscallAtPc(sysno, args, pc);
      ghost var n := InjectedCallMoves(proc.env, old(proc.m), sysno, args, pc);
      EnsureNotInSyscall(n);
      var registers := proc.GetRegs();
      return registers.x[0];
    }

    /** As above, through the gadget in the [vdso] segment. */
    method ExecuteSyscall(sysno: Word, args: seq<Word>) returns (r: Result<Word>)
      requires Ready() && |args| <= 8
      requires sysno == SYS_EXECVE && FindSvc(Maps(), proc.m.mem).Ok? ==>
                 var pc := FindSvc(Maps(), proc.m.mem).value; Call(proc.env, proc.m, sysno, args, pc).regs.pc != pc
      modifies proc`m, this`memoryMaps
      ensures memoryMaps == Some(old(Maps()))
      ensures r.Ok? <==> FindSvc(old(Maps()), old(proc.m.mem)).Ok?
      ensures r.Err? ==> proc.m == old(proc.m)
      ensures r.Ok? ==>
                && proc.m == Call(proc.env, old(proc.m), sysno, args, FindSvc(old(Maps()), old(proc.m.mem)).value)
                && r.value == proc.m.regs.x[0]
    {
      var newPc :- FindSvcInstruction();
      var ret := ExecuteSyscallAtPc(sysno, args, newPc);
      return Ok(ret);
    }

    // ----- mapping memory -----

    method MapRegion(size: Word) returns (r: Result<Word>)
      requires Ready()
      modifies proc`m, this`memoryMaps
      ensures Ready() && memoryMaps == Some(old(Maps()))
      ensures r.Ok? <==> FindSvc(old(Maps()), old(proc.m.mem)).Ok?
      ensures r.Err? ==> proc.m == old(proc.m)
      ensures r.Ok? ==>
                && proc.m == Serve(proc.env, old(proc.m), Map(0, size, PROT_READ + PROT_WRITE + PROT_EXEC),
                                   FindSvc(old(Maps()), old(proc.m.mem)).value)
                && r.value == proc.m.regs.x[0]
    {
      hide Call, SvcAt, FindSvc;
      ghost var before, maps := proc.m, Maps();
      r := ExecuteSyscall(SYS_MMAP, MmapArgs(0, size, PROT_READ + PROT_WRITE + PROT_EXEC));
      if r.Ok? {
        MapExtends(proc.env, before, 0, size, PROT_READ + PROT_WRITE + PROT_EXEC, FindSvc(maps, before.mem).value);
        GadgetLiveExtends(maps, before.mem, proc.m.mem);
      }
    }

    /** Maps a page above every region and fills it with svc instructions. */
    method MapSvcRegion() returns (r: Result<Word>)
      requires Ready() && Covers(Maps(), proc.m.mem)
      modifies proc`m, this`memoryMaps
      ensures memoryMaps == Some(old(Maps()))
      ensures r.Ok? <==> FindSvc(old(Maps()), old(proc.m.mem)).Ok?
                         && GadgetAddress(old(Maps())) + PAGE <= TASK_SIZE && !proc.env.deny(old(proc.m.clock))
      ensures SameIo(old(proc.m), proc.m)
      ensures r.Ok? ==>
                && r.value == GadgetAddress(old(Maps()))
                && (exists mm | mm in old(Maps()) :: r.value == End(mm) + 4096)
                && (forall mm | mm in old(Maps()) :: End(mm) + 4096 <= r.value)
                && proc.m.clock == old(proc.m.clock) + 1
                && Free(old(proc.m.mem), r.value, r.value + PAGE)
                && proc.m.mem == old(proc.m.mem) + Filled(r.value, r.value + PAGE, SvcPattern(PAGE), RWX)
                && GadgetPage(proc.m.mem, r.value)
    {
      hide FindSvc, SvcAt, HighestEnd;
      var highestAddr: nat := 0;
      var maps := GetMemoryMaps();
      HighestEndSteps(maps);
      for i := 0 to |maps|
        invariant highestAddr == HighestEnd(maps[..i])
      {
        highestAddr := Max(End(maps[i]), highestAddr);
      }
      AboveEverything(maps, proc.m.mem);
      if maps == [] {
        NoMapsNoSvc(proc.m.mem);
        return Err(NoVdso);
      }
      r := MapAndFillSvcPage(highestAddr + 4096);
    }

    method MapAndFillSvcPage(addr: Word) returns (r: Result<Word>)
      requires Ready() && addr % PAGE == 0 && LOWEST_MAPPABLE <= addr
      requires forall a: nat | addr - PAGE <= a :: a !in proc.m.mem
      modifies proc`m, this`memoryMaps
      ensures memoryMaps == Some(old(Maps()))
      ensures r.Ok? <==> FindSvc(old(Maps()), old(proc.m.mem)).Ok?
                         && addr + PAGE <= TASK_SIZE && !proc.env.deny(old(proc.m.clock))
      ensures SameIo(old(proc.m), proc.m)
      ensures r.Ok? ==>
                && r.value == addr && proc.m.clock == old(proc.m.clock) + 1
                && proc.m.mem == old(proc.m.mem) + Filled(addr, addr + PAGE, SvcPattern(PAGE), RWX)
                && GadgetPage(proc.m.mem, addr)
    {
      hide FindSvc, SvcAt, GadgetPage, UserWritable, Store, Filled, SvcPattern, MmapOutcome;
      var size := 4096;
      ghost var before, t := proc.m.mem, proc.m.clock;
      var ret :- MapAt(addr, size);
      if ret == MINUS_ONE {
        return Err(MmapFailed);
      }
      SvcPageOutcome(proc.env, before, t, addr, proc.m.mem, ret);
      var bytes := SvcInstructions(size / |SVC_BYTES|);
      var written :- proc.Writev(addr, bytes);
      if written == 0 {
        return Err(TransferFailed);
      }
      return Ok(addr);
    }

    /** mmap of whole pages with a hint and every permission. */
    method MapAt(hint: Word, size: Word) returns (r: Result<Word>)
      requires Ready() && size % PAGE == 0 && size > 0
      modifies proc`m, this`memoryMaps
      ensures memoryMaps == Some(old(Maps()))
      ensures SameIo(old(proc.m), proc.m)
      ensures r.Ok? <==> FindSvc(old(Maps()), old(proc.m.mem)).Ok?
      ensures r.Err? ==> proc.m == old(proc.m)
      ensures r.Ok? ==> r.value != MINUS_ONE && proc.m.clock == old(proc.m.clock) + 1
      ensures r.Ok? ==>
                MmapOutcome(proc.env, old(proc.m.mem), old(proc.m.clock), hint, size, RWX, proc.m.mem, r.value)
    {
      hide Call, SvcAt, FindSvc;
      ghost var before, found := proc.m, FindSvc(Maps(), proc.m.mem);
      r := ExecuteSyscall(SYS_MMAP, MmapArgs(hint, size, PROT_READ + PROT_WRITE + PROT_EXEC));
      if r.Ok? {
        CallMmap(proc.env, before, hint, size, PROT_READ + PROT_WRITE + PROT_EXEC, found.value);
        RoundUpFacts(size);
      }
    }

    // ----- rebuilding a saved region through the gadget page -----

    method UnmapRegion(svcRegionAddr: Word, mm: MemoryMap)
      requires proc.stop.UserStop? && GadgetPage(proc.m.mem, svcRegionAddr)
      requires WholePages(mm) && Apart(mm, svcRegionAddr, svcRegionAddr + PAGE)
      modifies proc`m
      ensures SameIo(old(proc.m), proc.m) && proc.m.clock == old(proc.m.clock) + 1
      ensures proc.m.mem == Unmap(old(proc.m.mem), mm.base, End(mm))
      ensures GadgetPage(proc.m.mem, svcRegionAddr) && Mappable(proc.m.mem, mm.base, mm.size)
    {
      hide Call, SvcAt, GadgetPage;
      ghost var before := proc.m;
      GadgetWorks(before.mem, svcRegionAddr);
      var _ := ExecuteSyscallAtPc(SYS_MUNMAP, [mm.base, mm.size], svcRegionAddr);
      CallMunmap(proc.env, before, mm.base, mm.size, svcRegionAddr);
      UnmapFrees(before.mem, mm, svcRegionAddr);
    }

    method MapWritable(svcRegionAddr: Word, mm: MemoryMap, prot: Word) returns (r: Word)
      requires proc.stop.UserStop? && GadgetPage(proc.m.mem, svcRegionAddr)
      requires WholePages(mm) && Apart(mm, svcRegionAddr, svcRegionAddr + PAGE)
      requires Mappable(proc.m.mem, mm.base, mm.size)
      modifies proc`m
      ensures SameIo(old(proc.m), proc.m) && r != MINUS_ONE && proc.m.clock == old(proc.m.clock) + 1
      ensures proc.m.mem == if proc.env.deny(old(proc.m.clock)) then old(proc.m.mem)
                            else old(proc.m.mem) + Filled(mm.base, End(mm), [], ProtOf(prot))
      ensures GadgetPage(proc.m.mem, svcRegionAddr)
    {
      hide Call, SvcAt;
      hide GadgetPage, Zeros, Filled, ProtOf;
      ghost var before := proc.m;
      GadgetWorks(before.mem, svcRegionAddr);
      r := ExecuteSyscallAtPc(SYS_MMAP, MmapArgs(mm.base, mm.size, prot), svcRegionAddr);
      CallMmap(proc.env, before, mm.base, mm.size, prot, svcRegionAddr);
      RoundUpFacts(mm.size);
      ZerosAreFilled(mm.base, End(mm), ProtOf(prot));
      GadgetKeptBeside(before.mem, mm, [], ProtOf(prot), svcRegionAddr);
    }

    method ProtectRegion(svcRegionAddr: Word, mm: MemoryMap, prot: Word)
      requires proc.stop.UserStop? && GadgetPage(proc.m.mem, svcRegionAddr) && WholePages(mm)
      modifies proc`m
      ensures SameIo(old(proc.m), proc.m) && proc.m.clock == old(proc.m.clock) + 1
      ensures proc.m.mem == if Mapped(old(proc.m.mem), mm.base, End(mm))
                            then Protect(old(proc.m.mem), mm.base, End(mm), ProtOf(prot)) else old(proc.m.mem)
    {
      hide Call, SvcAt, GadgetPage;
      ghost var before := proc.m;
      GadgetWorks(before.mem, svcRegionAddr);
      var _ := ExecuteSyscallAtPc(SYS_MPROTECT, [mm.base, mm.size, prot], svcRegionAddr);
      CallMprotect(proc.env, before, mm.base, mm.size, prot, svcRegionAddr);
    }

    /** Writes the captured bytes, if there are any. */
    method FillRegion(mm: MemoryMap) returns (r: Result<()>)
      modifies proc`m
      ensures r.Ok? <==> mm.data == [] || UserWritable(old(proc.m.mem), mm.base, mm.base + |mm.data|)
      ensures proc.m == if r.Ok? && mm.data != [] then old(proc.m).(mem := Store(old(proc.m.mem), mm.base, mm.data))
                        else old(proc.m)
    {
      if |mm.data| > 0 {
        var written :- proc.Writev(mm.base, mm.data);
        if written == 0 {
          return Err(TransferFailed);
        }
      }
      return Ok(());
    }

    /** Rebuilds one saved region, injecting every call through the gadget page. The region is
        restored exactly when its mmap is granted; a refused one leaves a hole, and is reported only
        when there are bytes to write into it. */
    method MapAndFillRegion(svcRegionAddr: Word, mm: MemoryMap) returns (r: Result<()>)
      requires proc.stop.UserStop? && GadgetPage(proc.m.mem, svcRegionAddr)
      requires WholePages(mm) && |mm.data| <= mm.size && Apart(mm, svcRegionAddr, svcRegionAddr + PAGE)
      modifies proc`m
      ensures SameIo(old(proc.m), proc.m) && GadgetPage(proc.m.mem, svcRegionAddr)
      ensures proc.m.mem == if proc.env.deny(old(proc.m.clock) + 1) then Unmap(old(proc.m.mem), mm.base, End(mm))
                            else Restored(old(proc.m.mem), mm)
      ensures r.Ok? <==> !proc.env.deny(old(proc.m.clock) + 1) || mm.data == []
      ensures proc.m.clock == old(proc.m.clock) + TurnCalls(proc.env, old(proc.m.clock), mm)
    {
      hide GadgetPage, Mappable, Unmap, SavedCells, Apart;
      UnmapRegion(svcRegionAddr, mm);
      r := FillHole(svcRegionAddr, mm);
    }

    /** The rest of it, once the region is unmapped. */
    method FillHole(svcRegionAddr: Word, mm: MemoryMap) returns (r: Result<()>)
      requires proc.stop.UserStop? && GadgetPage(proc.m.mem, svcRegionAddr) && Mappable(proc.m.mem, mm.base, mm.size)
      requires WholePages(mm) && |mm.data| <= mm.size && Apart(mm, svcRegionAddr, svcRegionAddr + PAGE)
      modifies proc`m
      ensures SameIo(old(proc.m), proc.m) && GadgetPage(proc.m.mem, svcRegionAddr)
      ensures var e, m0 := proc.env, old(proc.m);
              && proc.m.mem == (if e.deny(m0.clock) then m0.mem else m0.mem + SavedCells(mm))
              && (r.Ok? <==> !e.deny(m0.clock) || mm.data == [])
              && proc.m.clock == m0.clock + if mm.writable || (e.deny(m0.clock) && mm.data != []) then 1 else 2
    {
      hide GadgetPage, Mappable, Mapped, UserWritable, Store, Filled, Protect, ProtOf, ProtOfMap, SavedCells;
      hide AreBits, WholePages, Apart;
      RegionFilled(proc.m.mem, mm, svcRegionAddr);
      var prot, withWrite := Permissions(mm);
      // the captured bytes are yet to be written
      var ret := MapWritable(svcRegionAddr, mm, withWrite);
      if ret == MINUS_ONE {
        return Err(MmapFailed);
      }
      var _ :- FillRegion(mm);
      if !mm.writable {
        ProtectRegion(svcRegionAddr, mm, prot);
      }
      return Ok(());
    }

    // ----- injecting data -----

    method InjectBytesAtAddr(bytes: seq<Byte>, addr: Word) returns (r: Result<Word>)
      modifies proc`m
      ensures r.Ok? <==> UserWritable(old(proc.m.mem), addr, addr + |bytes|) && bytes != []
      ensures r.Ok? ==> r.value == addr
      ensures proc.m == if r.Ok? then old(proc.m).(mem := Store(old(proc.m.mem), addr, bytes)) else old(proc.m)
    {
      ghost var before := proc.m;
      var written :- proc.Writev(addr, bytes);
      if written == 0 {
        StoreEmpty(before.mem, addr);
        return Err(TransferFailed);
      }
      return Ok(addr);
    }

    /** mmap of readable and writable memory anywhere. */
    method MapData(size: Word) returns (r: Result<Word>)
      requires Ready()
      modifies proc`m, this`memoryMaps
      ensures memoryMaps == Some(old(Maps()))
      ensures SameIo(old(proc.m), proc.m)
      ensures r.Ok? <==> FindSvc(old(Maps()), old(proc.m.mem)).Ok?
      ensures r.Err? ==> proc.m == old(proc.m)
      ensures r.Ok? ==>
                && proc.m == Call(proc.env, old(proc.m), SYS_MMAP, MmapArgs(0, size, PROT_READ + PROT_WRITE),
                                  FindSvc(old(Maps()), old(proc.m.mem)).value)
                && r.value == proc.m.regs.x[0]
                && MmapOutcome(proc.env, old(proc.m.mem), old(proc.m.clock), 0, RoundUp(size),
                               Prot(true, true, false), proc.m.mem, r.value)
    {
      hide Call, SvcAt, FindSvc;
      ghost var before, found := proc.m, FindSvc(Maps(), proc.m.mem);
      r := ExecuteSyscall(SYS_MMAP, MmapArgs(0, size, PROT_READ + PROT_WRITE));
      if r.Ok? {
        CallMmap(proc.env, before, 0, size, PROT_READ + PROT_WRITE, found.value);
      }
    }

    /** Places the bytes in a fresh mapping, zero-filled after them, and changes nothing else in
        memory; or fails and leaves memory as it was. */
    method InjectBytes(bytes: seq<Byte>) returns (r: Result<Word>)
      requires Ready() && |bytes| < WORD_LIMIT
      modifies proc`m, this`memoryMaps
      ensures Ready() && memoryMaps == Some(old(Maps())) && SameIo(old(proc.m), proc.m)
      ensures FindSvc(old(Maps()), old(proc.m.mem)).Ok? ==>
                proc.m == Serve(proc.env, old(proc.m), Inject(bytes), FindSvc(old(Maps()), old(proc.m.mem)).value)
                && proc.m.clock == old(proc.m.clock) + 1
      ensures GaveUp(FindSvc(old(Maps()), old(proc.m.mem)), old(proc.m), proc.m)
      ensures r.Ok? <==> FindSvc(old(Maps()), old(proc.m.mem)).Ok?
                         && Grants(proc.env, old(proc.m.mem), old(proc.m.clock), 0, RoundUp(|bytes|))
      ensures r.Ok? ==>
                && r.value == proc.env.place(old(proc.m.clock))
                && Mappable(old(proc.m.mem), r.value, RoundUp(|bytes|))
                && proc.m.mem == old(proc.m.mem) + Injected(r.value, bytes)
                && FindSvc(Maps(), proc.m.mem) == FindSvc(old(Maps()), old(proc.m.mem))
      ensures r.Err? ==> proc.m.mem == old(proc.m.mem)
    {
      hide SvcAt, FindSvc, MmapOutcome, Grants, Mappable, UserWritable, Store, Injected, Call, LeftOnMmap;
      ghost var before, t, maps := proc.m.mem, proc.m.clock, Maps();
      ghost var m0, found := proc.m, FindSvc(Maps(), proc.m.mem);
      var addr :- MapData(|bytes|);
      BlockOutcome(proc.env, before, t, bytes, RoundUp(|bytes|), proc.m.mem, addr);
      ServeInject(proc.env, m0, bytes, found.value);
      StoreEmpty(proc.m.mem, addr);
      r := InjectBytesAtAddr(bytes, addr);
      if r.Ok? {
        InjectedExtends(before, addr, bytes);
        GadgetLiveExtends(maps, before, proc.m.mem);
      }
    }

    method InjectU64s(xs: seq<Word>) returns (r: Result<Word>)
      requires Ready() && 8 * |xs| < WORD_LIMIT
      modifies proc`m, this`memoryMaps
      ensures Ready() && memoryMaps == Some(old(Maps())) && SameIo(old(proc.m), proc.m)
      ensures FindSvc(old(Maps()), old(proc.m.mem)).Ok? ==> proc.m.clock == old(proc.m.clock) + 1
      ensures GaveUp(FindSvc(old(Maps()), old(proc.m.mem)), old(proc.m), proc.m)
      ensures r.Ok? <==> FindSvc(old(Maps()), old(proc.m.mem)).Ok?
                         && Grants(proc.env, old(proc.m.mem), old(proc.m.clock), 0, RoundUp(8 * |xs|))
      ensures r.Ok? ==>
                && r.value == proc.env.place(old(proc.m.clock))
                && Mappable(old(proc.m.mem), r.value, RoundUp(8 * |xs|))
                && proc.m.mem == old(proc.m.mem) + Injected(r.value, LeBytes(xs))
                && FindSvc(Maps(), proc.m.mem) == FindSvc(old(Maps()), old(proc.m.mem))
      ensures r.Err? ==> proc.m.mem == old(proc.m.mem)
    {
      var bytes := WordsToBytes(xs);
      r := InjectBytes(bytes);
    }

    // ----- rewriting a buffer -----

    /** Overlapping read-modify-write of eight-byte words rotates the buffer byte by byte and
        nothing else. It stops at the first word that is not mapped, with the bytes before it rotated. */
    method Rot13(baseAddr: Word, count: Word) returns (r: Result<()>)
      requires IsTraceStop(proc.stop)
      modifies proc`m
      ensures r.Ok? <==> WordsMapped(old(proc.m.mem), baseAddr, count)
      ensures r.Ok? ==> proc.m == old(proc.m).(mem := Rot13Mem(old(proc.m.mem), baseAddr, count))
                        && RotatedRange(old(proc.m.mem), proc.m.mem, baseAddr, count)
      ensures r.Err? ==> exists k: nat | k < count ::
                !UserMapped(old(proc.m.mem), baseAddr + k, baseAddr + k + 8)
                && proc.m == old(proc.m).(mem := Rot13Mem(old(proc.m.mem), baseAddr, k))
    {
      hide Rot13Mem, Store, Load, WordOf, ToLe, Rot13Byte, WordsMapped, UserMapped, Mapped;
      ghost var m0 := proc.m;
      hide RotatedRange;
      Rot13MemRotates(m0.mem, baseAddr, count);
      NoWords(m0.mem, baseAddr);
      Rot13Nothing(m0.mem, baseAddr);
      for i := 0 to count
        invariant proc.m == m0.(mem := Rot13Mem(m0.mem, baseAddr, i))
        invariant IsTraceStop(proc.stop)
        invariant WordsMapped(m0.mem, baseAddr, i)
      {
        OneMoreWord(m0.mem, baseAddr, i);
        Rot13KeepsMapping(m0.mem, baseAddr, i);
        var c := proc.Peek(baseAddr + i);
        if c.Err? {
          if WordsMapped(m0.mem, baseAddr, count) {
            FewerWords(m0.mem, baseAddr, count, i);
          }
          return Err(c.fault);
        }
        Rot13Step(m0.mem, baseAddr, i);
        var rot := c.value - c.value % 256 + Rot13Byte(c.value % 256);
        if rot != c.value {
          var poked := proc.Poke(baseAddr + i, rot);
        }
      }
      return Ok(());
    }

    method ReadText(baseAddr: Word, count: Word) returns (r: Result<seq<Byte>>)
      ensures r.Ok? <==> TextReadable(proc.m.mem, baseAddr, count)
      ensures r.Ok? ==> r.value == Load(proc.m.mem, baseAddr, count)
    {
      var buffer :- proc.Readv(baseAddr, count);
      if |buffer| == 0 {
        return Err(TransferFailed);
      }
      if !ValidUtf8(buffer) {
        return Err(NotUtf8);
      }
      return Ok(buffer);
    }

    /** Points a pending write at a coloured copy of its text, placed at regionAddr. */
    method ColorizeStderr(regionAddr: Word, baseAddr: Word, count: Word) returns (r: Result<()>)
      requires IsTraceStop(proc.stop)
      modifies proc`m
      ensures r.Ok? <==> Colorable(old(proc.m.mem), regionAddr, baseAddr, count)
      ensures r.Ok? ==> proc.m == Recolored(old(proc.m), regionAddr, baseAddr, count)
                        && PointsAtRed(old(proc.m), proc.m, baseAddr, count)
      ensures r.Err? ==> HalfColored(old(proc.m), regionAddr, baseAddr, count, proc.m)
    {
      hide ValidUtf8, HalfPoked, Padded, Colored;
      hide PointsAtRed;
      if Colorable(proc.m.mem, regionAddr, baseAddr, count) {
        RecoloredIsRed(proc.m, regionAddr, baseAddr, count);
      }
      var s :- ReadText(baseAddr, count);
      var originalLength := |Colored(s)|;
      var bytes := PadToWords(Colored(s));
      var originalRegs := proc.GetRegs();
      var _ :- PokeAll(regionAddr, bytes);
      var x := originalRegs.x[1 := regionAddr][2 := originalLength];
      proc.SetRegs(originalRegs.(x := x));
      return Ok(());
    }

    /** Pokes whole words one after the other. */
    method PokeAll(addr: Word, bytes: seq<Byte>) returns (r: Result<()>)
      requires IsTraceStop(proc.stop) && |bytes| % 8 == 0 && bytes != []
      modifies proc`m
      ensures r.Ok? <==> UserMapped(old(proc.m.mem), addr, addr + |bytes|)
      ensures r.Ok? ==> proc.m == old(proc.m).(mem := Store(old(proc.m.mem), addr, bytes))
      ensures r.Err? ==> HalfPoked(old(proc.m), addr, bytes, proc.m)
    {
      hide Store, ToLe, WordOf, UserMapped;
      ghost var m0 := proc.m;
      StoreEmpty(m0.mem, addr);
      var i := 0;
      while i < |bytes|
        invariant 0 <= i <= |bytes| && i % 8 == 0
        invariant proc.m == m0.(mem := Store(m0.mem, addr, bytes[..i]))
        invariant i == 0 || UserMapped(m0.mem, addr, addr + i)
        invariant IsTraceStop(proc.stop)
      {
        var x := WordOf(bytes[i..i + 8]);
        StoreKeepsMapping(m0.mem, addr, bytes[..i], addr + i, addr + i + 8);
        MappedStep(m0.mem, addr, i, |bytes|);
        var poked := proc.Poke(addr + i, x);
        if poked.Err? {
          assert HalfPokedAt(m0, addr, bytes, proc.m, i);
          return poked;
        }
        StoreAppend(m0.mem, addr, bytes[..i], bytes[i..i + 8]);
        assert bytes[..i] + bytes[i..i + 8] == bytes[..i + 8];
        i := i + 8;
      }
      assert bytes[..i] == bytes;
      return Ok(());
    }

    // ----- leaving the process -----

    method Detach() returns (r: Result<()>)
      modifies proc`stop
      ensures r.Ok? <==> IsTraceStop(old(proc.stop))
      ensures proc.stop == if r.Ok? then Running else old(proc.stop)
    {
      r := proc.Detach(false);
    }

    method DetachAndStop() returns (r: Result<()>)
      modifies proc`stop
      ensures r.Ok? <==> IsTraceStop(old(proc.stop))
      ensures proc.stop == if r.Ok? then Frozen else old(proc.stop)
    {
      r := proc.Detach(true);
    }

    /** The end of a controller's life: whatever way it is left, a traced process is let go. */
    method Drop()
      modifies proc`stop
      ensures proc.stop == if detachOnDrop && IsTraceStop(old(proc.stop)) then Running else old(proc.stop)
    {
      if detachOnDrop {
        var _ := Detach();
      }
    }
  }

  /** The text of a pending write can be read: it is not empty and it is UTF-8. */
  predicate TextReadable(mem: Memory, base: Word, count: Word) {
    count > 0 && UserReadable(mem, base, base + count) && ValidUtf8(Load(mem, base, count))
  }

  /** Whether a pending write can be recoloured: its text can be read, and there is room for it. */
  predicate Colorable(mem: Memory, region: Word, base: Word, count: Word) {
    && TextReadable(mem, base, count)
    && UserMapped(mem, region, region + |Padded(Colored(Load(mem, base, count)))|)
  }

  /** The first k bytes are stored, in whole words, and the next word is not mapped. */
  ghost predicate HalfPokedAt(m: Machine, addr: Word, bytes: seq<Byte>, m': Machine, k: nat) {
    && k < |bytes| && k % 8 == 0 && (k == 0 || UserMapped(m.mem, addr, addr + k))
    && !UserMapped(m.mem, addr + k, addr + k + 8)
    && m' == m.(mem := Store(m.mem, addr, bytes[..k]))
  }

  /** What is left when not all words could be poked. */
  ghost predicate HalfPoked(m: Machine, addr: Word, bytes: seq<Byte>, m': Machine) {
    exists k: nat :: HalfPokedAt(m, addr, bytes, m', k)
  }

  /** What is left of a write that could not be recoloured: nothing has changed when its text cannot be
      read, and otherwise the coloured text is in memory up to the first word that is not mapped. */
  ghost predicate HalfColored(m: Machine, region: Word, base: Word, count: Word, m': Machine) {
    if TextReadable(m.mem, base, count) then HalfPoked(m, region, Padded(Colored(Load(m.mem, base, count))), m')
    else m' == m
  }

  function Recolored(m: Machine, region: Word, base: Word, count: Word): Machine
    requires Colorable(m.mem, region, base, count)
  {
    var bytes := Padded(Colored(Load(m.mem, base, count)));
    m.(mem := Store(m.mem, region, bytes), regs := m.regs.(x := m.regs.x[1 := region][2 := count + 9]))
  }

  /** The write that is pending writes the red form of the text that it would have written. */
  ghost predicate PointsAtRed(before: Machine, after: Machine, base: Word, count: Word) {
    var buf: nat, n: nat := after.regs.x[1], after.regs.x[2];
    && Mapped(before.mem, base, base + count) && Mapped(after.mem, buf, buf + n)
    && IsRed(Load(before.mem, base, count), Load(after.mem, buf, n))
  }

  lemma RecoloredIsRed(m: Machine, region: Word, base: Word, count: Word)
    requires Colorable(m.mem, region, base, count)
    ensures PointsAtRed(m, Recolored(m, region, base, count), base, count)
  {
    var text := Load(m.mem, base, count);
    var p, mem := Padded(Colored(text)), Recolored(m, region, base, count).mem;
    ColoredIsRed(text);
    hide ValidUtf8, Padded, Colored, IsRed;
    assert mem.Keys == m.mem.Keys;
    assert Mapped(m.mem, region, region + |p|);
    assert Mapped(mem, region, region + (count + 9));
    assert Load(mem, region, count + 9) == p[..count + 9];
  }

  method PadToWords(bytes: seq<Byte>) returns (padded: seq<Byte>)
    ensures padded == Padded(bytes)
  {
    padded := bytes;
    ghost var k: nat := 0;
    while |padded| % 8 != 0
      invariant padded == bytes + ZeroBytes(k) && k <= (8 - |bytes| % 8) % 8
      decreases 8 - k
    {
      padded := padded + [0];
      k := k + 1;
    }
  }

  lemma StoreKeepsMapping(mem: Memory, at: nat, bytes: seq<Byte>, lo: nat, hi: nat)
    ensures UserMapped(Store(mem, at, bytes), lo, hi) <==> UserMapped(mem, lo, hi)
  {
    assert Store(mem, at, bytes).Keys == mem.Keys;
  }

  lemma MappedStep(mem: Memory, lo: nat, i: nat, n: nat)
    requires i + 8 <= n && (i == 0 || UserMapped(mem, lo, lo + i))
    ensures UserMapped(mem, lo + i, lo + i + 8) <==> UserMapped(mem, lo, lo + i + 8)
    ensures UserMapped(mem, lo, lo + n) ==> UserMapped(mem, lo + i, lo + i + 8)
  {
  }

  lemma NoWords(mem: Memory, lo: nat)
    ensures WordsMapped(mem, lo, 0)
  {
  }

  lemma Rot13KeepsMapping(mem: Memory, lo: nat, n: nat)
    ensures UserMapped(Rot13Mem(mem, lo, n), lo + n, lo + n + 8) <==> UserMapped(mem, lo + n, lo + n + 8)
    ensures UserMapped(mem, lo + n, lo + n + 8) ==> Mapped(mem, lo + n, lo + n + 8)
  {
    assert Rot13Mem(mem, lo, n).Keys == mem.Keys;
  }

  lemma Rot13Nothing(mem: Memory, lo: nat)
    ensures Rot13Mem(mem, lo, 0) == mem
  {
  }

  /** How many calls one turn of map_and_fill_region makes from time t on: munmap, mmap, and mprotect
      unless the region is writable or there are bytes that cannot be written. */
  function TurnCalls(e: Env, t: nat, mm: MemoryMap): nat {
    if mm.writable || (e.deny(t + 1) && mm.data != []) then 2 else 3
  }

  /** to_le_bytes of each word, in order. */
  method WordsToBytes(xs: seq<Word>) returns (bytes: seq<Byte>)
    ensures bytes == LeBytes(xs)
  {
    bytes := [];
    for i := 0 to |xs|
      invariant bytes + LeBytes(xs[i..]) == LeBytes(xs)
    {
      assert xs[i..][1..] == xs[i + 1..];
      assert bytes + (ToLe(xs[i], 8) + LeBytes(xs[i + 1..])) == (bytes + ToLe(xs[i], 8)) + LeBytes(xs[i + 1..]);
      bytes := bytes + ToLe(xs[i], 8);
    }
    assert bytes + [] == bytes;
  }

  /** Permission bits as mmap and mprotect take them: 1 for reading, 2 for writing, 4 for executing. */
  predicate AreBits(bits: Word, read: bool, write: bool, exec: bool) {
    bits < 8 && (bits % 2 == 1 <==> read) && (bits / 2 % 2 == 1 <==> write) && (bits / 4 % 2 == 1 <==> exec)
  }

  /** The mmap permission bits of a region, and the same bits with PROT_WRITE set. */
  method Permissions(mm: MemoryMap) returns (prot: Word, withWrite: Word)
    ensures AreBits(prot, mm.readable, mm.writable, mm.executable)
    ensures AreBits(withWrite, mm.readable, true, mm.executable)
    ensures ProtOf(prot) == ProtOfMap(mm) && ProtOf(withWrite) == Prot(mm.readable, true, mm.executable)
  {
    prot := 0;
    if mm.readable {
      prot := prot + PROT_READ;
    }
    if mm.writable {
      prot := prot + PROT_WRITE;
    }
    if mm.executable {
      prot := prot + PROT_EXEC;
    }
    withWrite := if mm.writable then prot else prot + PROT_WRITE;
  }

  method SvcInstructions(n: nat) returns (bytes: seq<Byte>)
    ensures bytes == SvcPattern(4 * n)
  {
    bytes := [];
    for i := 0 to n
      invariant bytes == SvcPattern(4 * i)
    {
      bytes := bytes + SVC_BYTES;
    }
  }

  lemma NoMapsNoSvc(mem: Memory)
    ensures FindSvc([], mem) == Err(NoVdso)
  {
  }

  method FindSvcInstructionInMap(proc: Process, mm: MemoryMap) returns (r: Result<Word>)
    ensures r == FindSvcInMap(mm, proc.m.mem)
  {
    hide ScanSvc;
    var buffer :- proc.Readv(mm.base, mm.size);
    if |buffer| == 0 {
      return Err(TransferFailed);
    }
    if |buffer| < 3 {
      return Err(Panic);
    }
    var offset := FirstSvc(buffer);
    match offset {
      case None => return Err(NoSvc);
      case Some(i) => return Ok(mm.base + i);
    }
  }

  method FirstSvc(buffer: seq<Byte>) returns (k: Option<nat>)
    requires |buffer| >= 3
    ensures k == ScanSvc(buffer, 0)
  {
    for i := 0 to |buffer| - 3
      invariant ScanSvc(buffer, 0) == ScanSvc(buffer, i)
    {
      if buffer[i] == SVC_BYTES[0] && buffer[i + 1] == SVC_BYTES[1]
         && buffer[i + 2] == SVC_BYTES[2] && buffer[i + 3] == SVC_BYTES[3] {
        assert MatchesAt(buffer, i);
        return Some(i);
      }
    }
    return None;
  }
}
