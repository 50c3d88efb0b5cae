/** Checkpoint and restore of a process (src/proctool/cryogenics.rs). */
module Cryogenics {
  import opened Words
  import opened ProcMaps
  import opened Tracee
  import opened Ptrace
  import opened Injection
  import opened Controller

  /** A frozen process: its regions with the bytes captured from them, and its registers. */
  datatype ProcessState = ProcessState(memoryMaps: seq<MemoryMap>, regs: Regs)

  // ----- freezing -----

  /** The bytes of a region can be read through /proc/pid/mem. */
  predicate Capturable(e: Env, mem: Memory, mm: MemoryMap) {
    forall a | mm.base <= a < End(mm) :: a in mem && !e.device(a)
  }

  /** What populate_memory makes of one region: unreadable regions, [vvar] and regions whose read
      fails stay without data. */
  function Populated(e: Env, mem: Memory, mm: MemoryMap): MemoryMap {
    if !mm.readable || mm.name == "[vvar]" || !Capturable(e, mem, mm) then mm
    else mm.(data := Load(mem, mm.base, mm.size))
  }

  function PopulatedAll(e: Env, mem: Memory, maps: seq<MemoryMap>): (populated: seq<MemoryMap>)
    ensures |populated| == |maps| && forall i | 0 <= i < |maps| :: populated[i] == Populated(e, mem, maps[i])
  {
    seq<MemoryMap>(|maps|, i requires 0 <= i < |maps| => Populated(e, mem, maps[i]))
  }

  /** populate_memory: fills the data fields in place. */
  method PopulateMemory(proc: Process, maps: array<MemoryMap>)
    modifies maps
    ensures forall i | 0 <= i < maps.Length :: maps[i] == Populated(proc.env, proc.m.mem, old(maps[i]))
    ensures forall i | 0 <= i < maps.Length ::
              var mm := old(maps[i]);
              maps[i] == if mm.readable && mm.name != "[vvar]" && Capturable(proc.env, proc.m.mem, mm)
                         then mm.(data := Load(proc.m.mem, mm.base, mm.size)) else mm
  {
    for i := 0 to maps.Length
      invariant forall k | 0 <= k < i :: maps[k] == Populated(proc.env, proc.m.mem, old(maps[k]))
      invariant forall k | i <= k < maps.Length :: maps[k] == old(maps[k])
    {
      if !maps[i].readable || maps[i].name == "[vvar]" {
        continue;
      }
      if !Capturable(proc.env, proc.m.mem, maps[i]) {
        continue;
      }
      maps[i] := maps[i].(data := Load(proc.m.mem, maps[i].base, maps[i].size));
    }
  }

  /** freeze: the registers at the attach stop, and the memory once the process is stopped for good. */
  method Freeze(proc: Process) returns (r: Result<ProcessState>)
    modifies proc`stop
    ensures r.Ok? <==> !IsTraceStop(old(proc.stop))
    ensures r.Ok? ==> proc.stop == Frozen && r.value.regs == proc.m.regs
    ensures r.Ok? ==> r.value.memoryMaps == PopulatedAll(proc.env, proc.m.mem, proc.env.maps(proc.m.mem))
  {
    var controller := new ProcessController(proc);
    var _ :- controller.proc.Attach();
    var registers := proc.GetRegs();
    var _ := controller.DetachAndStop();

    var listed := proc.ReadMaps();
    var maps := new MemoryMap[|listed|](i requires 0 <= i < |listed| => listed[i]);
    PopulateMemory(proc, maps);
    controller.Drop();
    return Ok(ProcessState(maps[..], registers));
  }

  // ----- thawing -----

  /** What a child can be rebuilt from: regions of whole user pages, each with at most its own size
      in bytes, pairwise disjoint, and none over the gadget page. */
  ghost predicate Thawable(maps: seq<MemoryMap>, page: nat) {
    && (forall mm | mm in maps :: WholePages(mm) && |mm.data| <= mm.size && Apart(mm, page, page + PAGE))
    && Disjoint(maps)
  }

  ghost predicate Disjoint(maps: seq<MemoryMap>) {
    forall i, j | 0 <= i < j < |maps| :: Apart(maps[i], maps[j].base, End(maps[j]))
  }

  /** A region of the child is exactly the saved one: its captured bytes, zeros where there are none,
      and its permissions. */
  ghost predicate IsRestored(mem: Memory, mm: MemoryMap) {
    HasProt(mem, mm)
    && forall a | mm.base <= a < End(mm) ::
         mem[a].value == if a - mm.base < |mm.data| then mm.data[a - mm.base] else 0
  }

  /** A region is mapped, and can be read, written and executed as its letters say. */
  ghost predicate HasProt(mem: Memory, mm: MemoryMap) {
    forall a | mm.base <= a < End(mm) ::
      a in mem && mem[a].prot.read == mm.readable && mem[a].prot.write == mm.writable
      && mem[a].prot.exec == mm.executable
  }

  /** What that means for the process: what it can read, write and fetch in the region. */
  lemma RegionUse(mem: Memory, mm: MemoryMap, lo: nat, hi: nat)
    requires HasProt(mem, mm) && mm.base <= lo < hi <= End(mm)
    ensures Readable(mem, lo, hi) <==> mm.readable
    ensures Writable(mem, lo, hi) <==> mm.writable
    ensures lo % 4 == 0 && lo + 4 <= hi ==> (Fetchable(mem, lo) <==> mm.executable)
  {
    assert lo in mem && mem[lo].prot.read == mm.readable;
  }

  /** Outside all the regions, two memories agree. */
  ghost predicate SameElsewhere(m: Memory, m': Memory, maps: seq<MemoryMap>) {
    forall a: nat | (forall mm | mm in maps :: !Inside(a, mm)) :: (a in m <==> a in m') && (a in m ==> m'[a] == m[a])
  }

  lemma SameElsewhereAtFirst(m: Memory, maps: seq<MemoryMap>)
    ensures SameElsewhere(m, m, maps)
  {
  }

  ghost predicate IsHole(mem: Memory, mm: MemoryMap) {
    forall a | mm.base <= a < End(mm) :: a !in mem
  }

  /** When the turn of the i-th region starts, if the first one starts at time t: each turn takes the calls
      it makes. */
  function TurnStart(e: Env, t: nat, maps: seq<MemoryMap>, i: nat): nat
    requires i <= |maps|
  {
    if i == 0 then t
    else
      var s := TurnStart(e, t, maps, i - 1);
      s + TurnCalls(e, s, maps[i - 1])
  }

  /** The kernel refuses the mmap of a turn that starts at time t, which is the turn's second call. */
  predicate Refused(e: Env, t: nat) {
    e.deny(t + 1)
  }

  /** A region after its turn, which started at time t: a hole if its mmap was refused, and else restored. */
  ghost predicate Settled(e: Env, t: nat, mem: Memory, mm: MemoryMap) {
    if Refused(e, t) then IsHole(mem, mm) else IsRestored(mem, mm)
  }

  /** It is never both. */
  lemma RestoredIffGranted(e: Env, t: nat, mem: Memory, mm: MemoryMap)
    requires WholePages(mm) && Settled(e, t, mem, mm)
    ensures IsRestored(mem, mm) <==> !Refused(e, t)
    ensures IsHole(mem, mm) <==> Refused(e, t)
  {
    assert IsRestored(mem, mm) ==> mm.base in mem;
    assert IsHole(mem, mm) ==> mm.base !in mem;
  }

  /** What one turn of the loop makes of a memory. */
  ghost predicate RegionTurn(e: Env, t: nat, mem: Memory, mm: MemoryMap, mem': Memory) {
    mem' == if Refused(e, t) then Unmap(mem, mm.base, End(mm)) else Restored(mem, mm)
  }

  lemma TurnSettles(e: Env, t: nat, mem: Memory, mm: MemoryMap, mem': Memory)
    requires RegionTurn(e, t, mem, mm, mem')
    ensures Settled(e, t, mem', mm) && SameOutside(mem, mem', mm.base, End(mm))
  {
  }

  lemma SettledBeside(e: Env, t: nat, mem: Memory, mem': Memory, mm: MemoryMap, lo: nat, hi: nat)
    requires Settled(e, t, mem, mm) && SameOutside(mem, mem', lo, hi) && Apart(mm, lo, hi)
    ensures Settled(e, t, mem', mm)
  {
  }

  /** The first n regions are settled, each by the answer to its own mmap. */
  ghost predicate AllSettled(e: Env, t: nat, mem: Memory, maps: seq<MemoryMap>, n: nat)
    requires n <= |maps|
  {
    forall k | 0 <= k < n :: Settled(e, TurnStart(e, t, maps, k), mem, maps[k])
  }

  /** The next region's turn keeps the regions before it and everything outside them all. */
  lemma NextTurn(e: Env, t: nat, start: Memory, mem: Memory, mem': Memory, maps: seq<MemoryMap>, i: nat)
    requires i < |maps| && Disjoint(maps) && RegionTurn(e, TurnStart(e, t, maps, i), mem, maps[i], mem')
    requires AllSettled(e, t, mem, maps, i) && SameElsewhere(start, mem, maps)
    ensures AllSettled(e, t, mem', maps, i + 1) && SameElsewhere(start, mem', maps)
  {
    hide Settled, TurnStart, RegionTurn, SameElsewhere, SameOutside, Apart;
    TurnSettles(e, TurnStart(e, t, maps, i), mem, maps[i], mem');
    ElsewhereToo(start, mem, mem', maps, i);
    forall k | 0 <= k < i
      ensures Settled(e, TurnStart(e, t, maps, k), mem', maps[k])
    {
      SettledBeside(e, TurnStart(e, t, maps, k), mem, mem', maps[k], maps[i].base, End(maps[i]));
    }
  }

  lemma ElsewhereToo(start: Memory, mem: Memory, mem': Memory, maps: seq<MemoryMap>, i: nat)
    requires i < |maps| && SameElsewhere(start, mem, maps) && SameOutside(mem, mem', maps[i].base, End(maps[i]))
    ensures SameElsewhere(start, mem', maps)
  {
    assert maps[i] in maps;
    assert forall a: nat | (forall mm | mm in maps :: !Inside(a, mm)) :: !Inside(a, maps[i]);
  }

  /** thaw, from the forked child's first stop on. It succeeds exactly when the gadget page can be had; if
      not, the child is let go. When it succeeds, the child has the saved registers, and each saved region
      has exactly its saved bytes and permissions, unless the kernel refused the mmap of its own turn: then
      it is a hole, which the result does not show. All else the child had is as it was, but for the gadget
      page. */
  method Thaw(state: ProcessState, child: Process) returns (r: Result<()>)
    requires child.stop.UserStop?
    requires GadgetLive(child.env.maps(child.m.mem), child.m.mem) && Covers(child.env.maps(child.m.mem), child.m.mem)
    requires Thawable(state.memoryMaps, GadgetAddress(child.env.maps(child.m.mem)))
    modifies child
    ensures r.Ok? <==> FindSvc(old(child.env.maps(child.m.mem)), old(child.m.mem)).Ok?
                       && GadgetAddress(old(child.env.maps(child.m.mem))) + PAGE <= TASK_SIZE
                       && !child.env.deny(old(child.m.clock))
    ensures r.Ok? ==>
              var page, maps := GadgetAddress(old(child.env.maps(child.m.mem))), state.memoryMaps;
              && child.m.regs == state.regs
              && (forall k | 0 <= k < |maps| ::
                    if Refused(child.env, TurnStart(child.env, old(child.m.clock) + 1, maps, k))
                    then IsHole(child.m.mem, maps[k]) else IsRestored(child.m.mem, maps[k]))
              && GadgetPage(child.m.mem, page)
              && SameElsewhere(old(child.m.mem) + Filled(page, page + PAGE, SvcPattern(PAGE), RWX), child.m.mem, maps)
              && SameIo(old(child.m), child.m)
    ensures child.stop == Running
  {
    hide GadgetPage, GadgetLive, FindSvc, IsRestored, IsHole, SameElsewhere, AllSettled, Refused, TurnStart;
    hide Filled, SvcPattern, WholePages, Restored, GadgetAddress, TurnCalls;
    var controller := new ProcessController(child);
    var svcRegion := controller.MapSvcRegion();
    if svcRegion.Err? {
      controller.Drop();
      return Err(svcRegion.fault);
    }
    var svcRegionAddr := svcRegion.value;
    ghost var e, start, maps, t := child.env, child.m.mem, state.memoryMaps, child.m.clock;
    SameElsewhereAtFirst(start, maps);
    NoneSettled(e, t, start, maps);
    for i := 0 to |state.memoryMaps|
      invariant child.stop.UserStop? && SameIo(old(child.m), child.m)
      invariant GadgetPage(child.m.mem, svcRegionAddr)
      invariant child.m.clock == TurnStart(e, t, maps, i)
      invariant AllSettled(e, t, child.m.mem, maps, i) && SameElsewhere(start, child.m.mem, maps)
    {
      var mm := state.memoryMaps[i];
      ghost var before := child.m;
      // a failure is reported and passed over
      var _ := controller.MapAndFillRegion(svcRegionAddr, mm);
      TurnEnds(e, t, maps, i, before.mem, child.m.mem);
      NextTurn(e, t, start, before.mem, child.m.mem, maps, i);
    }
    SettledOneByOne(e, t, child.m.mem, maps);
    child.SetRegs(state.regs);
    r := controller.Detach();
  }

  lemma NoneSettled(e: Env, t: nat, mem: Memory, maps: seq<MemoryMap>)
    ensures TurnStart(e, t, maps, 0) == t && AllSettled(e, t, mem, maps, 0)
  {
  }

  /** The next turn starts when this one is over. */
  lemma TurnEnds(e: Env, t: nat, maps: seq<MemoryMap>, i: nat, mem: Memory, mem': Memory)
    requires i < |maps|
    ensures var s := TurnStart(e, t, maps, i);
            && TurnStart(e, t, maps, i + 1) == s + TurnCalls(e, s, maps[i])
            && (Refused(e, s) <==> e.deny(s + 1))
  {
  }

  lemma SettledOneByOne(e: Env, t: nat, mem: Memory, maps: seq<MemoryMap>)
    requires AllSettled(e, t, mem, maps, |maps|)
    ensures forall k | 0 <= k < |maps| ::
              if Refused(e, TurnStart(e, t, maps, k)) then IsHole(mem, maps[k]) else IsRestored(mem, maps[k])
  {
    forall k | 0 <= k < |maps|
      ensures if Refused(e, TurnStart(e, t, maps, k)) then IsHole(mem, maps[k]) else IsRestored(mem, maps[k])
    {
      assert Settled(e, TurnStart(e, t, maps, k), mem, maps[k]);
    }
  }

  // ----- why no region may lie over the gadget page -----

  /** After a region's munmap, the next call injected through the gadget page ever gets anywhere if
      and only if the region lies apart from the page. Otherwise the thaw steps for ever. */
  lemma InjectionMovesIffApart(e: Env, m: Machine, mm: MemoryMap, page: Word, sysno: Word, args: seq<Word>)
    requires GadgetPage(m.mem, page) && WholePages(mm) && |args| <= 8 && sysno != SYS_EXECVE
    ensures var unmapped := Call(e, m, SYS_MUNMAP, [mm.base, mm.size], page);
            (exists n: nat :: FirstMove(e, Loaded(unmapped, sysno, args, page), n)) <==> Apart(mm, page, page + PAGE)
  {
    hide Call, SvcAt;
    var unmapped := Call(e, m, SYS_MUNMAP, [mm.base, mm.size], page);
    CallMunmap(e, m, mm.base, mm.size, page);
    if Apart(mm, page, page + PAGE) {
      UnmapFrees(m.mem, mm, page);
      GadgetWorks(unmapped.mem, page);
      var n := InjectedCallMoves(e, unmapped, sysno, args, page);
    } else {
      OverlapCoversPage(mm, page);
      assert page !in unmapped.mem;
      forall n: nat
        ensures !FirstMove(e, Loaded(unmapped, sysno, args, page), n)
      {
        LostCodeHangs(e, Loaded(unmapped, sysno, args, page), n);
      }
    }
  }

  lemma OverlapCoversPage(mm: MemoryMap, page: nat)
    requires WholePages(mm) && page % PAGE == 0 && !Apart(mm, page, page + PAGE)
    ensures mm.base <= page && page + PAGE <= End(mm)
  {
  }

  // ----- the round trip -----

  /** A map list as the kernel gives it: disjoint regions of whole pages without data, together all
      that is mapped, each with its own permissions. */
  ghost predicate Lists(maps: seq<MemoryMap>, mem: Memory) {
    && Covers(maps, mem) && Disjoint(maps)
    && forall mm | mm in maps :: mm.data == [] && HasProt(mem, mm)
  }

  /** The bytes of a region end up in the frozen state. */
  predicate Captured(e: Env, mm: MemoryMap) {
    mm.readable && mm.name != "[vvar]" && forall a | mm.base <= a < End(mm) :: !e.device(a)
  }

  /** A region of the copy is the region of the original: permissions always, bytes where they were
      captured, zeros where not. */
  ghost predicate Copied(e: Env, from: Memory, to: Memory, mm: MemoryMap) {
    forall a | mm.base <= a < End(mm) ::
      && a in from && a in to
      && to[a] == if Captured(e, mm) then from[a] else Cell(0, from[a].prot)
  }

  lemma RestoredIsCopied(e: Env, from: Memory, to: Memory, mm: MemoryMap)
    requires HasProt(from, mm) && mm.data == []
    requires IsRestored(to, Populated(e, from, mm))
    ensures Copied(e, from, to, mm)
  {
    assert Capturable(e, from, mm) <==> forall a | mm.base <= a < End(mm) :: !e.device(a);
    var saved := Populated(e, from, mm);
    assert Captured(e, mm) ==> saved == mm.(data := Load(from, mm.base, mm.size));
    assert !Captured(e, mm) ==> saved == mm;
    hide Populated, Captured, Capturable;
    forall a | mm.base <= a < End(mm)
      ensures a in from && a in to && to[a] == if Captured(e, mm) then from[a] else Cell(0, from[a].prot)
    {
      assert to[a].value == if a - saved.base < |saved.data| then saved.data[a - saved.base] else 0;
    }
  }

  lemma PopulatedIsThawable(e: Env, mem: Memory, listed: seq<MemoryMap>, page: nat)
    requires Lists(listed, mem)
    requires forall mm | mm in listed :: Apart(mm, page, page + PAGE)
    ensures Thawable(PopulatedAll(e, mem, listed), page)
  {
    var maps := PopulatedAll(e, mem, listed);
    forall i | 0 <= i < |maps|
      ensures WholePages(maps[i]) && |maps[i].data| <= maps[i].size && Apart(maps[i], page, page + PAGE)
    {
      assert listed[i] in listed;
    }
    forall i, j | 0 <= i < j < |maps|
      ensures Apart(maps[i], maps[j].base, End(maps[j]))
    {
      assert Apart(listed[i], listed[j].base, End(listed[j]));
    }
  }

  /** The mmap of the k-th region of a process is refused while it is thawed into a child from time t on. */
  predicate RefusedTo(e: Env, t: nat, from: Env, mem: Memory, listed: seq<MemoryMap>, k: nat)
    requires k < |listed|
  {
    Refused(e, TurnStart(e, t, PopulatedAll(from, mem, listed), k))
  }

  /** Freezing a process and thawing it into a child copies the process. It succeeds exactly when the
      process was not traced and the child can have its gadget page. Then the child has the registers of
      the process, and of each region either a copy, its permissions and (where they could be captured) its
      bytes, or a hole if the kernel refused it. When none was refused, all that was mapped is there. */
  method FreezeThenThaw(proc: Process, child: Process) returns (r: Result<()>)
    requires proc != child && child.stop.UserStop?
    requires Lists(proc.env.maps(proc.m.mem), proc.m.mem)
    requires GadgetLive(child.env.maps(child.m.mem), child.m.mem) && Covers(child.env.maps(child.m.mem), child.m.mem)
    requires forall mm | mm in proc.env.maps(proc.m.mem) ::
               var page := GadgetAddress(child.env.maps(child.m.mem)); Apart(mm, page, page + PAGE)
    modifies proc`stop, child
    ensures r.Ok? <==> !IsTraceStop(old(proc.stop))
                       && FindSvc(old(child.env.maps(child.m.mem)), old(child.m.mem)).Ok?
                       && GadgetAddress(old(child.env.maps(child.m.mem))) + PAGE <= TASK_SIZE
                       && !child.env.deny(old(child.m.clock))
    ensures r.Ok? ==>
              var listed, t := proc.env.maps(proc.m.mem), old(child.m.clock) + 1;
              && child.m.regs == proc.m.regs
              && (forall k | 0 <= k < |listed| ::
                    if RefusedTo(child.env, t, proc.env, proc.m.mem, listed, k) then IsHole(child.m.mem, listed[k])
                    else Copied(proc.env, proc.m.mem, child.m.mem, listed[k]))
              && ((forall k | 0 <= k < |listed| :: !RefusedTo(child.env, t, proc.env, proc.m.mem, listed, k)) ==>
                    forall a | a in proc.m.mem :: a in child.m.mem && child.m.mem[a].prot == proc.m.mem[a].prot)
  {
    hide GadgetLive, GadgetAddress, FindSvc, Populated, IsRestored, IsHole, Copied, Covers, Refused, TurnStart;
    hide Disjoint, Thawable, SameElsewhere, Filled, Lists;
    ghost var listed, t := proc.env.maps(proc.m.mem), child.m.clock + 1;
    ghost var page := GadgetAddress(child.env.maps(child.m.mem));
    var state :- Freeze(proc);
    PopulatedIsThawable(proc.env, proc.m.mem, listed, page);
    r := Thaw(state, child);
    if r.Ok? {
      CopiedOneByOne(child.env, t, proc.env, proc.m.mem, child.m.mem, listed);
    }
  }

  /** Once every region is settled, what was granted is copied. */
  lemma CopiedOneByOne(e: Env, t: nat, from: Env, mem: Memory, mem': Memory, listed: seq<MemoryMap>)
    requires Lists(listed, mem)
    requires var maps := PopulatedAll(from, mem, listed);
             forall k | 0 <= k < |maps| ::
               if Refused(e, TurnStart(e, t, maps, k)) then IsHole(mem', maps[k]) else IsRestored(mem', maps[k])
    ensures forall k | 0 <= k < |listed| ::
              if RefusedTo(e, t, from, mem, listed, k) then IsHole(mem', listed[k])
              else Copied(from, mem, mem', listed[k])
    ensures (forall k | 0 <= k < |listed| :: !RefusedTo(e, t, from, mem, listed, k)) ==>
              forall a | a in mem :: a in mem' && mem'[a].prot == mem[a].prot
  {
    hide Refused, TurnStart, IsRestored, Copied, Populated;
    var maps := PopulatedAll(from, mem, listed);
    forall k | 0 <= k < |listed|
      ensures if RefusedTo(e, t, from, mem, listed, k) then IsHole(mem', listed[k])
              else Copied(from, mem, mem', listed[k])
    {
      assert listed[k] in listed;
      PopulatedKeepsRange(from, mem, listed[k]);
      if !Refused(e, TurnStart(e, t, maps, k)) {
        RestoredIsCopied(from, mem, mem', listed[k]);
      }
    }
    if forall k | 0 <= k < |listed| :: !RefusedTo(e, t, from, mem, listed, k) {
      CopiedEverywhere(from, mem, mem', listed);
    }
  }

  lemma PopulatedKeepsRange(e: Env, mem: Memory, mm: MemoryMap)
    ensures Populated(e, mem, mm).base == mm.base && End(Populated(e, mem, mm)) == End(mm)
  {
  }

  lemma CopiedEverywhere(e: Env, from: Memory, to: Memory, listed: seq<MemoryMap>)
    requires Lists(listed, from)
    requires forall mm | mm in listed :: Copied(e, from, to, mm)
    ensures forall a | a in from :: a in to && to[a].prot == from[a].prot
  {
    forall a | a in from
      ensures a in to && to[a].prot == from[a].prot
    {
      var mm :| mm in listed && Inside(a, mm);
    }
  }
}
