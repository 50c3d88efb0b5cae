/** The ColorizeStderr loop of src/proctool/bin/daemon.rs: what a process writes to stderr comes out
    red, by way of a region mapped into the process that its own code does not know of. */
module Colorization {
  import opened Words
  import opened Tracee
  import opened Ptrace
  import opened Injection
  import opened Controller
  import opened Utf8
  import opened Interposition

  const STDERR: Word := 2
  const REGION_SIZE: nat := 65536

  // ----- the injected region -----

  /** Memory as the process knows it: without the injected region. */
  function Outside(mem: Memory, lo: nat): Memory {
    Unmap(mem, lo, lo + REGION_SIZE)
  }

  function RegionOf(mem: Memory, lo: nat): (region: Memory)
    ensures forall a: nat :: a in region <==> a in mem && lo <= a < lo + REGION_SIZE
    ensures forall a | a in region :: region[a] == mem[a]
  {
    map a | a in mem && lo <= a < lo + REGION_SIZE :: mem[a]
  }

  /** The region is there, readable and writable. */
  ghost predicate RegionReady(mem: Memory, lo: nat) {
    lo + REGION_SIZE <= TASK_SIZE && forall a | lo <= a < lo + REGION_SIZE :: a in mem && mem[a].prot == RWX
  }

  function Hide(m: Machine, lo: nat): Machine {
    m.(mem := Outside(m.mem, lo))
  }

  /** Memory that shows the same to the process and has the same region. */
  lemma SameOutsideAndRegion(mem: Memory, part: Memory, lo: nat)
    requires Free(part, lo, lo + REGION_SIZE)
    ensures Outside(part + RegionOf(mem, lo), lo) == part
    ensures RegionReady(mem, lo) ==> RegionReady(part + RegionOf(mem, lo), lo)
  {
  }

  // ----- a process that does not know of the region -----

  /** Whatever the region holds, the process's own code does up to its next call what it does without the
      region, and leaves the region alone. */
  ghost predicate BlindAt(e: Env, lo: nat, hidden: Machine) {
    forall mem | Outside(mem, lo) == hidden.mem :: BlindRun(e, lo, hidden.regs, mem)
  }

  ghost predicate BlindRun(e: Env, lo: nat, regs: Regs, mem: Memory) {
    var c := e.run(regs, Outside(mem, lo));
    Free(c.mem, lo, lo + REGION_SIZE) && e.run(regs, mem) == Context(c.regs, c.mem + RegionOf(mem, lo))
  }

  /** So does the pending call, if it is one that is not spelled out. */
  ghost predicate BlindCallAt(e: Env, lo: nat, hidden: Machine) {
    forall mem | Outside(mem, lo) == hidden.mem ::
      BlindOther(e, lo, hidden.clock, hidden.regs.x, mem, hidden.fds)
  }

  ghost predicate BlindOther(e: Env, lo: nat, t: nat, x: XRegs, mem: Memory, fds: Descriptors) {
    var o := e.other(t, x, Outside(mem, lo), fds);
    Free(o.mem, lo, lo + REGION_SIZE) && e.other(t, x, mem, fds) == o.(mem := o.mem + RegionOf(mem, lo))
  }

  ghost predicate RangeApart(lo: nat, from: nat, to: nat) {
    to <= lo || lo + REGION_SIZE <= from
  }

  /** A pending call that does not name addresses in the region. The string of an openat must be readable
      without it, a mapping must not be placed on it, execve would discard it, and a call that is not spelled
      out must not use it. */
  ghost predicate Polite(e: Env, s: Machine, lo: nat) {
    var x, n := s.regs.x, RoundUp(s.regs.x[1]);
    if x[8] == SYS_MUNMAP || x[8] == SYS_MPROTECT then RangeApart(lo, x[0], x[0] + n)
    else if x[8] == SYS_MMAP && x[3] == ANONYMOUS_PRIVATE then
      var p := Placement(e, s.mem, s.clock, x[0], n); RangeApart(lo, p, p + n)
    else if x[8] == SYS_OPENAT then ReadString(s.mem, x[1]).Some?
    else if x[8] == SYS_WRITE then RangeApart(lo, x[1], x[1] as nat + x[2])
    else if x[8] == SYS_CLOSE then true
    else x[8] != SYS_EXECVE && BlindCallAt(e, lo, s)
  }

  /** After a pending call, the hidden process is what the call makes of the hidden process before. */
  ghost predicate Commutes(s: Machine, after: Machine, hiddenAfter: Machine, lo: nat) {
    Hide(after, lo) == hiddenAfter && (RegionReady(s.mem, lo) ==> RegionReady(after.mem, lo))
  }

  lemma MunmapCommutes(s: Machine, lo: nat)
    requires RangeApart(lo, s.regs.x[0], s.regs.x[0] + RoundUp(s.regs.x[1]))
    ensures Commutes(s, Munmap(s), Munmap(Hide(s, lo)), lo)
  {
    hide RoundUp;
    var from, n := s.regs.x[0], RoundUp(s.regs.x[1]);
    assert Unmap(Outside(s.mem, lo), from, from + n) == Outside(Unmap(s.mem, from, from + n), lo);
  }

  /** Beside the region there is no difference. */
  lemma OutsideAgrees(mem: Memory, lo: nat, from: nat, to: nat)
    requires RangeApart(lo, from, to)
    ensures SameOn(mem, Outside(mem, lo), from, to)
    ensures Free(mem, from, to) <==> Free(Outside(mem, lo), from, to)
    ensures Mapped(mem, from, to) <==> Mapped(Outside(mem, lo), from, to)
    ensures Readable(mem, from, to) <==> Readable(Outside(mem, lo), from, to)
  {
    assert forall a | from <= a < to :: a in mem <==> a in Outside(mem, lo);
  }

  lemma MappableOutside(mem: Memory, lo: nat, from: nat, n: nat)
    requires RangeApart(lo, from, from + n)
    ensures Mappable(mem, from, n) <==> Mappable(Outside(mem, lo), from, n)
  {
    OutsideAgrees(mem, lo, from, from + n);
    hide Free, Outside;
  }

  lemma PlacementOutside(e: Env, mem: Memory, lo: nat, t: nat, hint: Word, n: nat)
    requires var p := Placement(e, Outside(mem, lo), t, hint, n); RangeApart(lo, p, p + n)
    ensures Placement(e, mem, t, hint, n) == Placement(e, Outside(mem, lo), t, hint, n)
  {
    if Mappable(Outside(mem, lo), hint, n) {
      MappableOutside(mem, lo, hint, n);
    }
  }

  lemma MappedBeside(mem: Memory, lo: nat, from: nat, to: nat, prot: Prot)
    requires RangeApart(lo, from, to)
    ensures Outside(mem, lo) + Zeros(from, to, prot) == Outside(mem + Zeros(from, to, prot), lo)
    ensures RegionReady(mem, lo) ==> RegionReady(mem + Zeros(from, to, prot), lo)
  {
  }

  lemma MapAtCommutes(e: Env, s: Machine, lo: nat, p: Word, n: nat)
    requires RangeApart(lo, p, p + n)
    ensures Commutes(s, MapAt(e, s, p, n), MapAt(e, Hide(s, lo), p, n), lo)
  {
    hide ProtOf, Mappable, Zeros, Outside, RegionReady, RangeApart;
    MappableOutside(s.mem, lo, p, n);
    MappedBeside(s.mem, lo, p, p + n, ProtOf(s.regs.x[2]));
  }

  lemma MmapCommutes(e: Env, s: Machine, lo: nat)
    requires var n := RoundUp(s.regs.x[1]);
             var p := Placement(e, Outside(s.mem, lo), s.clock, s.regs.x[0], n); RangeApart(lo, p, p + n)
    ensures Commutes(s, Mmap(e, s), Mmap(e, Hide(s, lo)), lo)
  {
    hide RoundUp, Outside, RegionReady;
    var n := RoundUp(s.regs.x[1]);
    PlacementOutside(e, s.mem, lo, s.clock, s.regs.x[0], n);
    MapAtCommutes(e, s, lo, Placement(e, s.mem, s.clock, s.regs.x[0], n), n);
    hide MapAt, Placement;
  }

  lemma MprotectCommutes(s: Machine, lo: nat)
    requires RangeApart(lo, s.regs.x[0], s.regs.x[0] + RoundUp(s.regs.x[1]))
    ensures Commutes(s, Mprotect(s), Mprotect(Hide(s, lo)), lo)
  {
    hide RoundUp, ProtOf;
    var from, n, prot := s.regs.x[0], RoundUp(s.regs.x[1]), ProtOf(s.regs.x[2]);
    OutsideAgrees(s.mem, lo, from, from + n);
    assert Protect(Outside(s.mem, lo), from, from + n, prot) == Outside(Protect(s.mem, from, from + n, prot), lo);
  }

  lemma {:induction false} ReadStringOutside(mem: Memory, lo: nat, addr: nat)
    requires ReadString(Outside(mem, lo), addr).Some?
    ensures ReadString(mem, addr) == ReadString(Outside(mem, lo), addr)
    decreases TASK_SIZE - addr
  {
    if Outside(mem, lo)[addr].value == 0 {
    } else {
      ReadStringOutside(mem, lo, addr + 1);
    }
  }

  lemma OpenatCommutes(e: Env, s: Machine, lo: nat)
    requires ReadString(Outside(s.mem, lo), s.regs.x[1]).Some?
    ensures Commutes(s, Openat(e, s), Openat(e, Hide(s, lo)), lo)
  {
    ReadStringOutside(s.mem, lo, s.regs.x[1]);
    hide ReadString, LowestFree;
  }

  lemma WriteCommutes(e: Env, s: Machine, lo: nat)
    requires s.regs.x[8] == SYS_WRITE && RangeApart(lo, s.regs.x[1], s.regs.x[1] as nat + s.regs.x[2])
    ensures Commutes(s, Write(e, s), Write(e, Hide(s, lo)), lo)
  {
    var buf: nat, count: nat := s.regs.x[1], s.regs.x[2];
    OutsideAgrees(s.mem, lo, buf, buf + count);
    if Readable(s.mem, buf, buf + count) {
      assert Load(s.mem, buf, count) == Load(Outside(s.mem, lo), buf, count);
    }
  }

  lemma OtherCommutes(e: Env, s: Machine, lo: nat)
    requires BlindOther(e, lo, s.clock, s.regs.x, s.mem, s.fds)
    ensures Commutes(s, Other(e, s), Other(e, Hide(s, lo)), lo)
  {
    var o := e.other(s.clock, s.regs.x, Outside(s.mem, lo), s.fds);
    SameOutsideAndRegion(s.mem, o.mem, lo);
  }

  /** Any polite call acts on the process as if the region were not there, and leaves the region be. */
  lemma PoliteCommutes(e: Env, s: Machine, lo: nat)
    requires Polite(e, Hide(s, lo), lo)
    ensures Commutes(s, Finish(e, s), Finish(e, Hide(s, lo)), lo)
  {
    var x := s.regs.x;
    if x[8] == SYS_MUNMAP {
      MunmapCommutes(s, lo);
    } else if x[8] == SYS_MMAP && x[3] == ANONYMOUS_PRIVATE {
      MmapCommutes(e, s, lo);
    } else if x[8] == SYS_MPROTECT {
      MprotectCommutes(s, lo);
    } else if x[8] == SYS_OPENAT {
      OpenatCommutes(e, s, lo);
    } else if x[8] == SYS_WRITE {
      WriteCommutes(e, s, lo);
    } else if x[8] != SYS_CLOSE {
      assert BlindCallAt(e, lo, Hide(s, lo));
      assert BlindOther(e, lo, s.clock, x, s.mem, s.fds);
      OtherCommutes(e, s, lo);
    }
    hide Munmap, Mmap, Mprotect, Openat, Write, Other, Outside, RegionReady, Polite;
  }

  /** A read, as far as memory goes: it stores into the buffer at x1 what there is to read, if the process
      can write there. */
  ghost predicate ReadsInto(e: Env, x: XRegs, data: seq<Byte>)
    requires |data| < WORD_LIMIT
  {
    forall t, mem, fds ::
      e.other(t, x, mem, fds)
      == if Writable(mem, x[1], x[1] as nat + |data|) then Outcome(|data|, Store(mem, x[1], data), fds, [])
         else Outcome(Negative(EFAULT), mem, fds, [])
  }

  /** Such a call is polite wherever its buffer lies outside the region. */
  lemma ReadIsPolite(e: Env, hidden: Machine, lo: nat, data: seq<Byte>)
    requires |data| < WORD_LIMIT && ReadsInto(e, hidden.regs.x, data) && IsOther(hidden.regs.x)
    requires Free(hidden.mem, lo, lo + REGION_SIZE)
    requires RangeApart(lo, hidden.regs.x[1], hidden.regs.x[1] as nat + |data|)
    ensures Polite(e, hidden, lo)
  {
    var x, t, fds := hidden.regs.x, hidden.clock, hidden.fds;
    var from, to: nat := x[1], x[1] as nat + |data|;
    forall mem | Outside(mem, lo) == hidden.mem
      ensures BlindOther(e, lo, t, x, mem, fds)
    {
      StoreBeside(mem, lo, from, data);
      assert e.other(t, x, mem, fds).mem == mem || e.other(t, x, mem, fds).mem == Store(mem, from, data);
    }
  }

  /** Storing beside the region is storing into what is outside it. */
  lemma StoreBeside(mem: Memory, lo: nat, from: nat, data: seq<Byte>)
    requires RangeApart(lo, from, from + |data|)
    ensures Writable(mem, from, from + |data|) <==> Writable(Outside(mem, lo), from, from + |data|)
    ensures Store(mem, from, data) == Store(Outside(mem, lo), from, data) + RegionOf(mem, lo)
    ensures mem == Outside(mem, lo) + RegionOf(mem, lo)
    ensures Free(Outside(mem, lo), lo, lo + REGION_SIZE)
    ensures Free(Store(Outside(mem, lo), from, data), lo, lo + REGION_SIZE)
  {
    assert forall a | from <= a < from + |data| :: a in mem <==> a in Outside(mem, lo);
  }

  // ----- the loop -----

  /** The longest text whose coloured form fits the region. */
  const MAX_TEXT: nat := REGION_SIZE - 9

  /** The body of the loop, from the syscall-enter-stop to the syscall-exit-stop. */
  function ColorFinish(e: Env, s: Machine, region: Word): Machine {
    var buf, count := s.regs.x[1], s.regs.x[2];
    if WritesTo(s, STDERR) && Colorable(s.mem, region, buf, count) then
      var done := Finish(e, Recolored(s, region, buf, count));
      done.(regs := done.regs.(x := done.regs.x[0 := count][1 := buf][2 := count]))
    else Finish(e, s)
  }

  function ColorTurn(e: Env, m: Machine, region: Word): Machine {
    ColorFinish(e, Enter(e, m), region)
  }

  function ColorRun(e: Env, m: Machine, region: Word, n: nat): Machine {
    if n == 0 then m else ColorTurn(e, ColorRun(e, m, region, n - 1), region)
  }

  /** A pending stderr write of a text that can be coloured, which the kernel takes whole with or
      without the colour. */
  predicate StderrText(e: Env, s: Machine) {
    var buf: nat, count: nat := s.regs.x[1], s.regs.x[2];
    && CanWrite(s.fds, STDERR) && 0 < count <= MAX_TEXT
    && UserReadable(s.mem, buf, buf + count) && ValidUtf8(Load(s.mem, buf, count))
    && e.accept(s.clock, count) >= count && e.accept(s.clock, count + 9) >= count + 9
  }

  /** What a call must be like to come out of the loop right. */
  ghost predicate TurnOk(e: Env, s: Machine, lo: nat) {
    if WritesTo(s, STDERR) then StderrText(e, s) else Polite(e, s, lo)
  }

  /** What the process must be like between two calls: neither its code up to the next call nor the call uses
      the region. */
  ghost predicate GoodTurn(e: Env, hidden: Machine, lo: nat) {
    BlindAt(e, lo, hidden) && TurnOk(e, Enter(e, hidden), lo)
  }

  /** The padded copy stays within the region exactly for texts up to the longest. */
  lemma ColoredFitsIff(text: seq<Byte>)
    ensures |Padded(Colored(text))| <= 65536 <==> |text| <= 65527
  {
  }

  lemma StoreInRegion(mem: Memory, lo: nat, bytes: seq<Byte>, n: nat)
    requires RegionReady(mem, lo) && |bytes| <= REGION_SIZE && n <= |bytes|
    ensures var mem' := Store(mem, lo, bytes);
            && Outside(mem', lo) == Outside(mem, lo) && RegionReady(mem', lo)
            && Readable(mem', lo, lo + n) && Load(mem', lo, n) == bytes[..n]
  {
  }

  lemma TextOutside(mem: Memory, lo: nat, buf: nat, count: nat)
    requires Readable(Outside(mem, lo), buf, buf + count)
    ensures Readable(mem, buf, buf + count)
    ensures Load(mem, buf, count) == Load(Outside(mem, lo), buf, count)
  {
    forall a | buf <= a < buf + count
      ensures a in mem && mem[a] == Outside(mem, lo)[a] && mem[a].prot.read
    {
      assert a in Outside(mem, lo);
    }
  }

  lemma PaddedStartsWith(bytes: seq<Byte>)
    ensures Padded(bytes)[..|bytes|] == bytes
  {
  }

  lemma SetBack(x: XRegs, region: Word, buf: Word, count: Word, ret: Word)
    requires x[1] == buf && x[2] == count
    ensures x[1 := region][2 := ret][0 := ret][0 := count][1 := buf][2 := count] == x[0 := count]
  {
  }

  lemma TextIsColorable(s: Machine, e: Env, lo: Word)
    requires RegionReady(s.mem, lo) && StderrText(e, Hide(s, lo))
    ensures Colorable(s.mem, lo, s.regs.x[1], s.regs.x[2])
    ensures Load(s.mem, s.regs.x[1], s.regs.x[2]) == Load(Outside(s.mem, lo), s.regs.x[1], s.regs.x[2])
  {
    TextOutside(s.mem, lo, s.regs.x[1], s.regs.x[2]);
    ColoredFitsIff(Load(s.mem, s.regs.x[1], s.regs.x[2]));
  }

  /** What the recoloured write puts out and returns. */
  lemma RecoloredOutput(e: Env, s: Machine, lo: Word, text: seq<Byte>)
    requires WritesTo(s, STDERR) && RegionReady(s.mem, lo)
    requires Colorable(s.mem, lo, s.regs.x[1], s.regs.x[2]) && text == Load(s.mem, s.regs.x[1], s.regs.x[2])
    requires CanWrite(s.fds, STDERR) && |text| <= MAX_TEXT && e.accept(s.clock, |text| + 9) >= |text| + 9
    ensures var r := Recolored(s, lo, s.regs.x[1], s.regs.x[2]);
            && PutOut(e, r) == [Output(STDERR, s.fds[STDERR].file, Colored(text), SYS_WRITE)]
            && WriteResult(e, r) == |text| + 9
            && Outside(r.mem, lo) == Outside(s.mem, lo) && RegionReady(r.mem, lo)
  {
    var colored := Colored(text);
    ColoredFitsIff(text);
    PaddedStartsWith(colored);
    StoreInRegion(s.mem, lo, Padded(colored), |colored|);
    hide Outside, RegionReady, Store, Padded, Load, Colored, Colorable;
    assert colored[..|colored|] == colored;
  }

  /** What the plain write puts out and returns. */
  lemma PlainOutput(e: Env, s: Machine)
    requires WritesTo(s, STDERR) && StderrText(e, s)
    ensures PutOut(e, s) == [Output(STDERR, s.fds[STDERR].file, Load(s.mem, s.regs.x[1], s.regs.x[2]), SYS_WRITE)]
    ensures WriteResult(e, s) == s.regs.x[2]
  {
    hide ValidUtf8;
    var text := Load(s.mem, s.regs.x[1], s.regs.x[2]);
    assert text[..|text|] == text;
  }

  lemma ColoredOutput(text: seq<Byte>, file: nat)
    ensures RewriteFrom([Output(STDERR, file, text, SYS_WRITE)], 0, STDERR, Colored)
            == [Output(STDERR, file, Colored(text), SYS_WRITE)]
  {
  }

  /** A coloured write leaves the process where the plain write leaves it: same registers, same
      memory to its eyes; only the text that came out is coloured. */
  lemma ColorWrite(e: Env, s: Machine, lo: Word)
    requires WritesTo(s, STDERR) && RegionReady(s.mem, lo) && StderrText(e, Hide(s, lo))
    ensures var done, hidden := ColorFinish(e, s, lo), Hide(s, lo);
            && Hide(done, lo)
               == Finish(e, hidden).(out := s.out + RewriteFrom(PutOut(e, hidden), 0, STDERR, Colored))
            && RegionReady(done.mem, lo)
  {
    var buf, count, hidden := s.regs.x[1], s.regs.x[2], Hide(s, lo);
    TextIsColorable(s, e, lo);
    var text := Load(s.mem, buf, count);
    RecoloredOutput(e, s, lo, text);
    PlainOutput(e, hidden);
    ColoredOutput(text, s.fds[STDERR].file);
    FinishWrite(e, Recolored(s, lo, buf, count));
    FinishWrite(e, hidden);
    SetBack(s.regs.x, lo, buf, count, count + 9);
    hide Finish, Outside, RegionReady, Store, Padded, Load, Colored, Colorable;
    hide StderrText, RewriteFrom, PutOut, WriteResult;
  }

  lemma EnterHidden(e: Env, m: Machine, lo: nat)
    requires BlindAt(e, lo, Hide(m, lo))
    ensures Hide(Enter(e, m), lo) == Enter(e, Hide(m, lo))
    ensures RegionReady(m.mem, lo) ==> RegionReady(Enter(e, m).mem, lo)
  {
    assert BlindRun(e, lo, m.regs, m.mem);
    SameOutsideAndRegion(m.mem, e.run(m.regs, Outside(m.mem, lo)).mem, lo);
  }

  /** One turn of the loop against one native turn of the hidden process with other past output. */
  lemma ColorTurnSimulates(e: Env, m: Machine, lo: Word, out: seq<Output>)
    requires RegionReady(m.mem, lo) && GoodTurn(e, Hide(m, lo), lo)
    ensures var hidden := Hide(m, lo);
            var more := PutOut(e, Enter(e, hidden));
            && NativeTurn(e, hidden.(out := out)).out == out + more
            && Hide(ColorTurn(e, m, lo), lo)
               == NativeTurn(e, hidden.(out := out)).(out := m.out + RewriteFrom(more, 0, STDERR, Colored))
            && RegionReady(ColorTurn(e, m, lo).mem, lo)
  {
    var hidden, s := Hide(m, lo), Enter(e, m);
    var h := Enter(e, hidden);
    var more := PutOut(e, h);
    EnterHidden(e, m, lo);
    assert h == Hide(s, lo) && h.out == m.out && h.(out := h.out) == h;
    assert Enter(e, hidden.(out := out)) == h.(out := out);
    OutputIsNotSeen(e, h, out);
    OutputIsNotSeen(e, h, h.out);
    if WritesTo(s, STDERR) {
      ColorWrite(e, s, lo);
    } else {
      PoliteCommutes(e, s, lo);
      OthersNotRewritten(e, h, STDERR, Colored);
    }
    hide Finish, Outside, RegionReady, BlindAt, Polite, StderrText, Colorable, Recolored, RewriteFrom, PutOut;
  }

  /** The simulation: hidden, the instrumented process is the native one but for the stderr output
      from position k0 on. */
  ghost predicate Simulated(native: Machine, colored: Machine, lo: nat, k0: nat) {
    && k0 <= |native.out|
    && Hide(colored, lo) == native.(out := RewriteFrom(native.out, k0, STDERR, Colored))
    && RegionReady(colored.mem, lo)
  }

  lemma SimulationStep(e: Env, native: Machine, colored: Machine, lo: Word, k0: nat)
    requires GoodTurn(e, native, lo)
    requires Simulated(native, colored, lo, k0)
    ensures Simulated(NativeTurn(e, native), ColorTurn(e, colored, lo), lo, k0)
  {
    hide NativeTurn, ColorTurn, Enter, PutOut, GoodTurn, RegionReady, Outside, RewriteFrom;
    GoodTurnIgnoresOutput(e, native, colored.out, lo);
    assert Hide(colored, lo) == native.(out := colored.out);
    ColorTurnSimulates(e, colored, lo, native.out);
    assert Hide(colored, lo).(out := native.out) == native;
    RewriteAppend(native.out, k0, STDERR, Colored, PutOut(e, Enter(e, Hide(colored, lo))));
  }

  /** In each of its first n turns, a process left alone does nothing that would not come out of the loop
      right. */
  ghost predicate GoodCalls(e: Env, m: Machine, lo: nat, n: nat) {
    forall k: nat | k < n :: GoodTurn(e, Native(e, m, k), lo)
  }

  /** Whole-run simulation: after any number of well-behaved calls the instrumented process is, to its
      own eyes, the uninstrumented one; only what it wrote to stderr is coloured. */
  lemma {:induction false} ColorSimulates(e: Env, m: Machine, lo: Word, n: nat)
    requires RegionReady(m.mem, lo) && GoodCalls(e, Hide(m, lo), lo, n)
    ensures Simulated(Native(e, Hide(m, lo), n), ColorRun(e, m, lo, n), lo, |m.out|)
  {
    hide NativeTurn, ColorTurn, Enter, GoodTurn, RegionReady, Outside;
    if n == 0 {
      assert RewriteFrom(m.out, |m.out|, STDERR, Colored) == m.out;
    } else {
      ColorSimulates(e, m, lo, n - 1);
      SimulationStep(e, Native(e, Hide(m, lo), n - 1), ColorRun(e, m, lo, n - 1), lo, |m.out|);
    }
  }

  lemma GoodTurnIgnoresOutput(e: Env, m: Machine, out: seq<Output>, lo: nat)
    ensures GoodTurn(e, m.(out := out), lo) <==> GoodTurn(e, m, lo)
  {
    hide RoundUp, ReadString, ValidUtf8, Placement, UserReadable, BlindRun, BlindOther;
    var s := Enter(e, m);
    assert Enter(e, m.(out := out)) == s.(out := out);
    assert BlindAt(e, lo, m.(out := out)) <==> BlindAt(e, lo, m);
    assert BlindCallAt(e, lo, s.(out := out)) <==> BlindCallAt(e, lo, s);
  }

  /** The output of one call against that of the same call left alone: its red form if write put it out on
      descriptor 2, and else the same. */
  predicate IsRedOutput(native: Output, o: Output) {
    if native.fd == 2 && native.call == 64 then IsRed(native.bytes, o.bytes) && o == native.(bytes := o.bytes)
    else o == native
  }

  /** Call by call, from position k0 on. */
  ghost predicate IsRedRun(native: seq<Output>, out: seq<Output>, k0: nat) {
    && |out| == |native| && k0 <= |out| && out[..k0] == native[..k0]
    && forall k | k0 <= k < |out| :: IsRedOutput(native[k], out[k])
  }

  /** The log of descriptor 2 with each text that write put out in its red form, and all else as it is. */
  function RedLog(out: seq<Output>): seq<Byte> {
    if out == [] then []
    else if out[0].fd != 2 then RedLog(out[1..])
    else if out[0].call != 64 then out[0].bytes + RedLog(out[1..])
    else [0x1b, 0x5b, 0x33, 0x31, 0x6d] + out[0].bytes + [0x1b, 0x5b, 0x30, 0x6d] + RedLog(out[1..])
  }

  lemma {:induction false} RewrittenIsRedLog(out: seq<Output>)
    ensures RewrittenLog(out, STDERR, Colored) == RedLog(out)
  {
    if out == [] {
    } else {
      RewrittenIsRedLog(out[1..]);
      ColoredIsRed(out[0].bytes);
    }
  }

  lemma RewrittenIsRed(native: seq<Output>, k0: nat)
    requires k0 <= |native|
    ensures IsRedRun(native, RewriteFrom(native, k0, STDERR, Colored), k0)
  {
    var out := RewriteFrom(native, k0, STDERR, Colored);
    forall k | k0 <= k < |out|
      ensures IsRedOutput(native[k], out[k])
    {
      ColoredIsRed(native[k].bytes);
    }
  }

  /** Texts one after the other, each in its red form. */
  function AllRed(texts: seq<seq<Byte>>): seq<Byte> {
    if texts == [] then []
    else [0x1b, 0x5b, 0x33, 0x31, 0x6d] + texts[0] + [0x1b, 0x5b, 0x30, 0x6d] + AllRed(texts[1..])
  }

  /** All output on the descriptor is put out by write. */
  ghost predicate OnlyWritten(out: seq<Output>, fd: nat) {
    forall o | o in out && o.fd == fd :: o.call == SYS_WRITE
  }

  /** The log has every text in its red form if and only if they all come from write. */
  lemma {:induction false} RedOfLogIff(out: seq<Output>)
    ensures |RedLog(out)| <= |AllRed(FdTexts(out, 2))|
    ensures RedLog(out) == AllRed(FdTexts(out, 2)) <==> OnlyWritten(out, 2)
    ensures |RedLog(out)| == |AllRed(FdTexts(out, 2))| ==> OnlyWritten(out, 2)
  {
    if out == [] {
    } else {
      var o, rest := out[0], out[1..];
      RedOfLogIff(rest);
      assert out == [o] + rest;
      assert OnlyWritten(out, 2) <==> (o.fd == 2 ==> o.call == SYS_WRITE) && OnlyWritten(rest, 2);
      if o.fd == 2 {
        assert ([o.bytes] + FdTexts(rest, 2))[1..] == FdTexts(rest, 2);
        assert |AllRed(FdTexts(out, 2))| == 9 + |o.bytes| + |AllRed(FdTexts(rest, 2))|;
      }
    }
  }

  /** Since the process was m, stderr carries what the uninstrumented process puts out there, with each text
      that write puts out in its red form; every other descriptor carries the same bytes as without
      instrumentation. */
  ghost predicate ColoredLogs(m: Machine, native: Machine, colored: Machine) {
    && |m.out| <= |native.out| && |m.out| <= |colored.out| && IsRedRun(native.out, colored.out, |m.out|)
    && FdLog(Since(m, colored.out), 2) == RedLog(Since(m, native.out))
    && forall fd: nat | fd != 2 :: FdLog(Since(m, colored.out), fd) == FdLog(Since(m, native.out), fd)
  }

  /** The logs of a simulated run. */
  lemma ColorLogs(m: Machine, native: Machine, colored: Machine, lo: nat)
    requires Simulated(native, colored, lo, |m.out|)
    ensures ColoredLogs(m, native, colored)
    ensures var more := Since(m, native.out);
            FdLog(Since(m, colored.out), 2) == AllRed(FdTexts(more, 2)) <==> OnlyWritten(more, 2)
  {
    hide RegionReady, Outside, FdLog, FdTexts, AllRed, RedLog, RewrittenLog, OnlyWritten, IsRedRun;
    assert colored.out == Hide(colored, lo).out;
    RewriteDrop(native.out, |m.out|, STDERR, Colored);
    RewrittenIsRed(native.out, |m.out|);
    RewrittenIsRedLog(Since(m, native.out));
    RedOfLogIff(Since(m, native.out));
    FdLogOfRewrite(Since(m, native.out), STDERR, Colored, STDERR);
    forall fd: nat | fd != 2
      ensures FdLog(Since(m, colored.out), fd) == FdLog(Since(m, native.out), fd)
    {
      FdLogOfRewrite(Since(m, native.out), STDERR, Colored, fd);
    }
  }

  // ----- exactly when a coloured write goes unnoticed -----

  lemma RecoloredKeepsRegisters(e: Env, s: Machine, region: Word)
    requires WritesTo(s, STDERR) && Colorable(s.mem, region, s.regs.x[1], s.regs.x[2])
    ensures ColorFinish(e, s, region).regs == s.regs.(x := s.regs.x[0 := s.regs.x[2]])
  {
    var buf, count := s.regs.x[1], s.regs.x[2];
    var r := Recolored(s, region, buf, count);
    FinishWrite(e, r);
    SetBack(s.regs.x, region, buf, count, WriteResult(e, r));
    hide Finish, Colorable, Colored, Padded, Store, WriteResult;
    assert Finish(e, r).regs.x == s.regs.x[1 := region][2 := count + 9][0 := WriteResult(e, r)];
    assert s.regs.x[1 := region][2 := count + 9][0 := WriteResult(e, r)][0 := count][1 := buf][2 := count]
           == s.regs.x[0 := count];
  }

  /** Whatever really became of the write, the loop reports it as complete. So the process sees its
      registers as they would have been exactly when stderr is open for writing and the plain write would have
      been taken whole. */
  lemma RegistersUnnoticedIff(e: Env, s: Machine, region: Word)
    requires WritesTo(s, STDERR) && Colorable(s.mem, region, s.regs.x[1], s.regs.x[2])
    ensures ColorFinish(e, s, region).regs == Finish(e, s).regs
            <==> CanWrite(s.fds, STDERR) && e.accept(s.clock, s.regs.x[2]) >= s.regs.x[2]
  {
    RecoloredKeepsRegisters(e, s, region);
    FinishWrite(e, s);
    hide Finish, ColorFinish;
    assert s.regs.x[2] <= TASK_SIZE;
    assert Return(s, WriteResult(e, s)).regs.x[0] == WriteResult(e, s);
    assert s.regs.x[0 := s.regs.x[2]][0] == s.regs.x[2];
  }

  /** Only what runs past the region can be seen, and only where it differs from what stood there. */
  lemma OverflowSeenIff(mem: Memory, lo: nat, bytes: seq<Byte>)
    requires Mapped(mem, lo, lo + |bytes|)
    ensures Outside(Store(mem, lo, bytes), lo) == Outside(mem, lo)
            <==> |bytes| <= REGION_SIZE
                 || Load(mem, lo + REGION_SIZE, |bytes| - REGION_SIZE) == bytes[REGION_SIZE..]
  {
    var before, after := Outside(mem, lo), Outside(Store(mem, lo, bytes), lo);
    assert before.Keys == after.Keys;
    if |bytes| > REGION_SIZE {
      var n := |bytes| - REGION_SIZE;
      var past, there := bytes[REGION_SIZE..], Load(mem, lo + REGION_SIZE, n);
      if past == there {
        forall a | a in before
          ensures after[a] == before[a]
        {
          if lo + REGION_SIZE <= a < lo + |bytes| {
            assert past[a - lo - REGION_SIZE] == there[a - lo - REGION_SIZE];
          }
        }
      } else {
        var i :| 0 <= i < n && past[i] != there[i];
        assert after[lo + REGION_SIZE + i] != before[lo + REGION_SIZE + i];
      }
    }
  }

  /** A text too long for the region is poked over what follows it in memory. The process finds its own memory
      as the plain write would have left it exactly when the padded text fits, or what runs past the region
      stood there already. */
  lemma MemoryUnnoticedIff(e: Env, s: Machine, lo: Word)
    requires WritesTo(s, STDERR) && Colorable(s.mem, lo, s.regs.x[1], s.regs.x[2])
    ensures var p := Padded(Colored(Load(s.mem, s.regs.x[1], s.regs.x[2])));
            Outside(ColorFinish(e, s, lo).mem, lo) == Outside(Finish(e, s).mem, lo)
            <==> |p| <= REGION_SIZE || Load(s.mem, lo + REGION_SIZE, |p| - REGION_SIZE) == p[REGION_SIZE..]
  {
    var r := Recolored(s, lo, s.regs.x[1], s.regs.x[2]);
    FinishWrite(e, s);
    FinishWrite(e, r);
    OverflowSeenIff(s.mem, lo, Padded(Colored(Load(s.mem, s.regs.x[1], s.regs.x[2]))));
    hide Finish, Outside, Padded, Colored, Store;
  }

  /** A coloured write leaves the process, to its own eyes, as the plain write does, exactly when both hold. */
  lemma UnnoticedIff(e: Env, s: Machine, lo: Word)
    requires WritesTo(s, STDERR) && Colorable(s.mem, lo, s.regs.x[1], s.regs.x[2])
    ensures var p := Padded(Colored(Load(s.mem, s.regs.x[1], s.regs.x[2])));
            Hide(ColorFinish(e, s, lo), lo).(out := s.out) == Hide(Finish(e, s), lo).(out := s.out)
            <==> && CanWrite(s.fds, STDERR) && e.accept(s.clock, s.regs.x[2]) >= s.regs.x[2]
                 && (|p| <= REGION_SIZE || Load(s.mem, lo + REGION_SIZE, |p| - REGION_SIZE) == p[REGION_SIZE..])
  {
    RegistersUnnoticedIff(e, s, lo);
    MemoryUnnoticedIff(e, s, lo);
    FinishWrite(e, s);
    FinishWrite(e, Recolored(s, lo, s.regs.x[1], s.regs.x[2]));
    hide Finish, Outside, Padded, Colored, Store, Colorable, WriteResult, PutOut;
  }

  /** Whatever the loop reports, stderr gets the whole coloured text exactly when it is open and the kernel
      takes all of it. */
  lemma WholeTextOutIff(e: Env, s: Machine, lo: Word)
    requires WritesTo(s, STDERR) && RegionReady(s.mem, lo)
    requires Colorable(s.mem, lo, s.regs.x[1], s.regs.x[2]) && s.regs.x[2] <= MAX_TEXT
    ensures var count: nat, r := s.regs.x[2], Recolored(s, lo, s.regs.x[1], s.regs.x[2]);
            IsRed(Load(s.mem, s.regs.x[1], s.regs.x[2]), FdLog(PutOut(e, r), 2))
            <==> CanWrite(s.fds, STDERR) && e.accept(s.clock, count + 9) >= count + 9
  {
    var count: nat, r := s.regs.x[2], Recolored(s, lo, s.regs.x[1], s.regs.x[2]);
    var colored := Colored(Load(s.mem, s.regs.x[1], s.regs.x[2]));
    ColoredFitsIff(Load(s.mem, s.regs.x[1], s.regs.x[2]));
    ColoredIsRed(Load(s.mem, s.regs.x[1], s.regs.x[2]));
    PaddedStartsWith(colored);
    StoreInRegion(s.mem, lo, Padded(colored), |colored|);
    hide RegionReady, Outside, Store, Padded, Colored, Colorable, Load;
    if CanWrite(s.fds, STDERR) {
      var taken := Taken(e, s.clock, count + 9);
      assert PutOut(e, r) == [Output(STDERR, s.fds[STDERR].file, colored[..taken], SYS_WRITE)];
      assert colored[..taken] + [] == colored[..taken];
      assert FdLog(PutOut(e, r), STDERR) == colored[..taken] + FdLog([], STDERR);
      assert taken == count + 9 ==> colored[..taken] == colored;
    }
  }

  // ----- the command -----

  /** The mapping of the region. */
  function RegionMapped(e: Env, m: Machine, svc: Word): Machine {
    Serve(e, m, Map(0, REGION_SIZE, PROT_READ + PROT_WRITE + PROT_EXEC), svc)
  }

  /** The process once the region is mapped and its registers are put back. */
  function ColorStart(e: Env, m: Machine, svc: Word): Machine {
    RegionMapped(e, m, svc).(regs := m.regs)
  }

  function ColorRegion(e: Env, m: Machine, svc: Word): Word {
    RegionMapped(e, m, svc).regs.x[0]
  }

  /** The process as it was, but for the count of its calls and any wait it was in. */
  function Untouched(m: Machine): Machine {
    m.(clock := m.clock + 1, waited := 0)
  }

  /** When the mapping is granted, the loop starts from a ready region and a process that, to its own
      eyes, has not changed. */
  lemma StartIsHidden(e: Env, m: Machine, svc: Word)
    requires Grants(e, m.mem, m.clock, 0, REGION_SIZE)
    ensures var start, region := ColorStart(e, m, svc), ColorRegion(e, m, svc);
            && RegionReady(start.mem, region) && Hide(start, region) == Untouched(m) && region == e.place(m.clock)
            && Free(m.mem, region, region + 65536)
            && Readable(start.mem, region, region + 65536) && Writable(start.mem, region, region + 65536)
  {
    hide Call, Outside, RegionReady, Zeros, Mappable, Unmap, Free, Readable, Writable;
    CallMmap(e, m, 0, REGION_SIZE, PROT_READ + PROT_WRITE + PROT_EXEC, svc);
    CallWaited(e, m, SYS_MMAP, MmapArgs(0, REGION_SIZE, PROT_READ + PROT_WRITE + PROT_EXEC), svc);
    assert RoundUp(REGION_SIZE) == REGION_SIZE && ProtOf(PROT_READ + PROT_WRITE + PROT_EXEC) == RWX;
    NotAtZero(m.mem, REGION_SIZE);
    FreshIsHidden(m.mem, e.place(m.clock));
  }

  lemma NotAtZero(mem: Memory, n: nat)
    ensures !Mappable(mem, 0, n)
  {
  }

  lemma FreshIsHidden(mem: Memory, lo: nat)
    requires Mappable(mem, lo, REGION_SIZE)
    ensures RegionReady(mem + Zeros(lo, lo + REGION_SIZE, RWX), lo)
    ensures Outside(mem + Zeros(lo, lo + REGION_SIZE, RWX), lo) == mem
    ensures var mem' := mem + Zeros(lo, lo + REGION_SIZE, RWX);
            Free(mem, lo, lo + 65536) && Readable(mem', lo, lo + 65536) && Writable(mem', lo, lo + 65536)
  {
  }

  /** Every stderr write of a run can be coloured. */
  ghost predicate AllColorable(e: Env, m: Machine, region: Word, n: nat) {
    forall k: nat | k < n :: CanColor(Enter(e, ColorRun(e, m, region, k)), region)
  }

  predicate CanColor(s: Machine, region: Word) {
    WritesTo(s, STDERR) ==> Colorable(s.mem, region, s.regs.x[1], s.regs.x[2])
  }

  /** Good calls of the process left alone are enough for that. */
  lemma GoodCallsCanBeColored(e: Env, m: Machine, lo: Word, n: nat)
    requires RegionReady(m.mem, lo) && GoodCalls(e, Hide(m, lo), lo, n)
    ensures AllColorable(e, m, lo, n)
  {
    hide RegionReady, Native, ColorRun, Enter, GoodTurn, CanColor, Outside;
    forall k: nat | k < n
      ensures CanColor(Enter(e, ColorRun(e, m, lo, k)), lo)
    {
      ColorSimulates(e, m, lo, k);
      GoodCallCanBeColored(e, Native(e, Hide(m, lo), k), ColorRun(e, m, lo, k), lo, |m.out|);
    }
  }

  lemma GoodCallCanBeColored(e: Env, native: Machine, colored: Machine, lo: Word, k0: nat)
    requires Simulated(native, colored, lo, k0) && GoodTurn(e, native, lo)
    ensures CanColor(Enter(e, colored), lo)
  {
    var s := Enter(e, colored);
    GoodTurnIgnoresOutput(e, native, colored.out, lo);
    assert Hide(colored, lo) == native.(out := colored.out);
    hide Enter, BlindAt, RegionReady, Outside, StderrText, Polite, Colorable;
    EnterHidden(e, colored, lo);
    if WritesTo(s, STDERR) {
      TextIsColorable(s, e, lo);
    }
  }

  /** The region is granted, and in n turns the process left alone would not come near it. */
  ghost predicate GoodStart(e: Env, m: Machine, n: nat) {
    && Grants(e, m.mem, m.clock, 0, REGION_SIZE)
    && GoodCalls(e, Untouched(m), e.place(m.clock), n)
  }

  /** The loop from its start on a region that was granted: it can colour all it meets, and in the end the
      process is, to its own eyes, the one left alone. */
  lemma GoodRun(e: Env, m: Machine, svc: Word, n: nat)
    requires GoodStart(e, m, n)
    ensures var start, region, native := ColorStart(e, m, svc), ColorRegion(e, m, svc), Native(e, Untouched(m), n);
            var colored := ColorRun(e, start, region, n);
            && region == e.place(m.clock) && AllColorable(e, start, region, n)
            && Simulated(native, colored, region, |m.out|) && ColoredLogs(m, native, colored)
  {
    hide RegionReady, Native, ColorRun, AllColorable, GoodCalls, Simulated, ColoredLogs, Outside, Grants;
    hide RegionMapped;
    StartIsHidden(e, m, svc);
    var start, region := ColorStart(e, m, svc), ColorRegion(e, m, svc);
    assert start.out == Hide(start, region).out == m.out;
    GoodCallsCanBeColored(e, start, region, n);
    ColorSimulates(e, start, region, n);
    ColorLogs(m, Native(e, Untouched(m), n), ColorRun(e, start, region, n), region);
  }

  /** What is left of a stderr write that could not be coloured. */
  ghost predicate HalfDone(s: Machine, region: Word, m: Machine) {
    WritesTo(s, STDERR) && HalfColored(s, region, s.regs.x[1], s.regs.x[2], m)
  }

  /** The body of the ColorizeStderr loop, from the syscall-enter-stop to the syscall-exit-stop. */
  method ColorBody(controller: ProcessController, region: Word) returns (r: Result<()>)
    requires controller.proc.stop.EnterStop? && controller.proc.life > 0
    modifies controller.proc
    ensures r.Ok? <==> CanColor(old(controller.proc.m), region)
    ensures r.Ok? ==>
              && controller.proc.stop == ExitStop && controller.proc.life == old(controller.proc.life) - 1
              && controller.proc.m == ColorFinish(controller.proc.env, old(controller.proc.m), region)
    ensures r.Err? ==> IsTraceStop(controller.proc.stop) && HalfDone(old(controller.proc.m), region, controller.proc.m)
  {
    hide Finish, Colorable, HalfColored;
    var proc := controller.proc;
    var writing := WritingTo(proc, STDERR);
    match writing {
      case Some(buffer) =>
        var originalRegisters := proc.GetRegs();
        var _ :- controller.ColorizeStderr(region, buffer.0, buffer.1);
        r := proc.ResumeToSyscall();
        var newRegisters := proc.GetRegs();
        var x := newRegisters.x;
        x := x[0 := originalRegisters.x[2]];
        x := x[1 := originalRegisters.x[1]];
        x := x[2 := originalRegisters.x[2]];
        proc.SetRegs(newRegisters.(x := x));
      case None =>
        r := proc.ResumeToSyscall();
    }
  }

  /** The ColorizeStderr command, until the process is gone. It runs to the end exactly when a gadget is
      found and every stderr write can be coloured; otherwise it gives up with one write half coloured and
      the process let go. When the region is granted and the process, left alone, would make good calls
      only, it does run to the end: the process is then, to its own eyes, the one left alone, and only what
      it wrote to stderr is coloured. */
  method ColorizeCommand(proc: Process) returns (r: Result<()>)
    requires GadgetLive(proc.env.maps(proc.m.mem), proc.m.mem)
    modifies proc
    ensures r.Ok? <==>
              var found := FindSvc(proc.env.maps(old(proc.m.mem)), old(proc.m.mem));
              !IsTraceStop(old(proc.stop)) && found.Ok?
              && AllColorable(proc.env, ColorStart(proc.env, old(proc.m), found.value),
                              ColorRegion(proc.env, old(proc.m), found.value), old(proc.life))
    ensures r.Ok? ==>
              var svc := FindSvc(proc.env.maps(old(proc.m.mem)), old(proc.m.mem)).value;
              && proc.life == 0
              && proc.m == ColorRun(proc.env, ColorStart(proc.env, old(proc.m), svc),
                                    ColorRegion(proc.env, old(proc.m), svc), old(proc.life))
    ensures var e, m0, n := proc.env, old(proc.m), old(proc.life);
            !IsTraceStop(old(proc.stop)) && FindSvc(e.maps(m0.mem), m0.mem).Ok? && GoodStart(e, m0, n) ==>
              var native := Native(e, Untouched(m0), n);
              r.Ok? && Simulated(native, proc.m, e.place(m0.clock), |m0.out|) && ColoredLogs(m0, native, proc.m)
    ensures r.Err? && !IsTraceStop(old(proc.stop)) ==>
              var found := FindSvc(proc.env.maps(old(proc.m.mem)), old(proc.m.mem));
              if found.Err? then proc.m == old(proc.m)
              else
                var start, region := ColorStart(proc.env, old(proc.m), found.value),
                                     ColorRegion(proc.env, old(proc.m), found.value);
                exists k: nat :: k < old(proc.life)
                                 && HalfDone(Enter(proc.env, ColorRun(proc.env, start, region, k)), region, proc.m)
    ensures !IsTraceStop(old(proc.stop)) ==> !IsTraceStop(proc.stop)
  {
    hide Enter, ColorFinish, CanColor, FindSvc, SvcAt, Call, HalfDone, GoodStart, Simulated, Native, Serve, ColoredLogs;
    var controller := new ProcessController(proc);
    var _ :- proc.Attach();
    ghost var found := FindSvc(proc.env.maps(proc.m.mem), proc.m.mem);
    var registers := proc.GetRegs();
    var mapped := controller.MapRegion(4096 * 16);
    if mapped.Err? {
      controller.Drop();
      return Err(mapped.fault);
    }
    var region := mapped.value;
    proc.SetRegs(registers);

    ghost var start, n, k := proc.m, proc.life, 0;
    assert start == ColorStart(proc.env, old(proc.m), found.value);
    assert region == ColorRegion(proc.env, old(proc.m), found.value);
    if GoodStart(proc.env, old(proc.m), n) {
      GoodRun(proc.env, old(proc.m), found.value, n);
    }
    hide RegionMapped;
    while true
      invariant IsTraceStop(proc.stop) && !proc.stop.EnterStop?
      invariant controller.proc == proc && controller.detachOnDrop && fresh(controller)
      invariant k + proc.life == n
      invariant proc.m == ColorRun(proc.env, start, region, k)
      invariant forall j: nat | j < k :: CanColor(Enter(proc.env, ColorRun(proc.env, start, region, j)), region)
      decreases proc.life
    {
      var stopped := proc.ResumeToSyscall();
      if stopped.Err? {
        break;
      }
      var turn := ColorBody(controller, region);
      if turn.Err? {
        assert HalfDone(Enter(proc.env, ColorRun(proc.env, start, region, k)), region, proc.m);
        controller.Drop();
        return turn;
      }
      k := k + 1;
    }
    var _ := controller.Detach();
    return Ok(());
  }
}
