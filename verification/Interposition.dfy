/** The system-call interposition loops of src/proctool/bin/daemon.rs: Rot13 rewrites what a process
    writes to stdout, ColorizeStderr what it writes to stderr, and the process cannot tell. */
module Interposition {
  import opened Words
  import opened Tracee
  import opened Ptrace
  import opened Injection
  import opened Controller

  const STDOUT: Word := 1

  // ----- the process left alone -----

  /** One system call of an uninstrumented process, with the code before it. */
  function NativeTurn(e: Env, m: Machine): Machine {
    Finish(e, Enter(e, m))
  }

  /** An uninstrumented process after n system calls. */
  function Native(e: Env, m: Machine, n: nat): Machine {
    if n == 0 then m else NativeTurn(e, Native(e, m, n - 1))
  }

  /** Stopped entering a write to the descriptor. */
  predicate WritesTo(s: Machine, fd: Word) {
    s.regs.x[8] == SYS_WRITE && s.regs.x[0] == fd
  }

  // ----- output -----

  /** write put this out on the descriptor. */
  predicate WrittenOn(o: Output, fd: nat) {
    o.fd == fd && o.call == SYS_WRITE
  }

  /** Output from position k0 on, with what write put out on one descriptor transformed. */
  function RewriteFrom(out: seq<Output>, k0: nat, fd: nat, f: seq<Byte> -> seq<Byte>): (r: seq<Output>)
    ensures |r| == |out|
    ensures forall k | 0 <= k < |out| ::
              r[k] == if k >= k0 && WrittenOn(out[k], fd) then out[k].(bytes := f(out[k].bytes)) else out[k]
  {
    seq<Output>(|out|, k requires 0 <= k < |out| =>
      if k >= k0 && WrittenOn(out[k], fd) then out[k].(bytes := f(out[k].bytes)) else out[k])
  }

  lemma RewriteAppend(out: seq<Output>, k0: nat, fd: nat, f: seq<Byte> -> seq<Byte>, more: seq<Output>)
    requires k0 <= |out|
    ensures RewriteFrom(out + more, k0, fd, f) == RewriteFrom(out, k0, fd, f) + RewriteFrom(more, 0, fd, f)
  {
  }

  lemma RewriteDrop(out: seq<Output>, k0: nat, fd: nat, f: seq<Byte> -> seq<Byte>)
    requires k0 <= |out|
    ensures RewriteFrom(out, k0, fd, f)[k0..] == RewriteFrom(out[k0..], 0, fd, f)
  {
  }

  /** Everything put out on one descriptor, in order. */
  function FdLog(out: seq<Output>, fd: nat): seq<Byte> {
    if out == [] then []
    else if out[0].fd == fd then out[0].bytes + FdLog(out[1..], fd)
    else FdLog(out[1..], fd)
  }

  /** The texts put out on one descriptor, in order. */
  function FdTexts(out: seq<Output>, fd: nat): seq<seq<Byte>> {
    if out == [] then []
    else if out[0].fd == fd then [out[0].bytes] + FdTexts(out[1..], fd)
    else FdTexts(out[1..], fd)
  }

  /** The log of one descriptor with what write put out transformed, and what other calls put out not. */
  function RewrittenLog(out: seq<Output>, fd: nat, f: seq<Byte> -> seq<Byte>): seq<Byte> {
    if out == [] then []
    else if out[0].fd == fd then
      (if WrittenOn(out[0], fd) then f(out[0].bytes) else out[0].bytes) + RewrittenLog(out[1..], fd, f)
    else RewrittenLog(out[1..], fd, f)
  }

  /** A rewritten run logs the transformed texts on its descriptor and the same bytes on every other. */
  lemma {:induction false} FdLogOfRewrite(out: seq<Output>, fd: nat, f: seq<Byte> -> seq<Byte>, g: nat)
    ensures FdLog(RewriteFrom(out, 0, fd, f), g) == if g == fd then RewrittenLog(out, fd, f) else FdLog(out, g)
  {
    if out == [] {
    } else {
      FdLogOfRewrite(out[1..], fd, f, g);
      assert RewriteFrom(out, 0, fd, f)[1..] == RewriteFrom(out[1..], 0, fd, f);
    }
  }

  // ----- when a whole log is transformed -----

  predicate IsLetter(b: Byte) {
    65 <= b <= 90 || 97 <= b <= 122
  }

  lemma NotALetterIff(bytes: seq<Byte>)
    ensures Rot13Bytes(bytes) == bytes <==> forall b | b in bytes :: !IsLetter(b)
  {
    forall b: Byte
      ensures Rot13Byte(b) == b <==> !IsLetter(b)
    {
    }
    hide Rot13Byte, IsLetter;
    if forall b | b in bytes :: !IsLetter(b) {
      assert forall i | 0 <= i < |bytes| :: bytes[i] in bytes;
    } else {
      var b :| b in bytes && IsLetter(b);
      var i :| 0 <= i < |bytes| && bytes[i] == b;
      assert Rot13Bytes(bytes)[i] != bytes[i];
    }
  }

  /** On the descriptor, calls other than write put out no letters. */
  ghost predicate OnlyWriteLetters(out: seq<Output>, fd: nat) {
    forall o | o in out && o.fd == fd && o.call != SYS_WRITE :: forall b | b in o.bytes :: !IsLetter(b)
  }

  /** For rot13 the rewritten log is the rot13 of the whole log if and only if all letters in it come from
      write. */
  lemma {:induction false} Rot13OfLogIff(out: seq<Output>, fd: nat)
    ensures |RewrittenLog(out, fd, Rot13Bytes)| == |FdLog(out, fd)|
    ensures RewrittenLog(out, fd, Rot13Bytes) == Rot13Bytes(FdLog(out, fd)) <==> OnlyWriteLetters(out, fd)
  {
    if out == [] {
    } else {
      var o, rest := out[0], out[1..];
      Rot13OfLogIff(rest, fd);
      NotALetterIff(o.bytes);
      OneMoreOutput(out, fd);
      hide OnlyWriteLetters, IsLetter;
      if o.fd == fd {
        var piece := if WrittenOn(o, fd) then Rot13Bytes(o.bytes) else o.bytes;
        assert Rot13Bytes(o.bytes + FdLog(rest, fd)) == Rot13Bytes(o.bytes) + Rot13Bytes(FdLog(rest, fd));
        SameConcat(piece, RewrittenLog(rest, fd, Rot13Bytes), Rot13Bytes(o.bytes), Rot13Bytes(FdLog(rest, fd)));
      }
    }
  }

  lemma OneMoreOutput(out: seq<Output>, fd: nat)
    requires out != []
    ensures var o := out[0];
            OnlyWriteLetters(out, fd) <==>
              (o.fd == fd && o.call != SYS_WRITE ==> forall b | b in o.bytes :: !IsLetter(b))
              && OnlyWriteLetters(out[1..], fd)
  {
    assert out == [out[0]] + out[1..];
    assert forall o :: o in out <==> o == out[0] || o in out[1..];
  }

  lemma SameConcat(a: seq<Byte>, b: seq<Byte>, c: seq<Byte>, d: seq<Byte>)
    requires |a| == |c|
    ensures a + b == c + d <==> a == c && b == d
  {
    assert (a + b)[..|a|] == a && (a + b)[|a|..] == b;
    assert (c + d)[..|c|] == c && (c + d)[|c|..] == d;
  }

  /** What the pending call will add to the output. */
  function PutOut(e: Env, s: Machine): seq<Output> {
    var fd: nat, buf: nat, count: nat := s.regs.x[0], s.regs.x[1], s.regs.x[2];
    if s.regs.x[8] == SYS_WRITE && CanWrite(s.fds, fd) && Readable(s.mem, buf, buf + count)
    then [Output(fd, s.fds[fd].file, Load(s.mem, buf, count)[..Taken(e, s.clock, count)], SYS_WRITE)]
    else if IsOther(s.regs.x) then PutOutBy(e.other(s.clock, s.regs.x, s.mem, s.fds).out, s.regs.x[8])
    else []
  }

  /** How much of a write of count bytes the kernel takes. */
  function Taken(e: Env, t: nat, count: nat): nat {
    if e.accept(t, count) < count then e.accept(t, count) else count
  }

  /** What the pending write will return. */
  function WriteResult(e: Env, s: Machine): Word {
    var fd: nat, buf: nat, count: nat := s.regs.x[0], s.regs.x[1], s.regs.x[2];
    if !CanWrite(s.fds, fd) then Negative(EBADF)
    else if !Readable(s.mem, buf, buf + count) then Negative(EFAULT)
    else Taken(e, s.clock, count)
  }

  lemma FinishWrite(e: Env, s: Machine)
    requires s.regs.x[8] == SYS_WRITE
    ensures Finish(e, s) == Return(s, WriteResult(e, s)).(out := s.out + PutOut(e, s), clock := s.clock + 1)
  {
    assert s.out + [] == s.out;
  }

  lemma MunmapIgnoresOutput(s: Machine, out: seq<Output>)
    ensures Munmap(s.(out := out)) == Munmap(s).(out := out)
  {
    hide Unmap, RoundUp;
  }

  lemma MmapIgnoresOutput(e: Env, s: Machine, out: seq<Output>)
    ensures Mmap(e, s.(out := out)) == Mmap(e, s).(out := out)
  {
    hide Zeros, Mappable, ProtOf, RoundUp;
  }

  lemma MprotectIgnoresOutput(s: Machine, out: seq<Output>)
    ensures Mprotect(s.(out := out)) == Mprotect(s).(out := out)
  {
    hide Protect, Mapped, ProtOf, RoundUp;
  }

  lemma OtherCallsIgnoreOutput(e: Env, s: Machine, out: seq<Output>)
    ensures Close(s.(out := out)) == Close(s).(out := out)
    ensures Openat(e, s.(out := out)) == Openat(e, s).(out := out)
    ensures Execve(e, s.(out := out)) == Execve(e, s).(out := out)
    ensures Other(e, s.(out := out))
            == Other(e, s).(out := out + PutOutBy(e.other(s.clock, s.regs.x, s.mem, s.fds).out, s.regs.x[8]))
  {
    hide ReadString, ReadVector, LowestFree;
  }

  /** A process cannot see its past output: two processes that differ in nothing else stay so. */
  lemma OutputIsNotSeen(e: Env, s: Machine, out: seq<Output>)
    ensures Finish(e, s.(out := out)) == Finish(e, s).(out := out + PutOut(e, s))
  {
    if s.regs.x[8] == SYS_WRITE {
      FinishWrite(e, s);
      FinishWrite(e, s.(out := out));
    } else {
      MunmapIgnoresOutput(s, out);
      MmapIgnoresOutput(e, s, out);
      MprotectIgnoresOutput(s, out);
      OtherCallsIgnoreOutput(e, s, out);
      hide Munmap, Mmap, Mprotect, Close, Openat, Execve, Other, Write;
      assert out + [] == out;
    }
  }

  /** Only a write to the descriptor is ever rewritten. */
  lemma OthersNotRewritten(e: Env, s: Machine, fd: Word, f: seq<Byte> -> seq<Byte>)
    requires !WritesTo(s, fd)
    ensures RewriteFrom(PutOut(e, s), 0, fd, f) == PutOut(e, s)
  {
    hide Taken;
  }

  // ----- Rot13 -----

  /** One turn of the Rot13 loop. */
  function Rot13Turn(e: Env, m: Machine): Machine {
    var s := Enter(e, m);
    if WritesTo(s, STDOUT) then
      var done := Finish(e, s.(mem := Rot13Mem(s.mem, s.regs.x[1], s.regs.x[2])));
      done.(mem := Rot13Mem(done.mem, s.regs.x[1], s.regs.x[2]))
    else Finish(e, s)
  }

  function Rot13Run(e: Env, m: Machine, n: nat): Machine {
    if n == 0 then m else Rot13Turn(e, Rot13Run(e, m, n - 1))
  }

  /** A rotated write does what the plain one does, but for the bytes it outputs; rotating the
      buffer back afterwards leaves no trace. */
  lemma Rot13Write(e: Env, s: Machine)
    requires WritesTo(s, STDOUT)
    ensures var buf, count := s.regs.x[1], s.regs.x[2];
            var done := Finish(e, s.(mem := Rot13Mem(s.mem, buf, count)));
            done.(mem := Rot13Mem(done.mem, buf, count))
            == Finish(e, s).(out := s.out + RewriteFrom(PutOut(e, s), 0, STDOUT, Rot13Bytes))
  {
    var buf: nat, count: nat := s.regs.x[1], s.regs.x[2];
    hide Finish;
    var rotated := Rot13Mem(s.mem, buf, count);
    Rot13MemTwice(s.mem, buf, count);
    assert rotated.Keys == s.mem.Keys;
    assert Readable(rotated, buf, buf + count) <==> Readable(s.mem, buf, buf + count);
    FinishWrite(e, s);
    FinishWrite(e, s.(mem := rotated));
    if Readable(s.mem, buf, buf + count) {
      var text, taken := Load(s.mem, buf, count), Taken(e, s.clock, count);
      assert Load(rotated, buf, count)[..taken] == Rot13Bytes(text[..taken]);
    }
  }

  /** One turn of the loop against one native turn of the same process with other past output. */
  lemma Rot13TurnSimulates(e: Env, m: Machine, out: seq<Output>)
    ensures var more := PutOut(e, Enter(e, m));
            && NativeTurn(e, m).out == m.out + more
            && Rot13Turn(e, m.(out := out))
               == NativeTurn(e, m).(out := out + RewriteFrom(more, 0, STDOUT, Rot13Bytes))
  {
    hide Finish;
    var s := Enter(e, m);
    var more := PutOut(e, s);
    OutputIsNotSeen(e, s, s.out);
    OutputIsNotSeen(e, s, out);
    assert s.(out := s.out) == s;
    assert Enter(e, m.(out := out)) == s.(out := out);
    if WritesTo(s, STDOUT) {
      Rot13Write(e, s.(out := out));
    } else {
      OthersNotRewritten(e, s, STDOUT, Rot13Bytes);
    }
  }

  /** Whole-run simulation: after any number of calls the instrumented process is the uninstrumented
      one in registers, memory and descriptors; only what it wrote to stdout is rotated. */
  lemma {:induction false} Rot13Simulates(e: Env, m: Machine, n: nat)
    ensures var native := Native(e, m, n);
            && |m.out| <= |native.out|
            && Rot13Run(e, m, n) == native.(out := RewriteFrom(native.out, |m.out|, STDOUT, Rot13Bytes))
  {
    if n == 0 {
      assert RewriteFrom(m.out, |m.out|, STDOUT, Rot13Bytes) == m.out;
    } else {
      Rot13Simulates(e, m, n - 1);
      hide NativeTurn, Rot13Turn, Enter, PutOut, RewriteFrom;
      var native := Native(e, m, n - 1);
      var out := RewriteFrom(native.out, |m.out|, STDOUT, Rot13Bytes);
      Rot13TurnSimulates(e, native, out);
      RewriteAppend(native.out, |m.out|, STDOUT, Rot13Bytes, PutOut(e, Enter(e, native)));
    }
  }

  /** What a run has put out since the process was m. */
  function Since(m: Machine, out: seq<Output>): seq<Output>
    requires |m.out| <= |out|
  {
    out[|m.out|..]
  }

  /** The output of one call against that of the same call left alone: byte by byte the rot13 of it if write
      put it out on descriptor 1, and else the same. */
  ghost predicate IsRot13Output(native: Output, o: Output) {
    && o.fd == native.fd && o.file == native.file && o.call == native.call && |o.bytes| == |native.bytes|
    && if native.fd == 1 && native.call == 64
       then forall i | 0 <= i < |o.bytes| :: IsRot13(native.bytes[i], o.bytes[i]) else o == native
  }

  /** Call by call, from position k0 on. */
  ghost predicate IsRot13Run(native: seq<Output>, out: seq<Output>, k0: nat) {
    && |out| == |native| && k0 <= |out| && out[..k0] == native[..k0]
    && forall k | k0 <= k < |out| :: IsRot13Output(native[k], out[k])
  }

  lemma RewrittenIsRot13(native: seq<Output>, k0: nat)
    requires k0 <= |native|
    ensures IsRot13Run(native, RewriteFrom(native, k0, STDOUT, Rot13Bytes), k0)
  {
    var out := RewriteFrom(native, k0, STDOUT, Rot13Bytes);
    forall k | k0 <= k < |out|
      ensures IsRot13Output(native[k], out[k])
    {
      BytesAreRot13(native[k].bytes);
      hide IsRot13;
    }
  }

  lemma BytesAreRot13(bytes: seq<Byte>)
    ensures forall i | 0 <= i < |bytes| :: IsRot13(bytes[i], Rot13Bytes(bytes)[i])
  {
    hide IsRot13, Rot13Byte;
    forall i | 0 <= i < |bytes|
      ensures IsRot13(bytes[i], Rot13Bytes(bytes)[i])
    {
      Rot13ByteIs(bytes[i], Rot13Byte(bytes[i]));
    }
  }

  /** Two logs of the same length, letter for letter thirteen apart. */
  ghost predicate IsRot13Log(native: seq<Byte>, log: seq<Byte>) {
    |log| == |native| && forall i | 0 <= i < |log| :: IsRot13(native[i], log[i])
  }

  lemma Rot13LogIs(native: seq<Byte>, log: seq<Byte>)
    ensures IsRot13Log(native, log) <==> log == Rot13Bytes(native)
  {
    hide IsRot13, Rot13Byte;
    forall i | 0 <= i < |log| && i < |native|
      ensures IsRot13(native[i], log[i]) <==> log[i] == Rot13Byte(native[i])
    {
      Rot13ByteIs(native[i], log[i]);
    }
  }

  /** Since it was attached to, stdout carries what the uninstrumented process puts out there, with all that
      write puts out rotated; every other descriptor carries the same bytes as without instrumentation. So the
      stdout log is the rot13 of the uninstrumented one if and only if all letters in that come from write. */
  lemma Rot13Logs(e: Env, m: Machine, n: nat, fd: nat)
    ensures |m.out| <= |Native(e, m, n).out| && |m.out| <= |Rot13Run(e, m, n).out|
    ensures IsRot13Run(Native(e, m, n).out, Rot13Run(e, m, n).out, |m.out|)
    ensures var native, log := Since(m, Native(e, m, n).out), FdLog(Since(m, Rot13Run(e, m, n).out), fd);
            && (fd != 1 ==> log == FdLog(native, fd))
            && (fd == 1 ==> log == RewrittenLog(native, STDOUT, Rot13Bytes))
            && (fd == 1 ==> (IsRot13Log(FdLog(native, 1), log) <==> OnlyWriteLetters(native, 1)))
  {
    Rot13Simulates(e, m, n);
    RewrittenIsRot13(Native(e, m, n).out, |m.out|);
    hide OnlyWriteLetters, Native, Rot13Run, IsRot13Log, IsRot13Run;
    var more := Since(m, Native(e, m, n).out);
    RewriteDrop(Native(e, m, n).out, |m.out|, STDOUT, Rot13Bytes);
    FdLogOfRewrite(more, STDOUT, Rot13Bytes, fd);
    Rot13OfLogIff(more, STDOUT);
    Rot13LogIs(FdLog(more, STDOUT), FdLog(Since(m, Rot13Run(e, m, n).out), STDOUT));
  }

  /** The words of a stdout write can all be read and written. */
  predicate Rotatable(s: Machine) {
    WritesTo(s, STDOUT) ==> WordsMapped(s.mem, s.regs.x[1], s.regs.x[2])
  }

  /** Every stdout write within n calls can be rotated. Whether it can is up to the process alone. */
  ghost predicate AllRotatable(e: Env, m: Machine, n: nat) {
    forall k: nat | k < n :: Rotatable(Enter(e, Native(e, m, k)))
  }

  lemma RotatableAsNative(e: Env, m: Machine, k: nat)
    ensures Rotatable(Enter(e, Rot13Run(e, m, k))) <==> Rotatable(Enter(e, Native(e, m, k)))
  {
    Rot13Simulates(e, m, k);
    hide WordsMapped, Rot13Run, Native;
  }

  lemma WriteKeepsWords(e: Env, s: Machine, buf: Word, count: Word)
    requires s.regs.x[8] == SYS_WRITE
    ensures var done := Finish(e, s.(mem := Rot13Mem(s.mem, buf, count)));
            WordsMapped(done.mem, buf, count) <==> WordsMapped(s.mem, buf, count)
  {
    FinishWrite(e, s.(mem := Rot13Mem(s.mem, buf, count)));
    hide Finish;
    assert Rot13Mem(s.mem, buf, count).Keys == s.mem.Keys;
  }

  /** Whether the process is entering a write to the descriptor, and of which buffer. */
  method WritingTo(proc: Process, fd: Word) returns (w: Option<(Word, Word)>)
    requires IsTraceStop(proc.stop)
    ensures w == if WritesTo(proc.m, fd) then Some((proc.m.regs.x[1], proc.m.regs.x[2])) else None
  {
    var registers := proc.GetRegs();
    if registers.x[8] == SYS_WRITE && registers.x[0] == fd {
      return Some((registers.x[1], registers.x[2]));
    }
    return None;
  }

  /** What is left of a stdout write that could not be rotated: the bytes before the first unmapped word
      are rotated, and nothing else has changed. */
  ghost predicate HalfRotated(s: Machine, m: Machine) {
    WritesTo(s, STDOUT)
    && exists k: nat | k < s.regs.x[2] ::
         !UserMapped(s.mem, s.regs.x[1] + k, s.regs.x[1] + k + 8) && m == s.(mem := Rot13Mem(s.mem, s.regs.x[1], k))
  }

  /** The body of the Rot13 loop, from the syscall-enter-stop to the syscall-exit-stop. */
  method Rot13Body(controller: ProcessController) returns (r: Result<()>)
    requires controller.proc.stop.EnterStop? && controller.proc.life > 0
    modifies controller.proc
    ensures r.Ok? <==> Rotatable(old(controller.proc.m))
    ensures r.Ok? ==>
              var s := old(controller.proc.m);
              && controller.proc.stop == ExitStop && controller.proc.life == old(controller.proc.life) - 1
              && controller.proc.m ==
                 if WritesTo(s, STDOUT) then
                   var done := Finish(controller.proc.env, s.(mem := Rot13Mem(s.mem, s.regs.x[1], s.regs.x[2])));
                   done.(mem := Rot13Mem(done.mem, s.regs.x[1], s.regs.x[2]))
                 else Finish(controller.proc.env, s)
    ensures r.Err? ==> IsTraceStop(controller.proc.stop) && HalfRotated(old(controller.proc.m), controller.proc.m)
  {
    hide Finish, Rot13Mem, WordsMapped;
    ghost var s := controller.proc.m;
    var writing := WritingTo(controller.proc, STDOUT);
    match writing {
      case Some(buffer) =>
        WriteKeepsWords(controller.proc.env, s, buffer.0, buffer.1);
        var _ :- controller.Rot13(buffer.0, buffer.1);
        var _ := controller.proc.ResumeToSyscall();
        r := controller.Rot13(buffer.0, buffer.1);
      case None =>
        r := controller.proc.ResumeToSyscall();
    }
  }

  /** The Rot13 command, until the process is gone. It runs to the end exactly when every stdout write
      of the process can be rotated, and then the whole run is the simulated one. */
  method Rot13Command(proc: Process) returns (r: Result<()>)
    modifies proc
    ensures r.Ok? <==> !IsTraceStop(old(proc.stop)) && AllRotatable(proc.env, old(proc.m), old(proc.life))
    ensures r.Ok? ==> proc.m == Rot13Run(proc.env, old(proc.m), old(proc.life)) && proc.life == 0
    ensures r.Ok? ==>
              var native := Native(proc.env, old(proc.m), old(proc.life));
              proc.m == native.(out := proc.m.out) && IsRot13Run(native.out, proc.m.out, |old(proc.m.out)|)
    ensures r.Err? && !IsTraceStop(old(proc.stop)) ==>
              exists k: nat :: k < old(proc.life)
                               && HalfRotated(Enter(proc.env, Rot13Run(proc.env, old(proc.m), k)), proc.m)
    ensures !IsTraceStop(old(proc.stop)) ==> !IsTraceStop(proc.stop)
  {
    hide Enter, Rot13Turn, Rotatable, HalfRotated, IsRot13Run, Native, Rot13Run, Finish, Rot13Mem;
    NoTurns(proc.env, proc.m);
    Rot13Simulates(proc.env, proc.m, proc.life);
    RewrittenIsRot13(Native(proc.env, proc.m, proc.life).out, |proc.m.out|);
    var controller := new ProcessController(proc);
    var _ :- proc.Attach();
    ghost var m0, n, k := proc.m, proc.life, 0;
    while true
      invariant IsTraceStop(proc.stop) && !proc.stop.EnterStop?
      invariant controller.proc == proc && controller.detachOnDrop && fresh(controller)
      invariant k + proc.life == n
      invariant proc.m == Rot13Run(proc.env, m0, k)
      invariant forall j: nat | j < k :: Rotatable(Enter(proc.env, Native(proc.env, m0, j)))
      decreases proc.life
    {
      var stopped := proc.ResumeToSyscall();
      if stopped.Err? {
        break;
      }
      RotatableAsNative(proc.env, m0, k);
      var turn := Rot13Body(controller);
      if turn.Err? {
        controller.Drop();
        return turn;
      }
      k := k + 1;
      Rot13TurnUnfolds(proc.env, m0, k - 1);
    }
    var _ := controller.Detach();
    return Ok(());
  }

  lemma NoTurns(e: Env, m: Machine)
    ensures Rot13Run(e, m, 0) == m
  {
  }

  lemma Rot13TurnUnfolds(e: Env, m: Machine, k: nat)
    ensures var s := Enter(e, Rot13Run(e, m, k));
            Rot13Run(e, m, k + 1) ==
            if WritesTo(s, STDOUT) then
              var done := Finish(e, s.(mem := Rot13Mem(s.mem, s.regs.x[1], s.regs.x[2])));
              done.(mem := Rot13Mem(done.mem, s.regs.x[1], s.regs.x[2]))
            else Finish(e, s)
  {
  }
}
