/** The Redirect, Rewind and Takeover commands (src/proctool/bin/daemon.rs, src/proctool/pcontroller.rs). */
module Daemon {
  import opened Words
  import opened ProcMaps
  import opened Tracee
  import opened Ptrace
  import opened Injection
  import opened Controller
  import opened Rewinding

  // ----- Rewind -----

  /** Injects the arguments one by one. */
  method InjectArguments(controller: ProcessController, args: seq<seq<Byte>>) returns (r: Result<seq<Word>>)
    requires controller.Ready() && forall i | 0 <= i < |args| :: |args[i]| < WORD_LIMIT
    modifies controller.proc`m, controller`memoryMaps
    ensures controller.Ready() && SameIo(old(controller.proc.m), controller.proc.m)
    ensures Extends(old(controller.proc.m.mem), controller.proc.m.mem)
    ensures FindSvc(controller.Maps(), controller.proc.m.mem)
            == FindSvc(old(controller.Maps()), old(controller.proc.m.mem))
    ensures var e, m0 := controller.proc.env, old(controller.proc.m);
            && (r.Ok? <==> args == [] || (FindSvc(old(controller.Maps()), m0.mem).Ok?
                                          && BlocksGranted(e, m0.mem, m0.clock, args)))
            && (r.Ok? ==> r.value == Places(e, m0.clock, |args|)
                          && controller.proc.m.clock == m0.clock + |args|
                          && controller.proc.m.mem == AfterBlocks(e, m0.mem, m0.clock, args))
            && (args != [] ==> GaveUp(FindSvc(old(controller.Maps()), m0.mem), m0, controller.proc.m))
            && (args == [] ==> controller.proc.m == m0)
  {
    hide FindSvc, GadgetLive, Mappable, Injected, Grants, BlocksGranted, AfterBlocks, RoundUp, LeftOnMmap, Serve;
    var addrs: seq<Word> := [];
    ghost var e, m0, maps := controller.proc.env, controller.proc.m, controller.Maps();
    NoBlocks(e, m0.mem, m0.clock);
    assert args[..0] == [];
    for i := 0 to |args|
      invariant controller.Ready() && SameIo(m0, controller.proc.m) && Extends(m0.mem, controller.proc.m.mem)
      invariant controller.Maps() == maps && FindSvc(maps, controller.proc.m.mem) == FindSvc(maps, m0.mem)
      invariant i > 0 ==> FindSvc(maps, m0.mem).Ok? && GaveUp(FindSvc(maps, m0.mem), m0, controller.proc.m)
      invariant i == 0 ==> controller.proc.m == m0
      invariant addrs == Places(e, m0.clock, i) && controller.proc.m.clock == m0.clock + i
      invariant BlocksGranted(e, m0.mem, m0.clock, args[..i])
      invariant controller.proc.m.mem == AfterBlocks(e, m0.mem, m0.clock, args[..i])
    {
      ghost var before := controller.proc.m.mem;
      OneMoreBlock(e, m0.mem, m0.clock, args[..i], args[i]);
      assert args[..i] + [args[i]] == args[..i + 1];
      var addr := controller.InjectBytes(args[i]);
      if addr.Err? {
        if BlocksGranted(e, m0.mem, m0.clock, args) {
          EarlierGranted(e, m0.mem, m0.clock, args, i + 1);
        }
        return Err(addr.fault);
      }
      InjectedExtends(before, addr.value, args[i]);
      addrs := addrs + [addr.value];
    }
    assert args[..|args|] == args;
    return Ok(addrs);
  }

  /** The program at the path does not start at the gadget that the execve is made through. */
  predicate EntryElsewhere(e: Env, path: seq<Byte>, found: Result<Word>) {
    found.Ok? && e.loads(path).Some? ==> e.loads(path).value.regs.pc != found.value
  }

  /** A process that an execve of the path can be injected into. */
  ghost predicate CanExecute(e: Env, m: Machine, path: seq<Byte>) {
    GadgetLive(e.maps(m.mem), m.mem) && EntryElsewhere(e, path, FindSvc(e.maps(m.mem), m.mem))
  }

  /** The program that the arguments name. */
  function Program(args: seq<seq<Byte>>): seq<Byte> {
    if args == [] then [] else Content(args[0])
  }

  lemma ExecveMoves(e: Env, m: Machine, path: Word, argv: Word, envp: Word, pc: Word, p: seq<Byte>)
    requires ReadString(m.mem, path) == Some(p) && EntryElsewhere(e, p, Ok(pc))
    ensures Call(e, m, SYS_EXECVE, [path, argv, envp], pc).regs.pc != pc
  {
    CallExecve(e, m, path, argv, envp, pc);
    hide Call, ReadString, ReadVector;
  }

  /** Injects the arguments, the array of their addresses, and an empty environment. */
  method InjectCommand(controller: ProcessController, args: seq<seq<Byte>>) returns (r: Result<(Word, Word, Word)>)
    requires controller.Ready() && 8 * |args| < WORD_LIMIT
    requires forall i | 0 <= i < |args| :: |args[i]| < WORD_LIMIT
    modifies controller.proc`m, controller`memoryMaps
    ensures controller.Ready() && SameIo(old(controller.proc.m), controller.proc.m)
    ensures Extends(old(controller.proc.m.mem), controller.proc.m.mem)
    ensures FindSvc(controller.Maps(), controller.proc.m.mem)
            == FindSvc(old(controller.Maps()), old(controller.proc.m.mem))
    ensures var e, m0 := controller.proc.env, old(controller.proc.m);
            && (r.Ok? <==> FindSvc(old(controller.Maps()), m0.mem).Ok?
                           && BlocksGranted(e, m0.mem, m0.clock, CommandBlocks(e, m0.clock, args)))
            && (r.Ok? ==>
                  && args != [] && controller.proc.m.mem == CommandMemory(e, m0, args)
                  && r.value == (e.place(m0.clock), e.place(m0.clock + |args|), e.place(m0.clock + |args| + 1)))
            && GaveUp(FindSvc(old(controller.Maps()), m0.mem), m0, controller.proc.m)
  {
    hide LeftOnMmap, Serve;
    hide FindSvc, GadgetLive, Injected, LeBytes, Grants, Mappable, AfterBlocks, BlocksGranted, RoundUp;
    ghost var e, m0 := controller.proc.env, controller.proc.m;
    ghost var t, n, vector := m0.clock, |args|, LeBytes(Places(controller.proc.env, m0.clock, |args|));
    OneMoreBlock(e, m0.mem, t, args, vector);
    OneMoreBlock(e, m0.mem, t, args + [vector], [0]);
    OnePage();
    NothingIsNotGranted(e, AfterBlocks(e, m0.mem, t, args), t + n);
    var addrs :- InjectArguments(controller, args);
    ghost var m1 := controller.proc.m.mem;
    var argvAddr :- controller.InjectU64s(addrs);
    ghost var m2 := controller.proc.m.mem;
    InjectedExtends(m1, argvAddr, vector);
    var envpAddr :- controller.InjectBytes([0]);
    InjectedExtends(m2, envpAddr, [0]);
    return Ok((addrs[0], argvAddr, envpAddr));
  }

  /** Rewind, once the process is stopped outside a call. It succeeds exactly when a gadget is found and
      the kernel grants all that is injected. */
  method RewindStopped(controller: ProcessController, cmdline: seq<Byte>) returns (r: Result<()>)
    requires controller.Ready() && 8 * |cmdline| < WORD_LIMIT
    requires EntryElsewhere(controller.proc.env, Program(SplitArguments(cmdline)),
                            FindSvc(controller.Maps(), controller.proc.m.mem))
    modifies controller.proc`m, controller`memoryMaps
    ensures var e, m0, args := controller.proc.env, old(controller.proc.m), SplitArguments(cmdline);
            && (r.Ok? <==> FindSvc(old(controller.Maps()), m0.mem).Ok?
                           && BlocksGranted(e, m0.mem, m0.clock, CommandBlocks(e, m0.clock, args)))
            && (r.Ok? ==> args != [] && Rewound(e, m0, args, controller.proc.m))
            && (r.Ok? && |args| % 512 != 0 ==>
                  Executed(e, m0, CommandMemory(e, m0, args),
                           Content(args[0]), Contents(args), [], controller.proc.m))
    ensures r.Err? ==> SameIo(old(controller.proc.m), controller.proc.m)
                       && Extends(old(controller.proc.m.mem), controller.proc.m.mem)
                       && GaveUp(FindSvc(old(controller.Maps()), old(controller.proc.m.mem)),
                                 old(controller.proc.m), controller.proc.m)
  {
    hide FindSvc, GadgetLive, SvcAt, Call, Contents, Content, ReadString, ReadVector, SplitArguments, EntryElsewhere;
    hide BlocksGranted, CommandBlocks, CommandMemory, Rewound, Executed, IsArgument, LeftOnMmap;
    ghost var e, m0 := controller.proc.env, controller.proc.m;
    ghost var svc := FindSvc(controller.Maps(), controller.proc.m.mem);
    var args := GetCommandLine(cmdline);
    SplitGivesArguments(cmdline);
    ArgumentsFit(cmdline);
    var injected :- InjectCommand(controller, args);
    ghost var before := controller.proc.m;
    PathStands(e, m0, args);
    ExecveMoves(e, before, injected.0, injected.1, injected.2, svc.value, Content(args[0]));
    RewoundByExecve(e, m0, before, args, svc.value);
    var executed := controller.ExecuteSyscall(SYS_EXECVE, [injected.0, injected.1, injected.2]);
    assert executed.Ok?;
    if |args| % 512 != 0 {
      RewoundExactly(e, m0, args, controller.proc.m);
    }
    return Ok(());
  }

  lemma {:induction false} ArgumentsFit(buf: seq<Byte>)
    ensures |SplitArguments(buf)| <= |buf|
    ensures forall i | 0 <= i < |SplitArguments(buf)| :: |SplitArguments(buf)[i]| <= |buf|
    decreases |buf|
  {
    var k := FirstNul(buf);
    if k == |buf| {
    } else {
      ArgumentsFit(buf[k + 1..]);
    }
  }

  /** The Rewind command. n is how many steps it takes the process to get out of the call it was
      attached in, or past its next instruction. */
  method Rewind(proc: Process, cmdline: seq<Byte>, ghost n: nat) returns (r: Result<()>)
    requires FirstMove(proc.env, proc.m, n) && 8 * |cmdline| < WORD_LIMIT
    requires CanExecute(proc.env, Steps(proc.env, proc.m, n), Program(SplitArguments(cmdline)))
    modifies proc
    ensures var e, stopped, args := proc.env, Steps(proc.env, old(proc.m), n), SplitArguments(cmdline);
            && (r.Ok? <==> !IsTraceStop(old(proc.stop)) && FindSvc(e.maps(stopped.mem), stopped.mem).Ok?
                           && BlocksGranted(e, stopped.mem, stopped.clock, CommandBlocks(e, stopped.clock, args)))
            && (r.Ok? ==> args != [] && Rewound(e, stopped, args, proc.m))
            && (r.Ok? && |args| % 512 != 0 ==>
                  Executed(e, stopped, CommandMemory(e, stopped, args), Content(args[0]), Contents(args), [], proc.m))
    ensures r.Err? && !IsTraceStop(old(proc.stop)) ==>
              var stopped := Steps(proc.env, old(proc.m), n);
              && SameIo(stopped, proc.m) && Extends(stopped.mem, proc.m.mem)
              && GaveUp(FindSvc(proc.env.maps(stopped.mem), stopped.mem), stopped, proc.m)
    ensures !IsTraceStop(old(proc.stop)) ==> proc.stop == Running
  {
    hide FindSvc, GadgetLive, FirstMove, Steps, SplitArguments, Executed, EntryElsewhere, Rewound, BlocksGranted;
    hide CommandBlocks, CommandMemory, Content, Contents, Program, LeftOnMmap;
    var controller := new ProcessController(proc);
    var _ :- proc.Attach();
    controller.EnsureNotInSyscall(n);
    r := RewindStopped(controller, cmdline);
    if r.Ok? {
      r := controller.Detach();
    }
    controller.Drop();
  }

  // ----- Takeover -----

  /** The Takeover command: the process executes another program with no arguments and no environment. With
      pause, the call is only prepared, and the process left stopped on it. It succeeds exactly when the
      process was not traced, a gadget is found and the kernel grants what is injected. */
  method Takeover(proc: Process, path: seq<Byte>, pause: bool, ghost n: nat) returns (r: Result<()>)
    requires FirstMove(proc.env, proc.m, n) && 0 !in path && |path| + 1 < WORD_LIMIT
    requires CanExecute(proc.env, Steps(proc.env, proc.m, n), path)
    modifies proc
    ensures var e, stopped := proc.env, Steps(proc.env, old(proc.m), n);
            var full := AfterBlocks(e, stopped.mem, stopped.clock, TakeoverBlocks(path));
            && (r.Ok? <==> !IsTraceStop(old(proc.stop)) && FindSvc(e.maps(stopped.mem), stopped.mem).Ok?
                           && BlocksGranted(e, stopped.mem, stopped.clock, TakeoverBlocks(path)))
            && (r.Ok? && !pause ==> Executed(e, stopped, full, path, [], [], proc.m))
            && (r.Ok? && pause ==> Executed(e, stopped, full, path, [], [], Complete(e, proc.m))
                                   && SvcAt(proc.m.mem, proc.m.regs.pc))
    ensures r.Ok? ==> proc.stop == if pause then Frozen else Running
    ensures r.Err? && !IsTraceStop(old(proc.stop)) ==>
              var stopped := Steps(proc.env, old(proc.m), n);
              && SameIo(stopped, proc.m) && Extends(stopped.mem, proc.m.mem) && proc.stop == Running
              && GaveUp(FindSvc(proc.env.maps(stopped.mem), stopped.mem), stopped, proc.m)
  {
    hide FindSvc, FirstMove, Steps, EntryElsewhere, SvcAt, Complete, ReadString, ReadVector, AfterBlocks, BlocksGranted;
    hide TakeoverBlocks, LeftOnMmap;
    var controller := new ProcessController(proc);
    var _ :- proc.Attach();
    controller.EnsureNotInSyscall(n);
    ghost var m0, svc := proc.m, FindSvc(proc.env.maps(proc.m.mem), proc.m.mem);
    var injected := InjectTakeover(controller, path);
    if injected.Err? {
      controller.Drop();
      return Err(injected.fault);
    }
    var strAddr, emptyAddr := injected.value.0, injected.value.1;
    ghost var before := proc.m;
    var args := [strAddr, emptyAddr, emptyAddr];
    ExecveMoves(proc.env, before, strAddr, emptyAddr, emptyAddr, svc.value, path);
    CallExecve(proc.env, before, strAddr, emptyAddr, emptyAddr, svc.value);
    var prepared := controller.PrepareSyscall(SYS_EXECVE, args);
    assert prepared.Ok?;
    if !pause {
      ghost var moves := InjectedCallMoves(proc.env, before, SYS_EXECVE, args, svc.value);
      controller.EnsureNotInSyscall(moves);
      r := controller.Detach();
    } else {
      r := controller.DetachAndStop();
    }
    controller.Drop();
  }

  method InjectTakeover(controller: ProcessController, path: seq<Byte>) returns (r: Result<(Word, Word)>)
    requires controller.Ready() && 0 !in path && |path| + 1 < WORD_LIMIT
    modifies controller.proc`m, controller`memoryMaps
    ensures controller.Ready() && SameIo(old(controller.proc.m), controller.proc.m)
    ensures Extends(old(controller.proc.m.mem), controller.proc.m.mem)
    ensures var e, m0 := controller.proc.env, old(controller.proc.m);
            && (r.Ok? <==> FindSvc(old(controller.Maps()), m0.mem).Ok?
                           && BlocksGranted(e, m0.mem, m0.clock, TakeoverBlocks(path)))
            && (r.Ok? ==> controller.proc.m.mem == AfterBlocks(e, m0.mem, m0.clock, TakeoverBlocks(path)))
            && GaveUp(FindSvc(old(controller.Maps()), m0.mem), m0, controller.proc.m)
    ensures r.Ok? ==>
              && FindSvc(controller.Maps(), controller.proc.m.mem)
                 == FindSvc(old(controller.Maps()), old(controller.proc.m.mem))
              && ReadString(controller.proc.m.mem, r.value.0) == Some(path)
              && ReadVector(controller.proc.m.mem, r.value.1) == Some([])
  {
    hide FindSvc, GadgetLive, Injected, ReadString, ReadVector, AfterBlocks, BlocksGranted, Grants, Mappable, Serve;
    hide RoundUp;
    ghost var e, m0, t := controller.proc.env, controller.proc.m.mem, controller.proc.m.clock;
    BothTakeoverBlocks(e, m0, t, path);
    OnePage();
    var strAddr :- controller.InjectBytes(path + [0]);
    InjectedExtends(m0, strAddr, path + [0]);
    ghost var m1 := controller.proc.m.mem;
    var emptyAddr :- controller.InjectBytes([0]);
    InjectedExtends(m1, emptyAddr, [0]);
    TakeoverReadsBack(e, m0, t, path);
    return Ok((strAddr, emptyAddr));
  }

  // ----- Redirect -----

  const O_WRONLY: Word := 1

  /** A file open for writing only. */
  function ForWriting(file: nat): Handle {
    Handle(file, false, true)
  }

  function OpenLowest(fds: Descriptors, file: nat): Descriptors {
    fds[LowestFree(fds, 0) := ForWriting(file)]
  }

  /** Two files opened after descriptors 1 and 2 were closed. */
  function Reopened(fds: Descriptors, file: nat): Descriptors {
    OpenLowest(OpenLowest(fds - {1} - {2}, file), file)
  }

  lemma LowestFreeIs(fds: Descriptors, k: nat)
    requires k !in fds && forall j | 0 <= j < k :: j in fds
    ensures LowestFree(fds, 0) == k
  {
    assert LowestFree(fds, 0) <= k;
  }

  /** Both standard streams end on the terminal, and nothing else changes, exactly when descriptor 0 is
      open: each open takes the lowest free descriptor. */
  lemma RedirectsIffStdinOpen(fds: Descriptors, file: nat)
    ensures Reopened(fds, file) == fds[1 := ForWriting(file)][2 := ForWriting(file)] <==> 0 in fds
    ensures 0 !in fds ==> Reopened(fds, file) == (fds - {1} - {2})[0 := ForWriting(file)][1 := ForWriting(file)]
    ensures LowestFree(fds - {1} - {2}, 0) <= 1 && LowestFree(OpenLowest(fds - {1} - {2}, file), 0) <= 2
  {
    var closed := fds - {1} - {2};
    var first := if 0 in fds then 1 else 0;
    LowestFreeIs(closed, first);
    LowestFreeIs(closed[first := ForWriting(file)], first + 1);
    hide LowestFree;
    if 0 in fds {
      assert Reopened(fds, file) == fds[1 := ForWriting(file)][2 := ForWriting(file)];
    } else {
      assert 0 in Reopened(fds, file);
    }
  }

  /** What is written to a descriptor open on a file for writing goes to that file. */
  lemma WritesReach(e: Env, m: Machine, fd: Word, file: nat, count: nat)
    requires fd in m.fds && m.fds[fd] == Handle(file, false, true)
    requires m.regs.x[8] == SYS_WRITE && m.regs.x[0] == fd && m.regs.x[2] == count
    requires Readable(m.mem, m.regs.x[1], m.regs.x[1] + count) && e.accept(m.clock, count) >= count
    ensures var text := Load(m.mem, m.regs.x[1], count);
            && Syscall(e, m).out == m.out + [Output(fd, file, text, SYS_WRITE)]
            && Syscall(e, m).regs.x[0] == count
  {
    var text := Load(m.mem, m.regs.x[1], count);
    assert text[..count] == text;
  }

  method CloseStandardStreams(controller: ProcessController) returns (r: Result<()>)
    requires controller.Ready()
    modifies controller.proc`m, controller`memoryMaps
    ensures controller.Ready() && controller.memoryMaps == Some(old(controller.Maps()))
    ensures r.Ok? <==> FindSvc(old(controller.Maps()), old(controller.proc.m.mem)).Ok?
    ensures r.Err? ==> controller.proc.m == old(controller.proc.m)
    ensures var m0, m := old(controller.proc.m), controller.proc.m;
            && m.mem == m0.mem && m.out == m0.out && m.image == m0.image
            && m.fds == if r.Ok? then m0.fds - {1} - {2} else m0.fds
    ensures r.Ok? ==>
              var e, m0, svc := controller.proc.env, old(controller.proc.m),
                                FindSvc(old(controller.Maps()), old(controller.proc.m.mem)).value;
              controller.proc.m.clock == m0.clock + 2
              && controller.proc.m == Serve(e, Serve(e, m0, CloseFd(1), svc), CloseFd(2), svc)
  {
    hide FindSvc, GadgetLive, SvcAt, Call;
    ghost var m0, svc := controller.proc.m, FindSvc(controller.Maps(), controller.proc.m.mem);
    var first :- controller.ExecuteSyscall(SYS_CLOSE, [1]);
    CallClose(controller.proc.env, m0, 1, svc.value);
    ghost var m1 := controller.proc.m;
    var second := controller.ExecuteSyscall(SYS_CLOSE, [2]);
    CallClose(controller.proc.env, m1, 2, svc.value);
    assert second.Ok?;
    return Ok(());
  }

  method OpenTwice(controller: ProcessController, strAddr: Word, ghost path: seq<Byte>) returns (r: Result<()>)
    requires controller.Ready() && ReadString(controller.proc.m.mem, strAddr) == Some(path)
    requires controller.proc.env.opens(path).Some? ==>
               var file := controller.proc.env.opens(path).value;
               LowestFree(controller.proc.m.fds, 0) <= 1 && LowestFree(OpenLowest(controller.proc.m.fds, file), 0) <= 2
    modifies controller.proc`m, controller`memoryMaps
    ensures controller.Ready()
    ensures r.Ok? <==> FindSvc(old(controller.Maps()), old(controller.proc.m.mem)).Ok?
    ensures r.Ok? ==>
              var m0, m, target := old(controller.proc.m), controller.proc.m, controller.proc.env.opens(path);
              && m.mem == m0.mem && m.out == m0.out && m.image == m0.image
              && m.fds == if target.Some? then OpenLowest(OpenLowest(m0.fds, target.value), target.value) else m0.fds
    ensures r.Ok? ==>
              var e, m0, svc := controller.proc.env, old(controller.proc.m),
                                FindSvc(old(controller.Maps()), old(controller.proc.m.mem)).value;
              controller.proc.m == Serve(e, Serve(e, m0, Open(strAddr, O_WRONLY), svc), Open(strAddr, O_WRONLY), svc)
  {
    hide FindSvc, GadgetLive, SvcAt, Call, ReadString, LowestFree;
    ghost var e, m0, svc := controller.proc.env, controller.proc.m, FindSvc(controller.Maps(), controller.proc.m.mem);
    var first :- controller.ExecuteSyscall(SYS_OPENAT, [0, strAddr, O_WRONLY, 0]);
    CallOpenat(e, m0, 0, strAddr, O_WRONLY, 0, svc.value);
    ghost var m1 := controller.proc.m;
    var second := controller.ExecuteSyscall(SYS_OPENAT, [0, strAddr, O_WRONLY, 0]);
    CallOpenat(e, m1, 0, strAddr, O_WRONLY, 0, svc.value);
    assert second.Ok?;
    return Ok(());
  }

  /** The Redirect command, from the stop it works from on (attached, any pending read cancelled). It
      succeeds exactly when a gadget is found and the kernel grants the mapping for the path, which is the
      third call. When it succeeds, the registers are back and memory has one new mapping. Descriptors 1 and
      2 are on the terminal and no other descriptor has changed if the terminal opens and descriptor 0 was
      open; if it was not, 0 and 1 are on the terminal and 2 is left closed; if the terminal does not open, both
      streams are left closed. */
  method Redirect(controller: ProcessController, tty: seq<Byte>) returns (r: Result<Word>)
    requires controller.Ready() && 0 !in tty && |tty| + 1 < WORD_LIMIT && controller.detachOnDrop
    modifies controller.proc, controller`memoryMaps
    ensures var m0 := old(controller.proc.m);
            r.Ok? <==> FindSvc(old(controller.Maps()), m0.mem).Ok?
                       && Grants(controller.proc.env, m0.mem, m0.clock + 2, 0, RoundUp(|tty| + 1))
    ensures r.Ok? ==>
              var m0, m, target := old(controller.proc.m), controller.proc.m, controller.proc.env.opens(tty);
              && m.regs == m0.regs && m.out == m0.out && m.image == m0.image
              && Mappable(m0.mem, r.value, RoundUp(|tty| + 1)) && m.mem == m0.mem + Injected(r.value, tty + [0])
              && m.fds == (if target.None? then m0.fds - {1} - {2}
                           else
                             var terminal := Handle(target.value, false, true);
                             if 0 in m0.fds then m0.fds[1 := terminal][2 := terminal]
                             else (m0.fds - {1} - {2})[0 := terminal][1 := terminal])
    ensures r.Err? ==>
              var m0, m := old(controller.proc.m), controller.proc.m;
              && m.mem == m0.mem && m.out == m0.out && m.image == m0.image
              && m.fds == (if FindSvc(old(controller.Maps()), m0.mem).Ok? then m0.fds - {1} - {2} else m0.fds)
              && GaveUp(FindSvc(old(controller.Maps()), m0.mem), m0, m)
    ensures controller.proc.stop == Running
  {
    hide FindSvc, GadgetLive, SvcAt, ReadString, LowestFree, Injected, Mappable, OpenLowest, Grants, Serve, RoundUp;
    hide LeftOnMmap;
    ghost var m0 := controller.proc.m;
    var originalRegisters := controller.proc.GetRegs();
    var closed := CloseStandardStreams(controller);
    if closed.Err? {
      controller.Drop();
      return Err(closed.fault);
    }
    var str := controller.InjectBytes(tty + [0]);
    if str.Err? {
      controller.Drop();
      return Err(str.fault);
    }
    PathReadsBack(m0.mem, str.value, tty);
    if controller.proc.env.opens(tty).Some? {
      RedirectsIffStdinOpen(m0.fds, controller.proc.env.opens(tty).value);
    }
    var reopened := OpenTwice(controller, str.value, tty);
    assert reopened.Ok?;
    controller.proc.SetRegs(originalRegisters);
    var detached := controller.Detach();
    controller.Drop();
    return Ok(str.value);
  }
}
