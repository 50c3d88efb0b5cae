/** A traced process and the ptrace requests the controller makes of it. Each request changes the
    machine as the kernel does and nothing else. */
module Ptrace {
  import opened Words
  import opened ProcMaps
  import opened Tracee

  /** Running: not traced. The three trace-stops: in user code, entering a call, leaving one.
      Frozen: detached with SIGSTOP. */
  datatype Stop = Running | UserStop | EnterStop | ExitStop | Frozen

  predicate IsTraceStop(s: Stop) {
    s.UserStop? || s.EnterStop? || s.ExitStop?
  }

  // ----- from one syscall-stop to the next -----

  /** The process's own code runs up to its next svc; the call has not happened yet. */
  function Enter(e: Env, m: Machine): Machine {
    var c := e.run(m.regs, m.mem);
    m.(regs := c.regs, mem := c.mem)
  }

  /** The call whose registers are set is performed. */
  function Finish(e: Env, m: Machine): Machine {
    Syscall(e, m).(clock := m.clock + 1)
  }

  class Process {
    const env: Env
    var m: Machine
    var stop: Stop
    /** How many more system calls the process makes before it is gone. */
    var life: nat

    method Attach() returns (r: Result<()>)
      modifies this`stop
      ensures r.Ok? <==> !IsTraceStop(old(stop))
      ensures stop == if r.Ok? then UserStop else old(stop)
    {
      if IsTraceStop(stop) {
        return Err(PtraceFailed);
      }
      stop := UserStop;
      return Ok(());
    }

    /** PTRACE_DETACH, with or without SIGSTOP; fails on a process that is not in a trace-stop. */
    method Detach(sigstop: bool) returns (r: Result<()>)
      modifies this`stop
      ensures r.Ok? <==> IsTraceStop(old(stop))
      ensures stop == if r.Err? then old(stop) else if sigstop then Frozen else Running
    {
      if !IsTraceStop(stop) {
        return Err(PtraceFailed);
      }
      stop := if sigstop then Frozen else Running;
      return Ok(());
    }

    method GetRegs() returns (regs: Regs)
      requires IsTraceStop(stop)
      ensures regs == m.regs
    {
      regs := m.regs;
    }

    method SetRegs(regs: Regs)
      requires IsTraceStop(stop)
      modifies this`m
      ensures m == old(m).(regs := regs)
    {
      m := m.(regs := regs);
    }

    /** PTRACE_PEEKDATA: eight bytes, whatever the permissions of their pages. */
    method Peek(addr: nat) returns (r: Result<Word>)
      requires IsTraceStop(stop)
      ensures r.Ok? <==> UserMapped(m.mem, addr, addr + 8)
      ensures r.Ok? ==> r.value == WordOf(Load(m.mem, addr, 8))
    {
      if !UserMapped(m.mem, addr, addr + 8) {
        return Err(PtraceFailed);
      }
      return Ok(WordOf(Load(m.mem, addr, 8)));
    }

    /** PTRACE_POKEDATA: eight bytes, whatever the permissions of their pages. */
    method Poke(addr: nat, w: Word) returns (r: Result<()>)
      requires IsTraceStop(stop)
      modifies this`m
      ensures r.Ok? <==> UserMapped(old(m.mem), addr, addr + 8)
      ensures m == if r.Ok? then old(m).(mem := Store(old(m.mem), addr, ToLe(w, 8))) else old(m)
    {
      if !UserMapped(m.mem, addr, addr + 8) {
        return Err(PtraceFailed);
      }
      m := m.(mem := Store(m.mem, addr, ToLe(w, 8)));
      return Ok(());
    }

    /** process_vm_readv: a full transfer out of readable pages, or none. */
    method Readv(addr: nat, n: nat) returns (r: Result<seq<Byte>>)
      ensures r.Ok? <==> UserReadable(m.mem, addr, addr + n)
      ensures r.Ok? ==> r.value == Load(m.mem, addr, n)
      ensures r.Err? ==> r.fault == TransferFailed
    {
      if !UserReadable(m.mem, addr, addr + n) {
        return Err(TransferFailed);
      }
      return Ok(Load(m.mem, addr, n));
    }

    /** process_vm_writev: a full transfer into writable pages, or none. Returns the byte count. */
    method Writev(addr: nat, bytes: seq<Byte>) returns (r: Result<nat>)
      modifies this`m
      ensures r.Ok? <==> UserWritable(old(m.mem), addr, addr + |bytes|)
      ensures r.Ok? ==> r.value == |bytes|
      ensures m == if r.Ok? then old(m).(mem := Store(old(m.mem), addr, bytes)) else old(m)
    {
      if !UserWritable(m.mem, addr, addr + |bytes|) {
        return Err(TransferFailed);
      }
      m := m.(mem := Store(m.mem, addr, bytes));
      return Ok(|bytes|);
    }

    /** PTRACE_SINGLESTEP and waiting for the stop after it. */
    method SingleStep()
      requires stop.UserStop?
      modifies this`m
      ensures m == Stepper(env)(old(m))
    {
      m := Step(env, m);
    }

    /** PTRACE_SYSCALL and waiting for the stop after it. From a syscall-enter-stop this performs
        the call; from any other stop it runs to the next call. A process that is gone fails it. */
    method ResumeToSyscall() returns (r: Result<()>)
      requires IsTraceStop(stop) && (stop.EnterStop? ==> life > 0)
      modifies this
      ensures r.Ok? <==> old(life) > 0
      ensures if r.Err? then m == old(m) && stop == old(stop) && life == old(life)
              else if old(stop).EnterStop? then m == Finish(env, old(m)) && stop == ExitStop && life == old(life) - 1
              else m == Enter(env, old(m)) && stop == EnterStop && life == old(life)
    {
      if life == 0 {
        return Err(PtraceFailed);
      }
      if stop.EnterStop? {
        m, stop, life := Finish(env, m), ExitStop, life - 1;
      } else {
        m, stop := Enter(env, m), EnterStop;
      }
      return Ok(());
    }

    /** The regions /proc/pid/maps lists now. */
    method ReadMaps() returns (maps: seq<MemoryMap>)
      ensures maps == env.maps(m.mem)
    {
      maps := env.maps(m.mem);
    }
  }
}
