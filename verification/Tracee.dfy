/** An AArch64 Linux process under ptrace. This is the machine the controller code is proved
    against: registers, page-mapped memory, descriptors, and the system calls that matter here.
    Whatever the kernel or the process's own code is free to choose comes from an Env, over which
    every theorem quantifies. */
module Tracee {
  import opened Words
  import opened ProcMaps

  const PAGE: nat := 4096
  const TASK_SIZE: nat := 0x1_0000_0000_0000
  const LOWEST_MAPPABLE: nat := 0x1_0000

  // ----- memory -----

  datatype Prot = Prot(read: bool, write: bool, exec: bool)

  datatype Cell = Cell(value: Byte, prot: Prot)

  type Memory = map<nat, Cell>

  const RWX := Prot(true, true, true)

  function RoundUp(n: nat): nat {
    (n + PAGE - 1) / PAGE * PAGE
  }

  predicate Mapped(mem: Memory, lo: nat, hi: nat) {
    forall a | lo <= a < hi :: a in mem
  }

  predicate Readable(mem: Memory, lo: nat, hi: nat) {
    forall a | lo <= a < hi :: a in mem && mem[a].prot.read
  }

  predicate Writable(mem: Memory, lo: nat, hi: nat) {
    forall a | lo <= a < hi :: a in mem && mem[a].prot.write
  }

  /** What the kernel lets another process touch: nothing at or above TASK_SIZE. */
  predicate UserMapped(mem: Memory, lo: nat, hi: nat) {
    hi <= TASK_SIZE && Mapped(mem, lo, hi)
  }

  predicate UserReadable(mem: Memory, lo: nat, hi: nat) {
    lo == hi || (hi <= TASK_SIZE && Readable(mem, lo, hi))
  }

  predicate UserWritable(mem: Memory, lo: nat, hi: nat) {
    lo == hi || (hi <= TASK_SIZE && Writable(mem, lo, hi))
  }

  predicate Free(mem: Memory, lo: nat, hi: nat) {
    forall a | lo <= a < hi :: a !in mem
  }

  function Load(mem: Memory, lo: nat, n: nat): (bytes: seq<Byte>)
    requires Mapped(mem, lo, lo + n)
    ensures |bytes| == n
    ensures forall i | 0 <= i < n :: bytes[i] == mem[lo + i].value
  {
    seq<Byte>(n, i requires 0 <= i < n => mem[lo + i].value)
  }

  function Store(mem: Memory, lo: nat, bytes: seq<Byte>): Memory {
    map a | a in mem :: if lo <= a < lo + |bytes| then mem[a].(value := bytes[a - lo]) else mem[a]
  }

  function Unmap(mem: Memory, lo: nat, hi: nat): Memory {
    map a | a in mem && !(lo <= a < hi) :: mem[a]
  }

  predicate Within(a: nat, lo: nat, hi: nat) {
    lo <= a < hi
  }

  /** Fresh anonymous memory on a range. */
  function Zeros(lo: nat, hi: nat, prot: Prot): (zeros: Memory)
    ensures forall a: nat :: a in zeros <==> lo <= a < hi
    ensures forall a | a in zeros :: zeros[a] == Cell(0, prot)
  {
    map a: nat | lo <= a < hi && Within(a, lo, hi) :: Cell(0, prot)
  }

  function Protect(mem: Memory, lo: nat, hi: nat, prot: Prot): Memory {
    map a | a in mem :: if lo <= a < hi then mem[a].(prot := prot) else mem[a]
  }

  /** Two memories agree on a range: mapped alike, with the same bytes and permissions. */
  ghost predicate SameOn(m: Memory, m': Memory, lo: nat, hi: nat) {
    forall a | lo <= a < hi :: (a in m <==> a in m') && (a in m ==> m'[a] == m[a])
  }

  ghost predicate SameOutside(m: Memory, m': Memory, lo: nat, hi: nat) {
    forall a: nat | !(lo <= a < hi) :: (a in m <==> a in m') && (a in m ==> m'[a] == m[a])
  }

  /** Everything mapped before is still mapped, unchanged. */
  ghost predicate Extends(m: Memory, m': Memory) {
    forall a | a in m :: a in m' && m'[a] == m[a]
  }

  // ----- registers and instructions -----

  type XRegs = x: seq<Word> | |x| == 31 witness seq(31, _ => 0)

  datatype Regs = Regs(x: XRegs, sp: Word, pc: Word, pstate: Word)

  const SVC_BYTES: seq<Byte> := [0x01, 0x00, 0x00, 0xd4]
  const SVC_WORD: Word := 0xd4000001

  /** An instruction can be fetched at pc: it is aligned, mapped and executable. */
  predicate Fetchable(mem: Memory, pc: nat) {
    pc % 4 == 0 && forall a | pc <= a < pc + 4 :: a in mem && mem[a].prot.exec
  }

  /** The instruction at pc is "svc #0". */
  predicate SvcAt(mem: Memory, pc: nat) {
    Fetchable(mem, pc) && Load(mem, pc, 4) == SVC_BYTES
  }

  lemma SvcAtSame(m: Memory, m': Memory, pc: nat)
    requires SameOn(m, m', pc, pc + 4)
    ensures SvcAt(m, pc) <==> SvcAt(m', pc)
  {
    assert forall a | pc <= a < pc + 4 :: a in m <==> a in m';
    if Mapped(m, pc, pc + 4) && Mapped(m', pc, pc + 4) {
      assert Load(m, pc, 4) == Load(m', pc, 4);
    }
  }

  // ----- the process and its environment -----

  /** What a descriptor is open on, and for what. */
  datatype Handle = Handle(file: nat, readable: bool, writable: bool)

  type Descriptors = map<nat, Handle>

  /** Output that a call put out: on which descriptor, the file it was open on, the bytes, and the number of
      the call. */
  datatype Output = Output(fd: nat, file: nat, bytes: seq<Byte>, call: Word)

  /** What a successful execve handed to the new program. */
  datatype Exec = Exec(path: seq<Byte>, argv: seq<seq<Byte>>, envp: seq<seq<Byte>>)

  datatype Machine = Machine(
    regs: Regs,
    mem: Memory,
    fds: Descriptors,
    out: seq<Output>,
    image: Option<Exec>,
    clock: nat,
    waited: nat
  )

  datatype Context = Context(regs: Regs, mem: Memory)

  datatype Outcome = Outcome(ret: Word, mem: Memory, fds: Descriptors, out: seq<Output>)

  /** The free choices. clock counts completed system calls, so a choice may differ from call to call.
      - delay: how many single-steps a call stays blocked before it completes
      - deny, place: whether an mmap is refused, and where it goes when its hint is not taken
      - accept: how much of a write is taken
      - opens, loads: the file a path opens, the program a path executes
      - other: the effect of every call not spelled out below, and what it puts out
      - instr, run: one instruction of the process's own code, and all of it up to its next call
      - maps: what /proc/pid/maps lists for a memory
      - device: addresses that cannot be read through /proc/pid/mem */
  datatype Env = Env(
    delay: (nat, Word) -> nat,
    deny: nat -> bool,
    place: nat -> Word,
    accept: (nat, nat) -> nat,
    opens: seq<Byte> -> Option<nat>,
    loads: seq<Byte> -> Option<Context>,
    other: (nat, XRegs, Memory, Descriptors) -> Outcome,
    instr: (Regs, Memory) -> Context,
    run: (Regs, Memory) -> Context,
    maps: Memory -> seq<MemoryMap>,
    device: nat -> bool
  )

  // ----- system calls -----

  const SYS_OPENAT: Word := 56
  const SYS_CLOSE: Word := 57
  const SYS_WRITE: Word := 64
  const SYS_MUNMAP: Word := 215
  const SYS_EXECVE: Word := 221
  const SYS_MMAP: Word := 222
  const SYS_MPROTECT: Word := 226

  const ENOENT: nat := 2
  const EBADF: nat := 9
  const ENOMEM: nat := 12
  const EFAULT: nat := 14
  const EINVAL: nat := 22

  const PROT_READ: Word := 1
  const PROT_WRITE: Word := 2
  const PROT_EXEC: Word := 4

  /** MAP_PRIVATE | MAP_ANONYMOUS, without MAP_FIXED: the address is a hint. */
  const ANONYMOUS_PRIVATE: Word := 0x22

  const MINUS_ONE: Word := 0xffff_ffff_ffff_ffff

  function Negative(errno: nat): Word
    requires 0 < errno < 4096
  {
    WORD_LIMIT - errno
  }

  function Return(m: Machine, ret: Word): Machine {
    m.(regs := m.regs.(x := m.regs.x[0 := ret]))
  }

  function ProtOf(bits: Word): Prot {
    Prot(bits % 2 == 1, bits / 2 % 2 == 1, bits / 4 % 2 == 1)
  }

  function Munmap(m: Machine): Machine {
    var lo, n := m.regs.x[0], RoundUp(m.regs.x[1]);
    if lo % PAGE != 0 || n == 0 || lo + n > TASK_SIZE then Return(m, Negative(EINVAL))
    else Return(m.(mem := Unmap(m.mem, lo, lo + n)), 0)
  }

  predicate Mappable(mem: Memory, lo: nat, n: nat) {
    lo % PAGE == 0 && LOWEST_MAPPABLE <= lo && lo + n <= TASK_SIZE && Free(mem, lo, lo + n)
  }

  /** Where the kernel puts a mapping of n bytes at time t. */
  function Placement(e: Env, mem: Memory, t: nat, hint: Word, n: nat): Word {
    if Mappable(mem, hint, n) then hint else e.place(t)
  }

  /** Mapping n fresh bytes at lo, if the kernel can and will. */
  function MapAt(e: Env, m: Machine, lo: Word, n: nat): Machine {
    if e.deny(m.clock) || !Mappable(m.mem, lo, n) then Return(m, Negative(ENOMEM))
    else Return(m.(mem := m.mem + Zeros(lo, lo + n, ProtOf(m.regs.x[2]))), lo)
  }

  /** An anonymous private mapping: at the hint when that range is free, elsewhere when it is not. */
  function Mmap(e: Env, m: Machine): Machine {
    var hint, n := m.regs.x[0], RoundUp(m.regs.x[1]);
    if n == 0 then Return(m, Negative(EINVAL))
    else MapAt(e, m, Placement(e, m.mem, m.clock, hint, n), n)
  }

  function Mprotect(m: Machine): Machine {
    var lo, n := m.regs.x[0], RoundUp(m.regs.x[1]);
    if lo % PAGE != 0 then Return(m, Negative(EINVAL))
    else if !Mapped(m.mem, lo, lo + n) then Return(m, Negative(ENOMEM))
    else Return(m.(mem := Protect(m.mem, lo, lo + n, ProtOf(m.regs.x[2]))), 0)
  }

  function Close(m: Machine): Machine {
    var fd := m.regs.x[0];
    if fd in m.fds then Return(m.(fds := m.fds - {fd}), 0) else Return(m, Negative(EBADF))
  }

  function OpenFrom(fds: Descriptors, n: nat): set<nat> {
    set fd | fd in fds && n <= fd
  }

  /** The lowest descriptor from n up that is not open (section 2.14 of POSIX.1-2017, System Interfaces). */
  function LowestFree(fds: Descriptors, n: nat): (fd: nat)
    ensures n <= fd && fd !in fds
    ensures forall k | n <= k < fd :: k in fds
    decreases |OpenFrom(fds, n)|
  {
    if n !in fds then n
    else
      assert OpenFrom(fds, n + 1) == OpenFrom(fds, n) - {n};
      LowestFree(fds, n + 1)
  }

  /** The NUL-terminated string at an address, without its NUL; None where reading it would fault. */
  function ReadString(mem: Memory, addr: nat): Option<seq<Byte>>
    decreases TASK_SIZE - addr
  {
    if addr >= TASK_SIZE || addr !in mem || !mem[addr].prot.read then None
    else if mem[addr].value == 0 then Some([])
    else
      match ReadString(mem, addr + 1)
      case None => None
      case Some(s) => Some([mem[addr].value] + s)
  }

  /** The words from an address up to the first zero word. */
  function ReadPointers(mem: Memory, addr: nat): Option<seq<Word>>
    decreases TASK_SIZE - addr
  {
    if addr >= TASK_SIZE || !Readable(mem, addr, addr + 8) then None
    else
      var p := WordOf(Load(mem, addr, 8));
      if p == 0 then Some([])
      else
        match ReadPointers(mem, addr + 8)
        case None => None
        case Some(rest) => Some([p] + rest)
  }

  function ReadStrings(mem: Memory, addrs: seq<Word>): Option<seq<seq<Byte>>> {
    if addrs == [] then Some([])
    else
      match (ReadString(mem, addrs[0]), ReadStrings(mem, addrs[1..]))
      case (Some(first), Some(rest)) => Some([first] + rest)
      case _ => None
  }

  /** An argument or environment vector as execve reads it. A null vector is an empty one. */
  function ReadVector(mem: Memory, addr: nat): Option<seq<seq<Byte>>> {
    if addr == 0 then Some([])
    else
      match ReadPointers(mem, addr)
      case None => None
      case Some(addrs) => ReadStrings(mem, addrs)
  }

  /** A file opened with the given flags: the low two bits are the access mode. */
  function Opened(file: nat, flags: Word): Handle {
    Handle(file, flags % 4 == 0 || flags % 4 == 2, flags % 4 == 1 || flags % 4 == 2)
  }

  function Openat(e: Env, m: Machine): Machine {
    match ReadString(m.mem, m.regs.x[1])
    case None => Return(m, Negative(EFAULT))
    case Some(path) =>
      match e.opens(path)
      case None => Return(m, Negative(ENOENT))
      case Some(file) =>
        var fd := LowestFree(m.fds, 0);
        if fd >= WORD_LIMIT then Return(m, Negative(ENOMEM))
        else Return(m.(fds := m.fds[fd := Opened(file, m.regs.x[2])]), fd)
  }

  /** The descriptor is open for writing. */
  predicate CanWrite(fds: Descriptors, fd: nat) {
    fd in fds && fds[fd].writable
  }

  function Write(e: Env, m: Machine): Machine {
    var fd: nat, buf: nat, count: nat := m.regs.x[0], m.regs.x[1], m.regs.x[2];
    if !CanWrite(m.fds, fd) then Return(m, Negative(EBADF))
    else if !Readable(m.mem, buf, buf + count) then Return(m, Negative(EFAULT))
    else
      var taken := if e.accept(m.clock, count) < count then e.accept(m.clock, count) else count;
      var bytes := Load(m.mem, buf, count)[..taken];
      Return(m.(out := m.out + [Output(fd, m.fds[fd].file, bytes, SYS_WRITE)]), taken)
  }

  function Execve(e: Env, m: Machine): Machine {
    match (ReadString(m.mem, m.regs.x[0]), ReadVector(m.mem, m.regs.x[1]), ReadVector(m.mem, m.regs.x[2]))
    case (Some(path), Some(argv), Some(envp)) =>
      (match e.loads(path)
       case None => Return(m, Negative(ENOENT))
       case Some(program) => m.(regs := program.regs, mem := program.mem, image := Some(Exec(path, argv, envp))))
    case _ => Return(m, Negative(EFAULT))
  }

  function Other(e: Env, m: Machine): Machine {
    var o := e.other(m.clock, m.regs.x, m.mem, m.fds);
    Return(m.(mem := o.mem, fds := o.fds, out := m.out + PutOutBy(o.out, m.regs.x[8])), o.ret)
  }

  /** Output under the number of the call that put it out. */
  function PutOutBy(out: seq<Output>, call: Word): (r: seq<Output>)
    ensures |r| == |out| && forall k | 0 <= k < |out| :: r[k] == out[k].(call := call)
  {
    seq<Output>(|out|, k requires 0 <= k < |out| => out[k].(call := call))
  }

  /** A call whose effect is not spelled out. */
  predicate IsOther(x: XRegs) {
    && x[8] != SYS_MUNMAP && x[8] != SYS_MPROTECT && x[8] != SYS_CLOSE && x[8] != SYS_OPENAT && x[8] != SYS_WRITE
    && x[8] != SYS_EXECVE && !(x[8] == SYS_MMAP && x[3] == ANONYMOUS_PRIVATE)
  }

  /** The effect of the system call in x8. */
  function Syscall(e: Env, m: Machine): Machine {
    var n := m.regs.x[8];
    if n == SYS_MUNMAP then Munmap(m)
    else if n == SYS_MMAP && m.regs.x[3] == ANONYMOUS_PRIVATE then Mmap(e, m)
    else if n == SYS_MPROTECT then Mprotect(m)
    else if n == SYS_CLOSE then Close(m)
    else if n == SYS_OPENAT then Openat(e, m)
    else if n == SYS_WRITE then Write(e, m)
    else if n == SYS_EXECVE then Execve(e, m)
    else Other(e, m)
  }

  // ----- single steps -----

  function NextPc(pc: Word): Word {
    (pc + 4) % WORD_LIMIT
  }

  /** The system call at pc runs to its end. */
  function Complete(e: Env, m: Machine): Machine {
    Syscall(e, m.(regs := m.regs.(pc := NextPc(m.regs.pc)), waited := 0)).(clock := m.clock + 1)
  }

  /** PTRACE_SINGLESTEP: on an svc, one more step of waiting or the whole call; elsewhere one
      instruction of the process; where nothing can be fetched, nothing happens. */
  function Step(e: Env, m: Machine): Machine {
    if SvcAt(m.mem, m.regs.pc) then
      if m.waited < e.delay(m.clock, m.regs.x[8]) then m.(waited := m.waited + 1) else Complete(e, m)
    else if Fetchable(m.mem, m.regs.pc) then
      var c := e.instr(m.regs, m.mem);
      m.(regs := c.regs, mem := c.mem)
    else m
  }

  function Iterate(f: Machine -> Machine, m: Machine, n: nat): Machine {
    if n == 0 then m else f(Iterate(f, m, n - 1))
  }

  function Stepper(e: Env): Machine -> Machine {
    (m: Machine) => Step(e, m)
  }

  /** The process after n single-steps. */
  function Steps(e: Env, m: Machine, n: nat): Machine {
    Iterate(Stepper(e), m, n)
  }

  /** How many more steps the call at pc stays blocked. */
  function Remaining(e: Env, m: Machine): nat {
    var d := e.delay(m.clock, m.regs.x[8]);
    if m.waited < d then d - m.waited else 0
  }

  /** The process after n more steps inside the same blocked call. */
  function Waiting(m: Machine, n: nat): Machine {
    m.(waited := m.waited + n)
  }

  lemma StepWaits(e: Env, m: Machine, n: nat)
    requires SvcAt(m.mem, m.regs.pc) && n < Remaining(e, m)
    ensures Step(e, Waiting(m, n)) == Waiting(m, n + 1)
  {
  }

  lemma {:induction false} IterateWaits(f: Machine -> Machine, m: Machine, n: nat)
    requires forall j: nat | j < n :: f(Waiting(m, j)) == Waiting(m, j + 1)
    ensures Iterate(f, m, n) == Waiting(m, n)
  {
    if n == 0 {
    } else {
      IterateWaits(f, m, n - 1);
    }
  }

  lemma BlockedSteps(e: Env, m: Machine, n: nat)
    requires SvcAt(m.mem, m.regs.pc) && n <= Remaining(e, m)
    ensures Steps(e, m, n) == Waiting(m, n)
  {
    forall j: nat | j < n
      ensures Stepper(e)(Waiting(m, j)) == Waiting(m, j + 1)
    {
      StepWaits(e, m, j);
    }
    IterateWaits(Stepper(e), m, n);
  }

  lemma StepCompletes(e: Env, m: Machine)
    requires SvcAt(m.mem, m.regs.pc)
    ensures Step(e, Waiting(m, Remaining(e, m))) == Complete(e, m)
  {
  }

  /** Stepping at an svc waits the blocked steps out, and then performs the call exactly once. */
  lemma CallCompletesOnce(e: Env, m: Machine)
    requires SvcAt(m.mem, m.regs.pc)
    ensures forall k: nat | k <= Remaining(e, m) :: Steps(e, m, k) == Waiting(m, k)
    ensures Steps(e, m, Remaining(e, m) + 1) == Complete(e, m)
  {
    forall k: nat | k <= Remaining(e, m)
      ensures Steps(e, m, k) == Waiting(m, k)
    {
      BlockedSteps(e, m, k);
    }
    StepCompletes(e, m);
    assert Steps(e, m, Remaining(e, m) + 1) == Stepper(e)(Steps(e, m, Remaining(e, m)));
  }

  lemma {:induction false} IterateStays(f: Machine -> Machine, m: Machine, n: nat)
    requires f(m) == m
    ensures Iterate(f, m, n) == m
  {
    if n == 0 {
    } else {
      IterateStays(f, m, n - 1);
    }
  }

  /** Without an instruction to fetch, stepping never gets anywhere. */
  lemma LostCodeHangs(e: Env, m: Machine, n: nat)
    requires !Fetchable(m.mem, m.regs.pc)
    ensures Steps(e, m, n) == m
  {
    IterateStays(Stepper(e), m, n);
  }

  /** Of the registers, a call other than execve changes x0 only. */
  lemma SyscallKeepsRegisters(e: Env, m: Machine)
    requires m.regs.x[8] != SYS_EXECVE
    ensures var r := Syscall(e, m); r.regs == m.regs.(x := m.regs.x[0 := r.regs.x[0]])
    ensures var r := Syscall(e, m); r.image == m.image && r.clock == m.clock && r.waited == m.waited
  {
    hide Unmap, RoundUp, Zeros, ProtOf, Mappable, Placement, Protect, Mapped, Readable, LowestFree, ReadString, Load;
  }
}
