/** What the Rewind and Takeover commands build in the memory of a process, block by block, and what execve
    reads there. */
module Rewinding {
  import opened Words
  import opened ProcMaps
  import opened Tracee
  import opened Injection

  // ----- data structures in the memory of the process -----

  /** The bytes stand readable at the address. */
  ghost predicate BytesAt(mem: Memory, addr: nat, bytes: seq<Byte>) {
    addr + |bytes| <= TASK_SIZE && Readable(mem, addr, addr + |bytes|) && Load(mem, addr, |bytes|) == bytes
  }

  lemma BytesAtExtends(m: Memory, m': Memory, addr: nat, bytes: seq<Byte>)
    requires BytesAt(m, addr, bytes) && Extends(m, m')
    ensures BytesAt(m', addr, bytes)
  {
    assert Readable(m', addr, addr + |bytes|);
    assert Load(m', addr, |bytes|) == Load(m, addr, |bytes|);
  }

  /** What stands at an address stands there piece by piece. */
  lemma BytesAtSplit(mem: Memory, addr: nat, a: seq<Byte>, b: seq<Byte>)
    requires BytesAt(mem, addr, a + b)
    ensures BytesAt(mem, addr, a) && BytesAt(mem, addr + |a|, b)
  {
    assert Load(mem, addr, |a|) == Load(mem, addr, |a + b|)[..|a|];
    assert Load(mem, addr + |a|, |b|) == Load(mem, addr, |a + b|)[|a|..];
  }

  /** An argument without its NUL. */
  function Content(arg: seq<Byte>): seq<Byte> {
    if |arg| > 0 then arg[..|arg| - 1] else []
  }

  lemma ArgumentTail(arg: seq<Byte>)
    requires IsArgument(arg) && arg[0] != 0
    ensures IsArgument(arg[1..]) && Content(arg) == [arg[0]] + Content(arg[1..])
  {
  }

  /** An argument reads back as its content. */
  lemma {:induction false} ReadStringAt(mem: Memory, addr: nat, arg: seq<Byte>)
    requires BytesAt(mem, addr, arg) && IsArgument(arg)
    ensures ReadString(mem, addr) == Some(Content(arg))
    decreases |arg|
  {
    assert arg == [arg[0]] + arg[1..];
    BytesAtSplit(mem, addr, [arg[0]], arg[1..]);
    assert mem[addr].value == Load(mem, addr, 1)[0];
    if arg[0] == 0 {
    } else {
      ArgumentTail(arg);
      ReadStringAt(mem, addr + 1, arg[1..]);
    }
  }

  function Contents(args: seq<seq<Byte>>): seq<seq<Byte>> {
    if args == [] then [] else [Content(args[0])] + Contents(args[1..])
  }

  lemma WordAt(mem: Memory, addr: nat, w: Word)
    requires BytesAt(mem, addr, ToLe(w, 8))
    ensures addr + 8 <= TASK_SIZE && Readable(mem, addr, addr + 8) && WordOf(Load(mem, addr, 8)) == w
  {
    hide ToLe, WordOf;
    WordOfToLe(w);
  }

  /** What is read after some values is read on from there. */
  function ReadOn<T>(first: seq<T>, rest: Option<seq<T>>): Option<seq<T>> {
    if rest.None? then None else Some(first + rest.value)
  }

  /** The walk over non-zero words goes on with whatever follows them. */
  lemma {:induction false} PointersContinue(mem: Memory, addr: nat, ptrs: seq<Word>)
    requires BytesAt(mem, addr, LeBytes(ptrs)) && forall i | 0 <= i < |ptrs| :: ptrs[i] != 0
    ensures ReadPointers(mem, addr) == ReadOn(ptrs, ReadPointers(mem, addr + 8 * |ptrs|))
    decreases |ptrs|
  {
    if ptrs == [] {
      SameFromHere(ReadPointers(mem, addr));
    } else {
      hide ToLe, BytesAt, WordOf, Load;
      BytesAtSplit(mem, addr, ToLe(ptrs[0], 8), LeBytes(ptrs[1..]));
      WordAt(mem, addr, ptrs[0]);
      PointersContinue(mem, addr + 8, ptrs[1..]);
      OneMoreRead(ptrs, ReadPointers(mem, addr + 8 * |ptrs|));
    }
  }

  lemma SameFromHere(rest: Option<seq<Word>>)
    ensures ReadOn([], rest) == rest
  {
    assert rest.Some? ==> [] + rest.value == rest.value;
  }

  lemma OneMoreRead(ptrs: seq<Word>, rest: Option<seq<Word>>)
    requires ptrs != []
    ensures ReadOn(ptrs, rest) == ReadOn([ptrs[0]], ReadOn(ptrs[1..], rest))
  {
    assert rest.Some? ==> ptrs + rest.value == [ptrs[0]] + (ptrs[1..] + rest.value);
  }

  /** A zero word can be read at the address. */
  predicate ZeroWordAt(mem: Memory, at: nat) {
    at < TASK_SIZE && Readable(mem, at, at + 8) && WordOf(Load(mem, at, 8)) == 0
  }

  lemma StopsAtZero(mem: Memory, at: nat)
    ensures ReadPointers(mem, at) == Some([]) <==> ZeroWordAt(mem, at)
    ensures at != 0 ==> (ReadVector(mem, at) == Some([]) <==> ZeroWordAt(mem, at))
  {
    hide WordOf, Load, Readable, ReadString;
    if ReadPointers(mem, at).Some? {
      var addrs := ReadPointers(mem, at).value;
      assert addrs != [] ==> ReadStrings(mem, addrs) != Some([]);
    }
  }

  /** Nothing that is written terminates an injected pointer array. Wherever it stands, it reads back as its
      words if and only if the word right after it can be read and is zero. */
  lemma ArrayReadsBackIff(mem: Memory, addr: nat, ptrs: seq<Word>)
    requires BytesAt(mem, addr, LeBytes(ptrs)) && forall i | 0 <= i < |ptrs| :: ptrs[i] != 0
    ensures ReadPointers(mem, addr) == Some(ptrs) <==> ZeroWordAt(mem, addr + 8 * |ptrs|)
  {
    var rest := ReadPointers(mem, addr + 8 * |ptrs|);
    PointersContinue(mem, addr, ptrs);
    StopsAtZero(mem, addr + 8 * |ptrs|);
    assert rest.Some? && ptrs + rest.value == ptrs ==> |rest.value| == 0;
    assert ptrs + [] == ptrs;
    hide ReadPointers, ZeroWordAt, BytesAt;
  }

  lemma ZeroStands(mem: Memory, at: nat)
    requires BytesAt(mem, at, ToLe(0, 8))
    ensures ZeroWordAt(mem, at)
  {
    WordAt(mem, at, 0);
  }

  /** A terminated array of non-zero words reads back as those words. */
  lemma ReadPointersAt(mem: Memory, addr: nat, ptrs: seq<Word>)
    requires BytesAt(mem, addr, LeBytes(ptrs) + ToLe(0, 8)) && forall i | 0 <= i < |ptrs| :: ptrs[i] != 0
    ensures ReadPointers(mem, addr) == Some(ptrs) && ZeroWordAt(mem, addr + 8 * |ptrs|)
  {
    hide BytesAt, LeBytes, ToLe, ReadPointers, ZeroWordAt;
    BytesAtSplit(mem, addr, LeBytes(ptrs), ToLe(0, 8));
    ZeroStands(mem, addr + 8 * |ptrs|);
    ArrayReadsBackIff(mem, addr, ptrs);
  }

  /** The zero fill of its last page terminates the array when its length leaves room there. */
  lemma InjectedPointers(mem: Memory, addr: nat, ptrs: seq<Word>)
    requires Mappable(mem, addr, RoundUp(8 * |ptrs|)) && |ptrs| % 512 != 0
    ensures BytesAt(mem + Injected(addr, LeBytes(ptrs)), addr, LeBytes(ptrs) + ToLe(0, 8))
  {
    hide LeBytes, ToLe, RoundUp;
    RoomForTerminator(|ptrs|);
    ZeroWord(8);
    FilledReads(mem, addr, addr + RoundUp(8 * |ptrs|), LeBytes(ptrs), 8);
  }

  /** A filled range reads as its bytes and then zeros. */
  lemma FilledReads(mem: Memory, lo: nat, hi: nat, bytes: seq<Byte>, zeros: nat)
    requires lo + |bytes| + zeros <= hi <= TASK_SIZE
    ensures BytesAt(mem + Filled(lo, hi, bytes, Prot(true, true, false)), lo, bytes + ZeroBytes(zeros))
  {
    var cells := Filled(lo, hi, bytes, Prot(true, true, false));
    var n := |bytes| + zeros;
    assert forall a | lo <= a < lo + n :: a in cells;
    assert Load(mem + cells, lo, n) == bytes + ZeroBytes(zeros);
  }

  lemma {:induction false} ZeroWord(k: nat)
    ensures ToLe(0, k) == ZeroBytes(k)
  {
    if k == 0 {
    } else {
      ZeroWord(k - 1);
    }
  }

  lemma RoomForTerminator(n: nat)
    ensures n % 512 != 0 ==> 8 * n + 8 <= RoundUp(8 * n)
    ensures n % 512 == 0 ==> RoundUp(8 * n) == 8 * n
  {
    var q, r := n / 512, n % 512;
    assert 8 * n == PAGE * q + 8 * r;
  }

  lemma InjectedString(mem: Memory, addr: nat, arg: seq<Byte>)
    requires Mappable(mem, addr, RoundUp(|arg|))
    ensures BytesAt(mem + Injected(addr, arg), addr, arg)
  {
    RoundUpFacts(|arg|);
    FilledReads(mem, addr, addr + RoundUp(|arg|), arg, 0);
    assert arg + ZeroBytes(0) == arg;
  }

  /** One NUL byte in a page of its own is an empty vector. */
  lemma EmptyVector(mem: Memory, addr: nat)
    requires Mappable(mem, addr, PAGE)
    ensures ReadVector(mem + Injected(addr, [0]), addr) == Some([])
  {
    var mem' := mem + Injected(addr, [0]);
    FilledReads(mem, addr, addr + PAGE, [0], 7);
    ZeroWord(8);
    assert [0] + ZeroBytes(7) == LeBytes([]) + ToLe(0, 8);
    ReadPointersAt(mem', addr, []);
  }

  lemma OnePage()
    ensures RoundUp(1) == PAGE && RoundUp(0) == 0
  {
  }

  // ----- blocks of data injected one after the other -----

  /** Memory after blocks of data were injected from time t on, each where the kernel places it. */
  function AfterBlocks(e: Env, mem: Memory, t: nat, blocks: seq<seq<Byte>>): Memory
    decreases |blocks|
  {
    if blocks == [] then mem
    else
      var n := |blocks| - 1;
      AfterBlocks(e, mem, t, blocks[..n]) + Injected(e.place(t + n), blocks[n])
  }

  /** The kernel grants each of them. */
  predicate BlocksGranted(e: Env, mem: Memory, t: nat, blocks: seq<seq<Byte>>)
    decreases |blocks|
  {
    if blocks == [] then true
    else
      var n := |blocks| - 1;
      && BlocksGranted(e, mem, t, blocks[..n])
      && Grants(e, AfterBlocks(e, mem, t, blocks[..n]), t + n, 0, RoundUp(|blocks[n]|))
  }

  /** Where the kernel places n mappings from time t on. */
  function Places(e: Env, t: nat, n: nat): (places: seq<Word>)
    ensures |places| == n && forall i | 0 <= i < n :: places[i] == e.place(t + i)
  {
    seq<Word>(n, i requires 0 <= i < n => e.place(t + i))
  }

  lemma OneMoreBlock(e: Env, mem: Memory, t: nat, blocks: seq<seq<Byte>>, block: seq<Byte>)
    ensures var before := AfterBlocks(e, mem, t, blocks);
            && AfterBlocks(e, mem, t, blocks + [block]) == before + Injected(e.place(t + |blocks|), block)
            && (BlocksGranted(e, mem, t, blocks + [block]) <==>
                  BlocksGranted(e, mem, t, blocks) && Grants(e, before, t + |blocks|, 0, RoundUp(|block|)))
  {
    assert (blocks + [block])[..|blocks|] == blocks;
  }

  lemma {:induction false} EarlierGranted(e: Env, mem: Memory, t: nat, blocks: seq<seq<Byte>>, k: nat)
    requires BlocksGranted(e, mem, t, blocks) && k <= |blocks|
    ensures BlocksGranted(e, mem, t, blocks[..k])
    decreases |blocks|
  {
    if k == |blocks| {
      assert blocks[..k] == blocks;
    } else {
      var front := blocks[..|blocks| - 1];
      EarlierGranted(e, mem, t, front, k);
      assert front[..k] == blocks[..k];
    }
  }

  lemma GrantedPlace(e: Env, mem: Memory, t: nat, n: nat)
    requires Grants(e, mem, t, 0, n)
    ensures Mappable(mem, e.place(t), n)
  {
  }

  /** Blocks that were granted stand where they were placed, and nothing that was there has changed. */
  lemma {:induction false} BlocksStand(e: Env, mem: Memory, t: nat, blocks: seq<seq<Byte>>)
    requires BlocksGranted(e, mem, t, blocks)
    ensures var after, places := AfterBlocks(e, mem, t, blocks), Places(e, t, |blocks|);
            && Extends(mem, after)
            && forall k | 0 <= k < |blocks| :: places[k] != 0 && BytesAt(after, places[k], blocks[k])
    decreases |blocks|
  {
    hide BytesAt, Injected, Grants, RoundUp, Mappable;
    if blocks == [] {
    } else {
      var n := |blocks| - 1;
      BlocksStand(e, mem, t, blocks[..n]);
      GrantedPlace(e, AfterBlocks(e, mem, t, blocks[..n]), t + n, RoundUp(|blocks[n]|));
      BlockPlaced(AfterBlocks(e, mem, t, blocks[..n]), e.place(t + n), blocks[n], Places(e, t, n), blocks[..n]);
      forall k | 0 <= k < |blocks|
        ensures Places(e, t, |blocks|)[k] != 0
        ensures BytesAt(AfterBlocks(e, mem, t, blocks), Places(e, t, |blocks|)[k], blocks[k])
      {
        if k < n {
          assert Places(e, t, n)[k] == Places(e, t, |blocks|)[k] && blocks[..n][k] == blocks[k];
        }
      }
    }
  }

  lemma BlockPlaced(mem: Memory, addr: Word, block: seq<Byte>, places: seq<Word>, blocks: seq<seq<Byte>>)
    requires Mappable(mem, addr, RoundUp(|block|)) && |places| == |blocks|
    requires forall k | 0 <= k < |blocks| :: BytesAt(mem, places[k], blocks[k])
    ensures var mem' := mem + Injected(addr, block);
            && Extends(mem, mem') && addr != 0 && BytesAt(mem', addr, block)
            && forall k | 0 <= k < |blocks| :: BytesAt(mem', places[k], blocks[k])
  {
    InjectedExtends(mem, addr, block);
    InjectedString(mem, addr, block);
    forall k | 0 <= k < |blocks|
      ensures BytesAt(mem + Injected(addr, block), places[k], blocks[k])
    {
      BytesAtExtends(mem, mem + Injected(addr, block), places[k], blocks[k]);
    }
  }

  lemma NoBlocks(e: Env, mem: Memory, t: nat)
    ensures AfterBlocks(e, mem, t, []) == mem && BlocksGranted(e, mem, t, [])
  {
  }

  lemma NothingIsNotGranted(e: Env, mem: Memory, t: nat)
    ensures !Grants(e, mem, t, 0, 0)
  {
  }

  // ----- the rewound command line -----

  /** What is injected to rewind a command: its arguments, the array of their addresses, and a zero byte. */
  function CommandBlocks(e: Env, t: nat, args: seq<seq<Byte>>): seq<seq<Byte>> {
    args + [LeBytes(Places(e, t, |args|))] + [[0]]
  }

  function CommandMemory(e: Env, m: Machine, args: seq<seq<Byte>>): Memory {
    AfterBlocks(e, m.mem, m.clock, CommandBlocks(e, m.clock, args))
  }

  /** The address right after the injected array. */
  function ArrayEnd(e: Env, m: Machine, args: seq<seq<Byte>>): nat {
    e.place(m.clock + |args|) + 8 * |args|
  }

  lemma {:induction false} StringsContinue(mem: Memory, addrs: seq<Word>, args: seq<seq<Byte>>, rest: seq<Word>)
    requires |addrs| == |args|
    requires forall i | 0 <= i < |args| :: IsArgument(args[i]) && BytesAt(mem, addrs[i], args[i])
    ensures ReadStrings(mem, addrs + rest) == ReadOn(Contents(args), ReadStrings(mem, rest))
    decreases |args|
  {
    if args == [] {
      assert addrs + rest == rest;
      var strings := ReadStrings(mem, rest);
      assert strings.Some? ==> [] + strings.value == strings.value;
    } else {
      hide BytesAt, ReadString, IsArgument, Content;
      ReadStringAt(mem, addrs[0], args[0]);
      StringsContinue(mem, addrs[1..], args[1..], rest);
      assert (addrs + rest)[1..] == addrs[1..] + rest;
      OneMoreString(args, ReadStrings(mem, rest));
    }
  }

  lemma OneMoreString(args: seq<seq<Byte>>, rest: Option<seq<seq<Byte>>>)
    requires args != []
    ensures ReadOn(Contents(args), rest) == ReadOn([Content(args[0])], ReadOn(Contents(args[1..]), rest))
  {
    assert rest.Some? ==> Contents(args) + rest.value == [Content(args[0])] + (Contents(args[1..]) + rest.value);
  }

  /** An array of argument addresses reads as those arguments and then whatever vector follows it. */
  lemma VectorContinues(mem: Memory, argv: Word, addrs: seq<Word>, args: seq<seq<Byte>>)
    requires |addrs| == |args| && argv != 0 && BytesAt(mem, argv, LeBytes(addrs))
    requires forall i | 0 <= i < |args| :: IsArgument(args[i]) && addrs[i] != 0 && BytesAt(mem, addrs[i], args[i])
    ensures ReadVector(mem, argv) == ReadOn(Contents(args), ReadVector(mem, argv + 8 * |args|))
  {
    hide BytesAt, LeBytes, IsArgument, Contents, ReadStrings, ReadPointers;
    PointersContinue(mem, argv, addrs);
    var rest := ReadPointers(mem, argv + 8 * |args|);
    if rest.Some? {
      StringsContinue(mem, addrs, args, rest.value);
    }
  }

  /** What execve reads from the injected structure: the path, the arguments and then whatever vector
      follows their array, which is none whenever the number of arguments is not a multiple of 512, and an
      empty environment. */
  lemma VectorsReadBack(e: Env, m: Machine, args: seq<seq<Byte>>)
    requires args != [] && forall i | 0 <= i < |args| :: IsArgument(args[i])
    requires BlocksGranted(e, m.mem, m.clock, CommandBlocks(e, m.clock, args))
    ensures var full, t, n := CommandMemory(e, m, args), m.clock, |args|;
            && Extends(m.mem, full)
            && ReadString(full, e.place(t)) == Some(Content(args[0]))
            && ReadVector(full, e.place(t + n)) == ReadOn(Contents(args), ReadVector(full, ArrayEnd(e, m, args)))
            && ReadVector(full, e.place(t + n + 1)) == Some([])
            && (n % 512 != 0 ==> ReadVector(full, ArrayEnd(e, m, args)) == Some([]))
  {
    hide BytesAt, ReadString, ReadVector, Contents, Content, BlocksGranted, CommandMemory, CommandBlocks, IsArgument;
    hide ArrayEnd, ZeroWordAt;
    var full, t, n := CommandMemory(e, m, args), m.clock, |args|;
    var addrs := Places(e, t, n);
    ArgumentsStand(e, m, args);
    assert addrs[0] == e.place(t);
    ReadStringAt(full, addrs[0], args[0]);
    VectorContinues(full, e.place(t + n), addrs, args);
    EndOfArray(e, m, args);
    EnvironmentIsEmpty(e, m, args);
    if n % 512 != 0 {
      ArrayTerminated(e, m, args);
      StopsAtZero(full, ArrayEnd(e, m, args));
    }
  }

  /** The path of the command stands in the finished structure. */
  lemma PathStands(e: Env, m: Machine, args: seq<seq<Byte>>)
    requires args != [] && forall i | 0 <= i < |args| :: IsArgument(args[i])
    requires BlocksGranted(e, m.mem, m.clock, CommandBlocks(e, m.clock, args))
    ensures ReadString(CommandMemory(e, m, args), e.place(m.clock)) == Some(Content(args[0]))
  {
    hide ReadVector, ReadString, Content, BlocksGranted, CommandMemory, CommandBlocks, IsArgument, ArrayEnd;
    VectorsReadBack(e, m, args);
  }

  lemma EndOfArray(e: Env, m: Machine, args: seq<seq<Byte>>)
    ensures ArrayEnd(e, m, args) == e.place(m.clock + |args|) as nat + 8 * |args|
  {
  }

  /** The arguments and the array of their addresses stand in the finished structure. */
  lemma ArgumentsStand(e: Env, m: Machine, args: seq<seq<Byte>>)
    requires BlocksGranted(e, m.mem, m.clock, CommandBlocks(e, m.clock, args))
    ensures var full, addrs, argv := CommandMemory(e, m, args), Places(e, m.clock, |args|), e.place(m.clock + |args|);
            && Extends(m.mem, full) && argv != 0 && BytesAt(full, argv, LeBytes(addrs))
            && forall i | 0 <= i < |args| :: addrs[i] != 0 && BytesAt(full, addrs[i], args[i])
  {
    hide LeBytes, BytesAt, BlocksGranted, AfterBlocks;
    var n, blocks := |args|, CommandBlocks(e, m.clock, args);
    var addrs, places := Places(e, m.clock, n), Places(e, m.clock, n + 2);
    BlocksStand(e, m.mem, m.clock, blocks);
    assert blocks[n] == LeBytes(addrs) && places[n] == e.place(m.clock + n);
    forall i | 0 <= i < n
      ensures addrs[i] != 0 && BytesAt(CommandMemory(e, m, args), addrs[i], args[i])
    {
      assert places[i] == addrs[i] && blocks[i] == args[i];
    }
  }

  lemma EnvironmentIsEmpty(e: Env, m: Machine, args: seq<seq<Byte>>)
    requires BlocksGranted(e, m.mem, m.clock, CommandBlocks(e, m.clock, args))
    ensures ReadVector(CommandMemory(e, m, args), e.place(m.clock + |args| + 1)) == Some([])
  {
    hide LeBytes, ReadVector, Injected, Grants, BlocksGranted, AfterBlocks;
    var t, blocks := m.clock, args + [LeBytes(Places(e, m.clock, |args|))];
    OneMoreBlock(e, m.mem, t, blocks, [0]);
    OnePage();
    GrantedPlace(e, AfterBlocks(e, m.mem, t, blocks), t + |blocks|, PAGE);
    EmptyVector(AfterBlocks(e, m.mem, t, blocks), e.place(t + |blocks|));
  }

  lemma ArrayTerminated(e: Env, m: Machine, args: seq<seq<Byte>>)
    requires BlocksGranted(e, m.mem, m.clock, CommandBlocks(e, m.clock, args)) && |args| % 512 != 0
    ensures ZeroWordAt(CommandMemory(e, m, args), ArrayEnd(e, m, args))
  {
    hide LeBytes, BytesAt, Injected, Grants, Mappable, BlocksGranted, AfterBlocks, ZeroWordAt, RoundUp;
    var t, n := m.clock, |args|;
    var addrs := Places(e, t, n);
    var before := AfterBlocks(e, m.mem, t, args);
    var withArray := before + Injected(e.place(t + n), LeBytes(addrs));
    OneMoreBlock(e, m.mem, t, args, LeBytes(addrs));
    OneMoreBlock(e, m.mem, t, args + [LeBytes(addrs)], [0]);
    GrantedPlace(e, before, t + n, RoundUp(8 * n));
    InjectedPointers(before, e.place(t + n), addrs);
    GrantedPlace(e, withArray, t + n + 1, RoundUp(1));
    InjectedExtends(withArray, e.place(t + n + 1), [0]);
    BytesAtExtends(withArray, CommandMemory(e, m, args), e.place(t + n), LeBytes(addrs) + ToLe(0, 8));
    BytesAtSplit(CommandMemory(e, m, args), e.place(t + n), LeBytes(addrs), ToLe(0, 8));
    ZeroStands(CommandMemory(e, m, args), ArrayEnd(e, m, args));
  }

  /** execve finds exactly the arguments if and only if the word right after the array of their addresses
      can be read and is zero. */
  lemma ArgumentsExactIff(e: Env, m: Machine, args: seq<seq<Byte>>)
    requires args != [] && forall i | 0 <= i < |args| :: IsArgument(args[i])
    requires BlocksGranted(e, m.mem, m.clock, CommandBlocks(e, m.clock, args))
    ensures var full := CommandMemory(e, m, args);
            ReadVector(full, e.place(m.clock + |args|)) == Some(Contents(args))
            <==> ZeroWordAt(full, ArrayEnd(e, m, args))
  {
    hide ReadVector, Contents, CommandMemory, CommandBlocks, BlocksGranted, ZeroWordAt, ReadString, IsArgument;
    var rest := ReadVector(CommandMemory(e, m, args), ArrayEnd(e, m, args));
    VectorsReadBack(e, m, args);
    ArgumentsStand(e, m, args);
    StopsAtZero(CommandMemory(e, m, args), ArrayEnd(e, m, args));
    assert rest.Some? && Contents(args) + rest.value == Contents(args) ==> |rest.value| == 0;
    assert Contents(args) + [] == Contents(args);
  }

  /** The string stands where openat will read it. */
  lemma PathReadsBack(mem: Memory, addr: nat, path: seq<Byte>)
    requires Mappable(mem, addr, RoundUp(|path| + 1)) && 0 !in path
    ensures ReadString(mem + Injected(addr, path + [0]), addr) == Some(path)
  {
    InjectedString(mem, addr, path + [0]);
    assert IsArgument(path + [0]) && Content(path + [0]) == path;
    ReadStringAt(mem + Injected(addr, path + [0]), addr, path + [0]);
  }

  // ----- a taken-over process -----

  /** What is injected to take a process over: the path, and a zero byte for both empty vectors. */
  function TakeoverBlocks(path: seq<Byte>): seq<seq<Byte>> {
    [path + [0], [0]]
  }

  lemma BothTakeoverBlocks(e: Env, mem: Memory, t: nat, path: seq<Byte>)
    ensures var withPath, n := mem + Injected(e.place(t), path + [0]), RoundUp(|path| + 1);
            && AfterBlocks(e, mem, t, TakeoverBlocks(path)) == withPath + Injected(e.place(t + 1), [0])
            && (BlocksGranted(e, mem, t, TakeoverBlocks(path)) <==>
                  Grants(e, mem, t, 0, n) && Grants(e, withPath, t + 1, 0, PAGE))
  {
    hide AfterBlocks, BlocksGranted, Grants, Injected;
    NoBlocks(e, mem, t);
    OneMoreBlock(e, mem, t, [], path + [0]);
    OneMoreBlock(e, mem, t, [path + [0]], [0]);
    assert [] + [path + [0]] == [path + [0]];
    assert [path + [0]] + [[0]] == TakeoverBlocks(path);
    OnePage();
  }

  /** What execve reads from the injected path and zero byte. */
  lemma TakeoverReadsBack(e: Env, mem: Memory, t: nat, path: seq<Byte>)
    requires BlocksGranted(e, mem, t, TakeoverBlocks(path)) && 0 !in path
    ensures var full := AfterBlocks(e, mem, t, TakeoverBlocks(path));
            && ReadString(full, e.place(t)) == Some(path)
            && ReadVector(full, e.place(t + 1)) == Some([])
  {
    hide AfterBlocks, BlocksGranted, Grants, Injected, Mappable, ReadString, ReadVector, BytesAt;
    var withPath := mem + Injected(e.place(t), path + [0]);
    BothTakeoverBlocks(e, mem, t, path);
    GrantedPlace(e, mem, t, RoundUp(|path| + 1));
    GrantedPlace(e, withPath, t + 1, PAGE);
    OnePage();
    InjectedString(mem, e.place(t), path + [0]);
    InjectedExtends(withPath, e.place(t + 1), [0]);
    BytesAtExtends(withPath, withPath + Injected(e.place(t + 1), [0]), e.place(t), path + [0]);
    assert IsArgument(path + [0]) && Content(path + [0]) == path;
    ReadStringAt(withPath + Injected(e.place(t + 1), [0]), e.place(t), path + [0]);
    EmptyVector(withPath, e.place(t + 1));
  }

  // ----- executing what was built -----

  /** What the whole command comes to once its data stand in memory: execve with these strings, done or
      refused. */
  ghost predicate Executed(e: Env, m: Machine, full: Memory,
                           path: seq<Byte>, argv: seq<seq<Byte>>, envp: seq<seq<Byte>>, m': Machine)
  {
    && m'.fds == m.fds && m'.out == m.out
    && match e.loads(path)
       case Some(program) =>
         m'.image == Some(Exec(path, argv, envp)) && m'.mem == program.mem && m'.regs == program.regs
       case None => m'.image == m.image && m'.mem == full && m'.regs.x[0] == Negative(ENOENT)
  }

  /** What the Rewind command comes to, once its data stand in memory. The new program gets the arguments
      of the command line, then whatever vector the memory after their vector holds, and an empty
      environment; if nothing can be read after the vector, execve fails and the old program stays. */
  ghost predicate Rewound(e: Env, m: Machine, args: seq<seq<Byte>>, m': Machine)
    requires args != []
  {
    var full := CommandMemory(e, m, args);
    match ReadVector(full, ArrayEnd(e, m, args))
    case Some(more) => Executed(e, m, full, Content(args[0]), Contents(args) + more, [], m')
    case None => SameIo(m, m') && m'.mem == full && m'.regs.x[0] == Negative(EFAULT)
  }

  /** execve on a memory where path and environment can be read. */
  lemma ExecveOutcome(e: Env, m: Machine, before: Machine, path: Word, argv: Word, envp: Word, pc: Word,
                      p: seq<Byte>, v: seq<seq<Byte>>)
    requires SameIo(m, before) && ReadString(before.mem, path) == Some(p) && ReadVector(before.mem, envp) == Some(v)
    ensures var after := Call(e, before, SYS_EXECVE, [path, argv, envp], pc);
            match ReadVector(before.mem, argv)
            case Some(a) => Executed(e, m, before.mem, p, a, v, after)
            case None => SameIo(m, after) && after.mem == before.mem && after.regs.x[0] == Negative(EFAULT)
  {
    CallExecve(e, before, path, argv, envp, pc);
    hide Call, ReadString, ReadVector;
  }

  lemma RewoundByExecve(e: Env, m: Machine, before: Machine, args: seq<seq<Byte>>, pc: Word)
    requires args != [] && forall i | 0 <= i < |args| :: IsArgument(args[i])
    requires BlocksGranted(e, m.mem, m.clock, CommandBlocks(e, m.clock, args))
    requires SameIo(m, before) && before.mem == CommandMemory(e, m, args)
    ensures var t, n := m.clock, |args|;
            var injected := [e.place(t), e.place(t + n), e.place(t + n + 1)];
            Rewound(e, m, args, Call(e, before, SYS_EXECVE, injected, pc))
  {
    var t, n := m.clock, |args|;
    hide Call, ReadString, ReadVector, Contents, Content, CommandMemory, CommandBlocks, BlocksGranted, Executed;
    hide ArrayEnd, Extends, IsArgument;
    VectorsReadBack(e, m, args);
    ExecveOutcome(e, m, before, e.place(t), e.place(t + n), e.place(t + n + 1), pc, Content(args[0]), []);
  }

  /** When the number of arguments is no multiple of 512, the program gets exactly them. */
  lemma RewoundExactly(e: Env, m: Machine, args: seq<seq<Byte>>, m': Machine)
    requires args != [] && forall i | 0 <= i < |args| :: IsArgument(args[i])
    requires BlocksGranted(e, m.mem, m.clock, CommandBlocks(e, m.clock, args))
    requires Rewound(e, m, args, m') && |args| % 512 != 0
    ensures Executed(e, m, CommandMemory(e, m, args), Content(args[0]), Contents(args), [], m')
  {
    VectorsReadBack(e, m, args);
    hide ReadVector, Executed, Contents, Content, CommandMemory;
    assert Contents(args) + [] == Contents(args);
  }

  // ----- where a full last page is not followed by a zero word -----

  /** The k-th of a row of equally spaced addresses. */
  function Slot(base: nat, gap: nat, k: nat): nat {
    if k == 0 then base else Slot(base, gap, k - 1) + gap
  }

  lemma {:induction false} SlotsApart(base: nat, gap: nat, j: nat, k: nat)
    requires j < k
    ensures Slot(base, gap, j) + gap <= Slot(base, gap, k)
  {
    if j + 1 == k {
    } else {
      SlotsApart(base, gap, j, k - 1);
    }
  }

  /** An address within the pages of the k-th of the blocks. */
  predicate InSlot(base: nat, gap: nat, blocks: seq<seq<Byte>>, k: nat, a: nat)
    requires k < |blocks|
  {
    Slot(base, gap, k) <= a < Slot(base, gap, k) + RoundUp(|blocks[k]|)
  }

  predicate InSomeSlot(base: nat, gap: nat, blocks: seq<seq<Byte>>, a: nat) {
    exists k: nat | k < |blocks| :: InSlot(base, gap, blocks, k, a)
  }

  /** A kernel that places mappings in a row of slots from time t on, and refuses none. */
  ghost predicate Spaces(e: Env, t: nat, base: nat, gap: nat, n: nat) {
    (forall s :: !e.deny(s)) && forall k: nat | k < n :: e.place(t + k) == Slot(base, gap, k)
  }

  /** Blocks that fit the slots, the slots being above all that is mapped. */
  ghost predicate FitSlots(mem: Memory, base: nat, gap: nat, blocks: seq<seq<Byte>>) {
    && base % PAGE == 0 && gap % PAGE == 0 && LOWEST_MAPPABLE <= base
    && (forall a | a in mem :: a < base)
    && (forall k | 0 <= k < |blocks| :: blocks[k] != [] && RoundUp(|blocks[k]|) + PAGE <= gap)
    && Slot(base, gap, |blocks|) <= TASK_SIZE
  }

  lemma {:induction false} SpacedBlocks(e: Env, mem: Memory, t: nat, base: nat, gap: nat, blocks: seq<seq<Byte>>)
    requires Spaces(e, t, base, gap, |blocks|) && FitSlots(mem, base, gap, blocks)
    ensures BlocksGranted(e, mem, t, blocks)
    ensures forall a | a in AfterBlocks(e, mem, t, blocks) :: a in mem || InSomeSlot(base, gap, blocks, a)
    decreases |blocks|
  {
    hide RoundUp, Slot, Grants, InSomeSlot;
    if blocks == [] {
    } else {
      var n := |blocks| - 1;
      var front := blocks[..n];
      SlotsApart(base, gap, n, n + 1);
      assert FitSlots(mem, base, gap, front);
      SpacedBlocks(e, mem, t, base, gap, front);
      SlotIsFree(e, mem, t, base, gap, blocks, front);
      forall a | a in AfterBlocks(e, mem, t, blocks)
        ensures a in mem || InSomeSlot(base, gap, blocks, a)
      {
        if a in AfterBlocks(e, mem, t, front) {
          SameSlots(base, gap, blocks, n, a);
        } else {
          InItsSlot(base, gap, blocks, n, a);
        }
      }
    }
  }

  lemma SameSlots(base: nat, gap: nat, blocks: seq<seq<Byte>>, n: nat, a: nat)
    requires n <= |blocks|
    ensures InSomeSlot(base, gap, blocks[..n], a) ==> InSomeSlot(base, gap, blocks, a)
  {
    hide Slot, RoundUp;
    if InSomeSlot(base, gap, blocks[..n], a) {
      var k: nat :| k < n && InSlot(base, gap, blocks[..n], k, a);
      assert InSlot(base, gap, blocks, k, a);
    }
  }

  lemma InItsSlot(base: nat, gap: nat, blocks: seq<seq<Byte>>, k: nat, a: nat)
    requires k < |blocks| && Slot(base, gap, k) <= a < Slot(base, gap, k) + RoundUp(|blocks[k]|)
    ensures InSomeSlot(base, gap, blocks, a)
  {
    assert InSlot(base, gap, blocks, k, a);
  }

  /** The next slot is free for its block, and the kernel grants it. */
  lemma SlotIsFree(e: Env, mem: Memory, t: nat, base: nat, gap: nat, blocks: seq<seq<Byte>>, front: seq<seq<Byte>>)
    requires blocks != [] && front == blocks[..|blocks| - 1]
    requires Spaces(e, t, base, gap, |blocks|) && FitSlots(mem, base, gap, blocks)
    requires forall a | a in AfterBlocks(e, mem, t, front) :: a in mem || InSomeSlot(base, gap, front, a)
    ensures var n := |blocks| - 1;
            && e.place(t + n) == Slot(base, gap, n)
            && Grants(e, AfterBlocks(e, mem, t, front), t + n, 0, RoundUp(|blocks[n]|))
  {
    hide Slot, AfterBlocks, RoundUp, InSomeSlot;
    var n := |blocks| - 1;
    RoundUpFacts(|blocks[n]|);
    SlotsApart(base, gap, n, n + 1);
    SlotStarts(base, gap, n);
    forall a | a in AfterBlocks(e, mem, t, front)
      ensures a < Slot(base, gap, n)
    {
      if a !in mem {
        BelowNextSlot(base, gap, front, a);
      }
    }
  }

  lemma BelowNextSlot(base: nat, gap: nat, blocks: seq<seq<Byte>>, a: nat)
    requires InSomeSlot(base, gap, blocks, a)
    requires forall k | 0 <= k < |blocks| :: RoundUp(|blocks[k]|) <= gap
    ensures a < Slot(base, gap, |blocks|)
  {
    hide Slot, RoundUp;
    var k: nat :| k < |blocks| && InSlot(base, gap, blocks, k, a);
    SlotsApart(base, gap, k, |blocks|);
  }

  lemma PageAligned(a: nat, b: nat)
    ensures a % PAGE == 0 && b % PAGE == 0 ==> (a + b) % PAGE == 0
  {
  }

  lemma {:induction false} SlotStarts(base: nat, gap: nat, k: nat)
    ensures base <= Slot(base, gap, k)
    ensures base % PAGE == 0 && gap % PAGE == 0 ==> Slot(base, gap, k) % PAGE == 0
  {
    if k == 0 {
    } else {
      SlotStarts(base, gap, k - 1);
      PageAligned(Slot(base, gap, k - 1), gap);
    }
  }

  /** For every process and every command line of a multiple of 512 arguments that the address space has
      room for, there are choices of the kernel, all mappings granted, under which execve cannot read the
      arguments: the page after the array is not mapped. */
  lemma FullPagesFault(e: Env, m: Machine, args: seq<seq<Byte>>, base: nat, gap: nat) returns (e': Env)
    requires |args| > 0 && |args| % 512 == 0 && 8 * |args| + PAGE <= gap
    requires FitSlots(m.mem, base, gap, args) && Slot(base, gap, |args| + 2) <= TASK_SIZE
    requires forall i | 0 <= i < |args| :: IsArgument(args[i])
    ensures e' == e.(deny := e'.deny, place := e'.place)
    ensures BlocksGranted(e', m.mem, m.clock, CommandBlocks(e', m.clock, args))
    ensures forall m' :: Rewound(e', m, args, m') ==> m'.image == m.image && m'.regs.x[0] == Negative(EFAULT)
  {
    hide Slot, RoundUp, LeBytes, ReadVector, BlocksGranted, AfterBlocks, IsArgument, InSomeSlot;
    var t, n := m.clock, |args|;
    e' := e.(deny := _ => false, place := (s: nat) => SlotOr0(base, gap, s - t));
    InRow(base, gap, n);
    var blocks := CommandBlocks(e', t, args);
    OnePage();
    RoomForTerminator(n);
    assert FitSlots(m.mem, base, gap, blocks);
    SpacedBlocks(e', m.mem, t, base, gap, blocks);
    var full := CommandMemory(e', m, args);
    SlotsApart(base, gap, n, n + 1);
    SlotStarts(base, gap, n);
    var end := ArrayEnd(e', m, args);
    assert end == Slot(base, gap, n) + 8 * n;
    EndIsBetween(base, gap, blocks, n, end);
    assert end !in full;
    NothingToRead(full, end);
  }

  /** The address right after a full last page is in no slot. */
  lemma EndIsBetween(base: nat, gap: nat, blocks: seq<seq<Byte>>, n: nat, end: nat)
    requires n < |blocks| && end == Slot(base, gap, n) + RoundUp(|blocks[n]|)
    requires forall k | 0 <= k < |blocks| :: RoundUp(|blocks[k]|) + PAGE <= gap
    ensures !InSomeSlot(base, gap, blocks, end)
  {
    hide Slot, RoundUp;
    forall k: nat | k < |blocks|
      ensures !InSlot(base, gap, blocks, k, end)
    {
      if k < n {
        SlotsApart(base, gap, k, n);
      } else if n < k {
        SlotsApart(base, gap, n, k);
      }
    }
  }

  lemma NothingToRead(mem: Memory, at: nat)
    requires at !in mem && at != 0
    ensures ReadVector(mem, at) == None
  {
    assert !Readable(mem, at, at + 8);
  }

  /** A slot as a word, where it is one. */
  function SlotOr0(base: nat, gap: nat, k: int): Word {
    if k >= 0 && Slot(base, gap, k) < WORD_LIMIT then Slot(base, gap, k) else 0
  }

  lemma InRow(base: nat, gap: nat, n: nat)
    requires Slot(base, gap, n + 2) <= TASK_SIZE
    ensures forall k: nat | k < n + 2 :: SlotOr0(base, gap, k) == Slot(base, gap, k)
  {
    hide Slot;
    forall k: nat | k < n + 2
      ensures SlotOr0(base, gap, k) == Slot(base, gap, k)
    {
      SlotsApart(base, gap, k, n + 2);
    }
  }
}
