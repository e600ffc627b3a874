/** The kernel side, as far as the mapping relay can see it: which addresses are
    mapped and how, and what a mapping call may answer. The kernel is
    nondeterministic; `Answers` is all that is assumed of it. */
module Memory {
  import opened Words

  /** How an address is mapped: its access bits and its backing. */
  datatype Mapping = Mapping(access: u64, anonymous: bool, shared: bool)

  datatype Cell = Cell(how: Mapping, byte: byte)

  datatype Memory = Memory(cells: map<int, Cell>, files: map<u64, seq<byte>>)

  function At(m: Memory, a: int): Option<Cell>
  {
    if a in m.cells then Some(m.cells[a]) else None
  }

  function HowAt(m: Memory, a: int): Option<Mapping>
  {
    if a in m.cells then Some(m.cells[a].how) else None
  }

  datatype Nr = Mmap | Mremap | Munmap | Mprotect | PkeyMprotect | Madvise

  datatype Args = Args(a0: u64, a1: u64, a2: u64, a3: u64, a4: u64, a5: u64)

  datatype Reply = Reply(result: u64, mem: Memory)

  /** A call that was made, and what it returned. */
  datatype Call = Call(nr: Nr, x: Args, result: u64)

  /** `(uint64_t)value >= (uint64_t)-4095` */
  predicate Failed(result: u64) { result >= TWO64 - 4095 }

  /** User mappings end here; no successful call reaches past it. */
  const USER_END: int := 0x8000_0000_0000
  const MADV_DONTNEED: u64 := 4

  function HowOf(prot: u64, flags: u64): Mapping
  {
    Mapping(prot % 8, Anonymous(flags), Shared(flags))
  }

  /** A byte of a mapped file; past its end the last page reads as zero. */
  function FileByte(file: seq<byte>, pos: int): byte
  {
    if 0 <= pos < |file| then file[pos] else 0
  }

  /** The call's range is page aligned at its start and ends in user space. */
  ghost predicate Placed(addr: u64, bytes: u64)
  {
    Aligned(addr) && addr + bytes <= USER_END
  }

  ghost predicate In(addr: u64, bytes: u64, a: int)
    requires addr + bytes <= USER_END
  {
    addr <= a < Ceil(addr + bytes)
  }

  ghost predicate MmapDone(m: Memory, x: Args, at: u64, m': Memory)
  {
    && Placed(at, x.a1)
    && (Fixed(x.a3) || NoReplace(x.a3) ==> at == x.a0)
    && (!Fixed(x.a3) || NoReplace(x.a3) ==> forall a: int :: In(at, x.a1, a) ==> At(m, a) == None)
    && (forall a: int :: !In(at, x.a1, a) ==> At(m', a) == At(m, a))
    && (forall a: int :: In(at, x.a1, a) ==>
          && HowAt(m', a) == Some(HowOf(x.a2, x.a3))
          && (Anonymous(x.a3) ==> m'.cells[a].byte == 0)
          && (!Anonymous(x.a3) && x.a4 in m.files ==>
                m'.cells[a].byte == FileByte(m.files[x.a4], x.a5 + (a - at))))
  }

  ghost predicate MunmapDone(m: Memory, x: Args, m': Memory)
  {
    && Placed(x.a0, x.a1)
    && forall a: int :: At(m', a) == if In(x.a0, x.a1, a) then None else At(m, a)
  }

  ghost predicate MprotectDone(m: Memory, x: Args, m': Memory)
  {
    && Placed(x.a0, x.a1)
    && (forall a: int :: In(x.a0, x.a1, a) ==> At(m, a).Some?)
    && (forall a: int :: At(m', a) ==
          if In(x.a0, x.a1, a) && At(m, a).Some?
          then Some(Cell(m.cells[a].how.(access := x.a2 % 8), m.cells[a].byte))
          else At(m, a))
  }

  predicate PrivateAnonymous(how: Option<Mapping>)
  {
    how.Some? && how.value.anonymous && !how.value.shared
  }

  /** Advice never changes what is mapped; even when it fails it may have
      discarded some of the range. */
  ghost predicate MadviseDone(m: Memory, x: Args, result: u64, m': Memory)
  {
    && (forall a: int :: HowAt(m', a) == HowAt(m, a))
    && (forall a: int :: !(Placed(x.a0, x.a1) && In(x.a0, x.a1, a)) ==> At(m', a) == At(m, a))
    && (result == 0 ==> Placed(x.a0, x.a1))
    && (result == 0 && x.a2 == MADV_DONTNEED ==>
          forall a: int :: In(x.a0, x.a1, a) && PrivateAnonymous(HowAt(m', a)) ==> m'.cells[a].byte == 0)
  }

  /** A remap moves or resizes one uniformly mapped range. */
  ghost predicate MremapDone(m: Memory, x: Args, at: u64, m': Memory)
  {
    && Placed(x.a0, x.a1) && Placed(at, x.a2)
    && (forall a: int :: In(x.a0, x.a1, a) ==> HowAt(m, a).Some? && HowAt(m, a) == HowAt(m, x.a0))
    && (forall a: int :: In(at, x.a2, a) && !In(x.a0, x.a1, a) ==> At(m, a) == None)
    && (at == x.a0 || forall a: int :: !(In(at, x.a2, a) && In(x.a0, x.a1, a)))
    && (forall a: int :: In(at, x.a2, a) ==> HowAt(m', a) == HowAt(m, x.a0))
    && (forall a: int :: In(x.a0, x.a1, a) && !In(at, x.a2, a) ==> At(m', a) == None)
    && (forall a: int :: !In(x.a0, x.a1, a) && !In(at, x.a2, a) ==> At(m', a) == At(m, a))
  }

  /** Every answer the kernel may give to one mapping call. A failed call other
      than advice changes nothing. */
  ghost predicate Answers(m: Memory, nr: Nr, x: Args, r: Reply)
  {
    && r.mem.files == m.files
    && match nr
       case Mmap => if Failed(r.result) then r.mem == m else MmapDone(m, x, r.result, r.mem)
       case Mremap => if Failed(r.result) then r.mem == m else MremapDone(m, x, r.result, r.mem)
       case Munmap =>
         if r.result == 0 then MunmapDone(m, x, r.mem) else Failed(r.result) && r.mem == m
       case Mprotect =>
         if r.result == 0 then MprotectDone(m, x, r.mem) else Failed(r.result) && r.mem == m
       case PkeyMprotect =>
         if r.result == 0 then MprotectDone(m, x, r.mem) else Failed(r.result) && r.mem == m
       case Madvise =>
         (r.result == 0 || Failed(r.result)) && MadviseDone(m, x, r.result, r.mem)
  }

  type Kernel = (nat, Memory, Nr, Args) -> Reply

  /** A running process: its memory and the kernel that answers its calls. The
      clock lets equal calls in equal memories be answered differently. */
  class Machine {
    const kernel: Kernel
    var mem: Memory
    var clock: nat
    ghost var last: Option<Call>

    ghost predicate Valid()
    {
      forall n: nat, m: Memory, nr: Nr, x: Args :: Answers(m, nr, x, kernel(n, m, nr, x))
    }

    /** What the kernel answers if this call is made now. */
    function Next(nr: Nr, x: Args): Reply
      reads this
    {
      kernel(clock, mem, nr, x)
    }

    constructor (k: Kernel, m: Memory)
      requires forall n: nat, m: Memory, nr: Nr, x: Args :: Answers(m, nr, x, k(n, m, nr, x))
      ensures Valid() && mem == m
    {
      kernel, mem, clock, last := k, m, 0, None;
    }

    method Syscall(nr: Nr, x: Args) returns (result: u64)
      requires Valid()
      modifies this
      ensures Answers(old(mem), nr, x, Reply(result, mem))
      ensures Reply(result, mem) == old(Next(nr, x)) && clock == old(clock) + 1
      ensures last == Some(Call(nr, x, result))
    {
      var reply := Next(nr, x);
      mem, clock := reply.mem, clock + 1;
      result := reply.result;
      last := Some(Call(nr, x, result));
    }

    /** One store by the running code, which needs a writable page. */
    method Store(a: int, b: byte)
      requires a in mem.cells && Writable(mem.cells[a].how.access)
      modifies this`mem
      ensures mem == old(mem).(cells := old(mem).cells[a := Cell(old(mem).cells[a].how, b)])
    {
      mem := mem.(cells := mem.cells[a := Cell(mem.cells[a].how, b)]);
    }
  }
}
