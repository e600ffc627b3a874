/** Relayed mapping calls and the owned program break, as step functions on
    values. Each step takes the kernel's answer as a parameter; whatever
    answer `Answers` allows, the lemmas hold. */
module Relay {
  import opened Words
  import opened Extents
  import opened TrackSpec
  import opened Memory

  const GATE_BASE: u64 := 0x5000_0000_0000
  const BOOTSTRAP_END: u64 := 0x5000_0008_0000
  const CONTROL_ADDR: u64 := 0x5300_0000_0000
  const RESUME_ADDR: u64 := 0x5300_0000_3000
  const SIGNAL_BASE: u64 := 0x5300_0001_0000
  const SIGNAL_BYTES: u64 := 65536
  const STACK_BASE: u64 := 0x5300_0002_0000
  const STACK_BYTES: u64 := 1048576
  const BRK_BASE: u64 := 0x5400_0000_0000
  const BRK_BYTES: u64 := 8388608
  const BRK_END: u64 := BRK_BASE + BRK_BYTES
  const TOOL_REGION_BASE: u64 := 0x6000_0000_0000
  const TOOL_REGION_BYTES: u64 := 0x1_0000_0000
  const TOOL_INIT: u64 := 2

  datatype State = State(maps: seq<Extent>, guestLo: u64, guestHi: u64, phase: u64,
                         captured: bool, brkBase: u64, brkCurrent: u64, brkEnd: u64, mem: Memory)

  /** A step either returns to the tool or ends the process for good. */
  datatype Outcome = Running(st: State, result: u64) | Terminal(code: nat, final: Memory)

  function MemOf(o: Outcome): Memory
  {
    match o case Running(st, _) => st.mem case Terminal(_, m) => m
  }

  /** The least page range around a request, refusing empty and wrapping ones. */
  ghost function PageExtent(addr: u64, bytes: u64): Option<(u64, u64)>
  {
    if bytes == 0 || addr > MAX64 - bytes || addr + bytes > MAX64 - (PAGE - 1) then None
    else if Ceil(addr + bytes) > Floor(addr) then Some((Floor(addr), Ceil(addr + bytes)))
    else None
  }

  function ExtentOf(addr: u64, bytes: u64): (r: Option<(u64, u64)>)
    ensures r == PageExtent(addr, bytes)
  {
    if bytes == 0 || addr > MAX64 - bytes || addr + bytes > MAX64 - (PAGE - 1) then None
    else if Up(addr + bytes) > Down(addr) then Some((Down(addr), Up(addr + bytes)))
    else None
  }

  predicate Forbidden(st: State, lo: u64, hi: u64)
  {
    || Overlaps(lo, hi, GATE_BASE, BOOTSTRAP_END)
    || Overlaps(lo, hi, CONTROL_ADDR, RESUME_ADDR + PAGE)
    || Overlaps(lo, hi, SIGNAL_BASE, SIGNAL_BASE + SIGNAL_BYTES)
    || Overlaps(lo, hi, STACK_BASE, STACK_BASE + STACK_BYTES)
    || Overlaps(lo, hi, BRK_BASE, BRK_BASE + BRK_BYTES)
    || Overlaps(lo, hi, st.guestLo, st.guestHi)
  }

  predicate ForbiddenAt(st: State, a: int)
  {
    || GATE_BASE <= a < BOOTSTRAP_END
    || CONTROL_ADDR <= a < RESUME_ADDR + PAGE
    || SIGNAL_BASE <= a < SIGNAL_BASE + SIGNAL_BYTES
    || STACK_BASE <= a < STACK_BASE + STACK_BYTES
    || BRK_BASE <= a < BRK_BASE + BRK_BYTES
    || st.guestLo <= a < st.guestHi
  }

  predicate InitialToolReservation(st: State, x: Args)
  {
    && st.phase == TOOL_INIT
    && x == Args(TOOL_REGION_BASE, TOOL_REGION_BYTES, PROT_NONE, MAP_PRIVATE_ANONYMOUS_NOREPLACE, MAX64, 0)
  }

  /** `track`: a refused update is terminal, never a dropped record. */
  ghost function TrackThen(st: State, lo: u64, bytes: u64, prot: u64, flags: u64, result: u64): Outcome
  {
    match Track(st.maps, lo, bytes, prot, flags)
    case None => Terminal(92, st.mem)
    case Some(maps) => Running(st.(maps := maps), result)
  }

  /** The code a mapping request is refused with before the kernel sees it. */
  ghost function MmapRefusal(st: State, x: Args): nat
  {
    if || x.a1 == 0 || (x.a1 > GIB && !InitialToolReservation(st, x))
       || WriteExec(x.a2) || (Executable(x.a2) && Anonymous(x.a3)) then 111
    else if (Fixed(x.a3) || NoReplace(x.a3)) && !Permits(st, x.a0, x.a1, Fixed(x.a3)) then 112
    else 0
  }

  /** The range is well formed, not forbidden and, when asked, all tracked. */
  ghost predicate Permits(st: State, addr: u64, bytes: u64, cover: bool)
  {
    var asked := PageExtent(addr, bytes);
    && asked.Some? && !Forbidden(st, asked.value.0, asked.value.1)
    && (cover ==> CoveredBy(st.maps, asked.value.0, asked.value.1))
  }

  /** What follows a successful mapping at `at`. */
  ghost function MmapCommit(st: State, x: Args, at: u64): Outcome
  {
    if !Permits(st, at, x.a1, false) || PageExtent(at, x.a1).value.0 != at then
      Terminal(113, st.mem)
    else
      var (lo, hi) := PageExtent(at, x.a1).value;
      TrackThen(st, lo, hi - lo, x.a2, Unplaced(x.a3), at)
  }

  ghost function MmapStep(st: State, x: Args, reply: Reply): Outcome
  {
    var refusal := MmapRefusal(st, x);
    if refusal != 0 then Terminal(refusal, st.mem)
    else if Failed(reply.result) then Running(st.(mem := reply.mem), reply.result)
    else MmapCommit(st.(mem := reply.mem), x, reply.result)
  }

  /** The words of the first tracked extent that encloses [lo, hi). */
  function Enclosing(s: seq<Extent>, lo: u64, hi: u64): Option<Attr>
  {
    if s == [] then None
    else if s[0].lo <= lo && s[0].hi >= hi then Some(AttrOf(s[0]))
    else Enclosing(s[1..], lo, hi)
  }

  /** The words a remap carries over, unless it is refused. */
  ghost function MremapSource(st: State, x: Args): Option<Attr>
  {
    if !Permits(st, x.a0, x.a1, true) || x.a2 == 0 || x.a2 > GIB || x.a3 > 1 then None
    else
      var (lo, hi) := PageExtent(x.a0, x.a1).value;
      var found := Enclosing(st.maps, lo, hi);
      if || found.None? || found.value.prot == DROP_MAP
         || Executable(found.value.prot) || !Anonymous(found.value.flags) then None
      else found
  }

  /** What follows a successful remap to `at`. */
  ghost function MremapCommit(st: State, x: Args, source: Attr, at: u64): Outcome
    requires PageExtent(x.a0, x.a1).Some?
  {
    var (lo, hi) := PageExtent(x.a0, x.a1).value;
    var dropped := TrackThen(st, lo, hi - lo, DROP_MAP, 0, at);
    if dropped.Terminal? then dropped else MremapPlace(dropped.st, x, source, at)
  }

  /** Recording the new range of a remap, once the old one is erased. */
  ghost function MremapPlace(st: State, x: Args, source: Attr, at: u64): Outcome
  {
    if !Permits(st, at, x.a2, false) then Terminal(114, st.mem)
    else
      var (lo, hi) := PageExtent(at, x.a2).value;
      TrackThen(st, lo, hi - lo, source.prot, source.flags, at)
  }

  ghost function MremapStep(st: State, x: Args, reply: Reply): Outcome
  {
    var source := MremapSource(st, x);
    if source.None? then Terminal(114, st.mem)
    else if Failed(reply.result) then Running(st.(mem := reply.mem), reply.result)
    else MremapCommit(st.(mem := reply.mem), x, source.value, reply.result)
  }

  /** Re-track the part of one snapshot entry that lies in [lo, hi). */
  ghost function RetrackOne(live: seq<Extent>, m: Extent, lo: u64, hi: u64, prot: u64): Option<seq<Extent>>
    requires lo < hi && m.lo < m.hi
  {
    if !Overlaps(lo, hi, m.lo, m.hi) then Some(live)
    else
      var start := if lo > m.lo then lo else m.lo;
      var end := if hi < m.hi then hi else m.hi;
      Track(live, start, end - start, prot, m.flags)
  }

  /** The re-tracking loop of mprotect after i snapshot entries: it reads the
      snapshot s while the live list changes under it. */
  ghost function Retrack(s: seq<Extent>, i: nat, lo: u64, hi: u64, prot: u64): Option<seq<Extent>>
    requires i <= |s| && lo < hi && Nonempty(s)
  {
    if i == 0 then Some(s)
    else
      var live := Retrack(s, i - 1, lo, hi, prot);
      if live.None? then None else RetrackOne(live.value, s[i - 1], lo, hi, prot)
  }

  predicate AnonymousOverlap(s: seq<Extent>, lo: u64, hi: u64)
  {
    exists i :: 0 <= i < |s| && Overlaps(lo, hi, s[i].lo, s[i].hi) && Anonymous(s[i].flags)
  }

  predicate Protects(nr: Nr) { nr == Mprotect || nr == PkeyMprotect }

  /** The code a range call is refused with before the kernel sees it. */
  ghost function RangeRefusal(st: State, nr: Nr, x: Args): nat
  {
    if !Permits(st, x.a0, x.a1, true) then 115
    else
      var (lo, hi) := PageExtent(x.a0, x.a1).value;
      if Protects(nr) && (WriteExec(x.a2) || (nr == PkeyMprotect && x.a3 != 0)
                          || (Executable(x.a2) && AnonymousOverlap(st.maps, lo, hi))) then 116
      else 0
  }

  /** What follows a successful munmap, mprotect, pkey_mprotect or madvise. */
  ghost function RangeCommit(st: State, nr: Nr, x: Args): Outcome
    requires PageExtent(x.a0, x.a1).Some? && Nonempty(st.maps)
  {
    var (lo, hi) := PageExtent(x.a0, x.a1).value;
    if nr == Munmap then
      TrackThen(st, lo, hi - lo, DROP_MAP, 0, 0)
    else if Protects(nr) then
      ProtectCommit(st, lo, hi, x.a2)
    else
      Running(st, 0)
  }

  ghost function ProtectCommit(st: State, lo: u64, hi: u64, prot: u64): Outcome
    requires lo < hi && Nonempty(st.maps)
  {
    match Retrack(st.maps, |st.maps|, lo, hi, prot)
    case None => Terminal(92, st.mem)
    case Some(maps) => Running(st.(maps := maps), 0)
  }

  ghost function RangeStep(st: State, nr: Nr, x: Args, reply: Reply): Outcome
    requires Nonempty(st.maps)
  {
    var refusal := RangeRefusal(st, nr, x);
    if refusal != 0 then Terminal(refusal, st.mem)
    else if reply.result != 0 then Running(st.(mem := reply.mem), reply.result)
    else RangeCommit(st.(mem := reply.mem), nr, x)
  }

  ghost function RelayStep(st: State, nr: Nr, x: Args, reply: Reply): Outcome
    requires Nonempty(st.maps)
  {
    match nr
    case Mmap => MmapStep(st, x, reply)
    case Mremap => MremapStep(st, x, reply)
    case _ => RangeStep(st, nr, x, reply)
  }

  /** The call is made, rather than refused. */
  ghost predicate Forwards(st: State, nr: Nr, x: Args)
  {
    match nr
    case Mmap => MmapRefusal(st, x) == 0
    case Mremap => MremapSource(st, x).Some?
    case _ => RangeRefusal(st, nr, x) == 0
  }

  // ---- the owned program break ----

  /** The protection change a break request makes, if any. */
  ghost function BrkProtect(st: State, requested: u64): Args
  {
    var before, after := Ceil(st.brkCurrent), Ceil(requested);
    if after > before then Args(before, after - before, PROT_READ_WRITE, 0, 0, 0)
    else Args(after, before - after, PROT_NONE, 0, 0, 0)
  }

  ghost function BrkDiscard(st: State, requested: u64): Args
  {
    BrkProtect(st, requested).(a2 := MADV_DONTNEED)
  }

  /** Growing opens the new pages to the tool. */
  ghost function GrowStep(st: State, requested: u64, x: Args, protect: Reply): Outcome
  {
    if protect.result != 0 then Terminal(73, protect.mem)
    else GrowRecord(st.(mem := protect.mem), requested, x)
  }

  ghost function GrowRecord(st: State, requested: u64, x: Args): Outcome
  {
    match Track(st.maps, x.a0, x.a1, x.a2, MAP_PRIVATE_ANONYMOUS)
    case None => Terminal(73, st.mem)
    case Some(maps) => Running(st.(maps := maps, brkCurrent := requested), requested)
  }

  /** Shrinking closes the old pages and discards their contents. */
  ghost function ShrinkStep(st: State, requested: u64, x: Args, protect: Reply, discard: Reply): Outcome
  {
    if protect.result != 0 then Terminal(73, protect.mem)
    else CloseStep(st.(mem := protect.mem), requested, x, discard)
  }

  ghost function CloseStep(st: State, requested: u64, x: Args, discard: Reply): Outcome
  {
    match Track(st.maps, x.a0, x.a1, x.a2, MAP_PRIVATE_ANONYMOUS)
    case None => Terminal(73, st.mem)
    case Some(maps) => DiscardStep(st.(maps := maps), requested, discard)
  }

  ghost function DiscardStep(st: State, requested: u64, discard: Reply): Outcome
  {
    if discard.result != 0 then Terminal(73, discard.mem)
    else Running(st.(mem := discard.mem, brkCurrent := requested), requested)
  }

  /** A permitted request moves the break to it. */
  ghost function BrkMove(st: State, requested: u64, protect: Reply, discard: Reply): Outcome
  {
    var x := BrkProtect(st, requested);
    if x.a1 == 0 then Running(st.(brkCurrent := requested), requested)
    else if x.a2 == PROT_READ_WRITE then GrowStep(st, requested, x, protect)
    else ShrinkStep(st, requested, x, protect, discard)
  }

  /** The request moves the break over a page boundary, so calls are made for it. */
  ghost predicate BrkCalls(st: State, requested: u64)
  {
    && st.captured && st.brkBase == BRK_BASE && st.brkEnd == BRK_BASE + BRK_BYTES
    && st.brkBase <= st.brkCurrent <= st.brkEnd && st.brkBase <= requested <= st.brkEnd
    && Ceil(st.brkCurrent) != Ceil(requested)
  }

  /** The second call, which discards the closed pages, is made as well. */
  ghost predicate BrkDiscards(st: State, requested: u64, protect: Reply)
  {
    var x := BrkProtect(st, requested);
    && BrkCalls(st, requested) && Ceil(requested) < Ceil(st.brkCurrent) && protect.result == 0
    && Track(st.maps, x.a0, x.a1, x.a2, MAP_PRIVATE_ANONYMOUS).Some?
  }

  ghost function BrkStep(st: State, requested: u64, protect: Reply, discard: Reply): Outcome
  {
    if || !st.captured || st.brkBase != BRK_BASE || st.brkEnd != BRK_BASE + BRK_BYTES
       || st.brkCurrent < st.brkBase || st.brkCurrent > st.brkEnd then
      Terminal(72, st.mem)
    else if || requested == 0 || requested < st.brkBase || requested > st.brkEnd
            || requested > MAX64 - (PAGE - 1) then
      Running(st, st.brkCurrent)
    else
      BrkMove(st, requested, protect, discard)
  }

  /** Reserving the break region when the process state is captured. */
  const CAPTURE_ARGS: Args := Args(BRK_BASE, BRK_BYTES, PROT_NONE, MAP_PRIVATE_ANONYMOUS_NOREPLACE, MAX64, 0)

  ghost function CaptureStep(st: State, reply: Reply): Outcome
  {
    if reply.result != BRK_BASE then
      Terminal(129, reply.mem)
    else
      TrackThen(st.(captured := true, brkBase := BRK_BASE, brkCurrent := BRK_BASE, brkEnd := BRK_BASE + BRK_BYTES,
                    mem := reply.mem),
                BRK_BASE, BRK_BYTES, PROT_NONE, MAP_PRIVATE_ANONYMOUS, 0)
  }
}
