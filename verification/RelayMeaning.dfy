/** What a relayed call does, said of its arguments, the page map and the reserved
    windows: when it is forwarded, when it ends the process, what it returns and
    what is recorded for it. */
module RelayMeaning {
  import opened Words
  import opened Extents
  import opened TrackSpec
  import opened Memory
  import opened Relay
  import opened RelayProofs
  import opened Room

  // ---- which calls are forwarded ----

  /** a lies in a page that the request touches. */
  ghost predicate Touches(addr: u64, bytes: u64, a: int)
    requires addr + bytes <= MAX64 - (PAGE - 1)
  {
    Floor(addr) <= a < Ceil(addr + bytes)
  }

  /** A nonempty request that does not wrap, none of whose pages holds a reserved
      address; a guest range recorded backwards also counts from the inside. */
  ghost predicate Open(st: State, addr: u64, bytes: u64)
  {
    && 0 < bytes && addr + bytes <= MAX64 - (PAGE - 1)
    && (forall a: int :: Touches(addr, bytes, a) ==> !ForbiddenAt(st, a))
    && !(st.guestHi <= st.guestLo && Floor(addr) < st.guestHi && st.guestLo < Ceil(addr + bytes))
  }

  /** Every page the request touches is tracked. */
  ghost predicate Owned(st: State, addr: u64, bytes: u64)
    requires addr + bytes <= MAX64 - (PAGE - 1)
  {
    forall a: int :: Touches(addr, bytes, a) ==> Lookup(st.maps, a).Some?
  }

  lemma PermitsMeans(st: State, addr: u64, bytes: u64, cover: bool)
    ensures Permits(st, addr, bytes, cover) <==> Open(st, addr, bytes) && (cover ==> Owned(st, addr, bytes))
  {
    PageExtentLeast(addr, bytes);
    if PageExtent(addr, bytes).Some? {
      var (lo, hi) := PageExtent(addr, bytes).value;
      ForbiddenExactly(st, lo, hi);
      forall a: int ensures Touches(addr, bytes, a) <==> lo <= a < hi {
      }
    }
  }

  /** What an mmap may ask for: at most one GiB, or the tool's one reservation; never
      writable and executable, nor executable without a file. */
  predicate MmapShape(st: State, x: Args)
  {
    && 0 < x.a1
    && (x.a1 <= 0x4000_0000 || (st.phase == 2 && x == Args(0x6000_0000_0000, 0x1_0000_0000, 0, 0x100022, MAX64, 0)))
    && !(Writable(x.a2) && Executable(x.a2)) && !(Executable(x.a2) && Anonymous(x.a3))
  }

  /** And where: a fixed one only where nothing is reserved, and a replacing one only
      where everything is tracked. */
  ghost predicate MmapAllowed(st: State, x: Args)
  {
    && MmapShape(st, x)
    && (Fixed(x.a3) || NoReplace(x.a3) ==> Open(st, x.a0, x.a1))
    && (Fixed(x.a3) ==> Owned(st, x.a0, x.a1))
  }

  /** An mremap: of unreserved pages that are all tracked with the same words, not
      executable and without a file, to at most one GiB, anywhere or in place. */
  ghost predicate MremapAllowed(st: State, x: Args)
  {
    && Open(st, x.a0, x.a1) && 0 < x.a2 <= 0x4000_0000 && x.a3 <= 1
    && exists w: Attr :: Uniform(st, x.a0, x.a1, w) && !Executable(w.prot) && Anonymous(w.flags)
  }

  ghost predicate Uniform(st: State, addr: u64, bytes: u64, w: Attr)
    requires addr + bytes <= MAX64 - (PAGE - 1)
  {
    forall a: int :: Touches(addr, bytes, a) ==> Lookup(st.maps, a) == Some(w)
  }

  /** The other calls: of unreserved pages that are all tracked. A protection is
      never writable and executable, executable only over files, and comes without
      a key. */
  ghost predicate RangeAllowed(st: State, nr: Nr, x: Args)
  {
    && Open(st, x.a0, x.a1) && Owned(st, x.a0, x.a1)
    && (nr == Mprotect || nr == PkeyMprotect ==>
          && !(Writable(x.a2) && Executable(x.a2))
          && (Executable(x.a2) ==>
                forall a: int :: Touches(x.a0, x.a1, a) ==> !Anonymous(Lookup(st.maps, a).value.flags)))
    && (nr == PkeyMprotect ==> x.a3 == 0)
  }

  ghost predicate Allowed(st: State, nr: Nr, x: Args)
  {
    match nr
    case Mmap => MmapAllowed(st, x)
    case Mremap => MremapAllowed(st, x)
    case _ => RangeAllowed(st, nr, x)
  }

  lemma MmapForwards(st: State, x: Args)
    ensures MmapRefusal(st, x) == 0 <==> MmapAllowed(st, x)
  {
    PermitsMeans(st, x.a0, x.a1, Fixed(x.a3));
    PermitsMeans(st, x.a0, x.a1, false);
  }

  /** Every address of [lo, hi) has these words. */
  ghost predicate AllHave(s: seq<Extent>, lo: int, hi: int, w: Attr)
  {
    forall a: int :: lo <= a < hi ==> Lookup(s, a) == Some(w)
  }

  /** In a coalesced list one extent encloses a range exactly when every address of
      it has the same words. */
  lemma EnclosingMeans(s: seq<Extent>, lo: u64, hi: u64, w: Attr)
    requires Sorted(s) && Separated(s) && lo < hi
    ensures Enclosing(s, lo, hi) == Some(w) <==> AllHave(s, lo, hi, w)
  {
    if Enclosing(s, lo, hi) == Some(w) {
      forall a: int | lo <= a < hi ensures Lookup(s, a) == Some(w) {
        EnclosingLookup(s, lo, hi, a);
      }
    }
    if AllHave(s, lo, hi, w) {
      assert Lookup(s, lo) == Some(w);
      var i := LookupSome(s, lo);
      ReachesEnd(s, i, lo, hi, w);
      EnclosingFound(s, i, lo, hi);
      EnclosingLookup(s, lo, hi, lo);
    }
  }

  lemma ReachesEnd(s: seq<Extent>, i: nat, lo: u64, hi: u64, w: Attr)
    requires Sorted(s) && Separated(s) && i < |s| && Within(lo, s[i]) && AttrOf(s[i]) == w
    requires AllHave(s, lo, hi, w)
    ensures hi <= s[i].hi
  {
    if s[i].hi < hi {
      var a: int := s[i].hi;
      assert Lookup(s, a) == Some(w);
      var j := LookupSome(s, a);
      assert i < j;
      assert a <= s[i + 1].lo < s[i + 1].hi;
      assert j == i + 1 && Mergeable(s[i], s[j]);
      assert false;
    }
  }

  lemma {:induction false} EnclosingFound(s: seq<Extent>, i: nat, lo: u64, hi: u64)
    requires i < |s| && s[i].lo <= lo && hi <= s[i].hi
    ensures Enclosing(s, lo, hi).Some?
  {
    if i > 0 && !(s[0].lo <= lo && s[0].hi >= hi) {
      EnclosingFound(s[1..], i - 1, lo, hi);
    }
  }

  lemma MremapForwards(st: State, x: Args)
    requires Inv(st)
    ensures MremapSource(st, x).Some? <==> MremapAllowed(st, x)
    ensures forall w: Attr :: MremapSource(st, x) == Some(w) ==> Open(st, x.a0, x.a1) && Uniform(st, x.a0, x.a1, w)
  {
    PermitsMeans(st, x.a0, x.a1, true);
    if Open(st, x.a0, x.a1) {
      PageExtentLeast(x.a0, x.a1);
      var (lo, hi) := PageExtent(x.a0, x.a1).value;
      forall w: Attr ensures Uniform(st, x.a0, x.a1, w) <==> Enclosing(st.maps, lo, hi) == Some(w) {
        EnclosingMeans(st.maps, lo, hi, w);
        assert forall a: int :: Touches(x.a0, x.a1, a) <==> lo <= a < hi;
        assert Uniform(st, x.a0, x.a1, w) <==> AllHave(st.maps, lo, hi, w);
      }
      if w: Attr :| Uniform(st, x.a0, x.a1, w) {
        assert Touches(x.a0, x.a1, lo) && SafeAt(st.maps, lo);
        assert Owned(st, x.a0, x.a1);
      }
    }
  }

  lemma AnonymousMeans(st: State, addr: u64, bytes: u64)
    requires Sorted(st.maps) && PageExtent(addr, bytes).Some? && addr + bytes <= MAX64 - (PAGE - 1)
    requires Owned(st, addr, bytes)
    ensures var (lo, hi) := PageExtent(addr, bytes).value;
      AnonymousOverlap(st.maps, lo, hi) <==>
        exists a: int :: Touches(addr, bytes, a) && Anonymous(Lookup(st.maps, a).value.flags)
  {
    var s := st.maps;
    var (lo, hi) := PageExtent(addr, bytes).value;
    if AnonymousOverlap(s, lo, hi) {
      var i :| 0 <= i < |s| && Overlaps(lo, hi, s[i].lo, s[i].hi) && Anonymous(s[i].flags);
      var a: int := if lo < s[i].lo then s[i].lo else lo;
      LookupAt(s, i, a);
      assert Touches(addr, bytes, a);
    }
    if a: int :| Touches(addr, bytes, a) && Anonymous(Lookup(s, a).value.flags) {
      var i := LookupSome(s, a);
      assert Overlaps(lo, hi, s[i].lo, s[i].hi);
    }
  }

  lemma RangeForwards(st: State, nr: Nr, x: Args)
    requires Inv(st)
    ensures RangeRefusal(st, nr, x) == 0 <==> RangeAllowed(st, nr, x)
    ensures RangeRefusal(st, nr, x) in {0, 115, 116}
    ensures RangeRefusal(st, nr, x) == 115 <==> !(Open(st, x.a0, x.a1) && Owned(st, x.a0, x.a1))
  {
    PermitsMeans(st, x.a0, x.a1, true);
    if Open(st, x.a0, x.a1) && Owned(st, x.a0, x.a1) {
      PageExtentLeast(x.a0, x.a1);
      AnonymousMeans(st, x.a0, x.a1);
    }
  }

  /** A call is forwarded exactly when it is allowed. */
  lemma ForwardsExactly(st: State, nr: Nr, x: Args)
    requires Inv(st)
    ensures Forwards(st, nr, x) <==> Allowed(st, nr, x)
  {
    match nr
    case Mmap => MmapForwards(st, x);
    case Mremap => MremapForwards(st, x);
    case _ => RangeForwards(st, nr, x);
  }

  // ---- what a call returns and when it ends the process ----

  /** The kernel did what was asked. */
  predicate Succeeded(nr: Nr, result: u64)
  {
    if nr == Mmap || nr == Mremap then !Failed(result) else result == 0
  }

  /** A call that returns gives the tool the kernel's own answer, and leaves the
      memory as the kernel left it. */
  lemma CallReturns(st: State, nr: Nr, x: Args, reply: Reply)
    requires Nonempty(st.maps) && RelayStep(st, nr, x, reply).Running?
    ensures var o := RelayStep(st, nr, x, reply); o.result == reply.result && o.st.mem == reply.mem
    ensures !Succeeded(nr, reply.result) ==> RelayStep(st, nr, x, reply).st == st.(mem := reply.mem)
  {
  }

  /** The code of a call that is not allowed. */
  ghost function RefusalOf(st: State, nr: Nr, x: Args): nat
  {
    match nr
    case Mmap => if MmapShape(st, x) then 112 else 111
    case Mremap => 114
    case _ => if Open(st, x.a0, x.a1) && Owned(st, x.a0, x.a1) then 116 else 115
  }

  /** A call that is not allowed ends the process before the kernel sees it. */
  lemma CallRefused(st: State, nr: Nr, x: Args, reply: Reply)
    requires Inv(st) && !Allowed(st, nr, x)
    ensures RelayStep(st, nr, x, reply) == Terminal(RefusalOf(st, nr, x), st.mem)
  {
    match nr
    case Mmap =>
      MmapForwards(st, x);
      MmapCode(st, x);
    case Mremap => MremapForwards(st, x);
    case _ => RangeForwards(st, nr, x);
  }

  lemma MmapCode(st: State, x: Args)
    ensures MmapRefusal(st, x) == 111 <==> !MmapShape(st, x)
    ensures MmapRefusal(st, x) in {0, 111, 112}
  {
  }

  /** Where a successful mmap or mremap put the pages. */
  ghost predicate Lands(st: State, nr: Nr, x: Args, reply: Reply)
  {
    && (nr == Mmap && Succeeded(nr, reply.result) ==> Open(st, reply.result, x.a1))
    && (nr == Mremap && Succeeded(nr, reply.result) ==> Open(st, reply.result, x.a2))
  }

  /** How an allowed call may still end the process: the kernel put its pages where
      something is reserved, or the tracker holds more than 62 extents. */
  predicate Stops(st: State, nr: Nr, reply: Reply, o: Outcome, lands: bool)
  {
    && o.Terminal? && o.final == reply.mem
    && ((!lands && o.code == if nr == Mmap then 113 else 114) || (o.code == 92 && |st.maps| > 62))
  }

  /** An allowed call returns, or stops for one of those reasons; it never returns
      when its pages are where something is reserved. */
  lemma CallStops(st: State, nr: Nr, x: Args, reply: Reply)
    requires Inv(st) && Answers(st.mem, nr, x, reply) && Allowed(st, nr, x)
    ensures var o, lands := RelayStep(st, nr, x, reply), Lands(st, nr, x, reply);
      (o.Running? && lands) || Stops(st, nr, reply, o, lands)
  {
    ForwardsExactly(st, nr, x);
    if |st.maps| <= 62 {
      RelayRoom(st, nr, x, reply);
    }
    if nr == Mmap && !Failed(reply.result) {
      MmapLands(st, x, reply);
    } else if nr == Mremap && !Failed(reply.result) {
      MremapLands(st, x, reply);
    }
  }

  /** With at most 62 extents held, a call returns exactly when it is allowed and
      the kernel did not put its pages where something is reserved. */
  lemma CallEnds(st: State, nr: Nr, x: Args, reply: Reply)
    requires Inv(st) && |st.maps| <= 62 && Answers(st.mem, nr, x, reply)
    ensures RelayStep(st, nr, x, reply).Running? <==> Allowed(st, nr, x) && Lands(st, nr, x, reply)
  {
    if Allowed(st, nr, x) {
      CallStops(st, nr, x, reply);
    } else {
      CallRefused(st, nr, x, reply);
    }
  }

  lemma MmapLands(st: State, x: Args, reply: Reply)
    requires Inv(st) && MmapRefusal(st, x) == 0 && !Failed(reply.result) && Placed(reply.result, x.a1)
    ensures var o := MmapStep(st, x, reply);
      if Open(st, reply.result, x.a1) then o.Running? || o == Terminal(92, reply.mem)
      else o == Terminal(113, reply.mem)
  {
    var t := st.(mem := reply.mem);
    PermitsMeans(t, reply.result, x.a1, false);
    var hi := ExtentRange(reply.result, x.a1);
    SameWindows(st, t, reply.result, x.a1);
  }

  lemma SameWindows(st: State, t: State, addr: u64, bytes: u64)
    requires t.guestLo == st.guestLo && t.guestHi == st.guestHi
    ensures Open(t, addr, bytes) <==> Open(st, addr, bytes)
  {
    assert forall a: int :: ForbiddenAt(t, a) == ForbiddenAt(st, a);
  }

  lemma MremapLands(st: State, x: Args, reply: Reply)
    requires Inv(st) && MremapSource(st, x).Some? && !Failed(reply.result)
    ensures var o := MremapStep(st, x, reply);
      if Open(st, reply.result, x.a2) then o.Running? || o == Terminal(92, reply.mem)
      else o == Terminal(114, reply.mem) || o == Terminal(92, reply.mem)
  {
    var t := st.(mem := reply.mem);
    var source := MremapSource(st, x).value;
    var (lo, hi) := PageExtent(x.a0, x.a1).value;
    var dropped := TrackThen(t, lo, hi - lo, DROP_MAP, 0, reply.result);
    assert MremapStep(st, x, reply) ==
      if dropped.Terminal? then dropped else MremapPlace(dropped.st, x, source, reply.result);
    if dropped.Running? {
      PermitsMeans(dropped.st, reply.result, x.a2, false);
      SameWindows(st, dropped.st, reply.result, x.a2);
    }
  }

  // ---- what is recorded ----

  /** The flags without MAP_FIXED (bit 4) and MAP_FIXED_NOREPLACE (bit 20). */
  function Bare(flags: u64): int { flags - 0x10 * (flags / 0x10 % 2) - 0x100000 * (flags / 0x100000 % 2) }

  lemma FixedBit(f: u64)
    ensures Fixed(f) <==> f / 0x10 % 2 == 1
  {
    var q, m := f / 0x20, f % 0x20;
    assert f / 0x10 == 2 * q + m / 0x10;
  }

  lemma NoReplaceBit(f: u64)
    ensures NoReplace(f) <==> f / 0x100000 % 2 == 1
  {
    var q, m := f / 0x200000, f % 0x200000;
    assert f / 0x100000 == 2 * q + m / 0x100000;
  }

  lemma UnplacedIsBare(flags: u64)
    ensures Unplaced(flags) == Bare(flags)
  {
    FixedBit(flags);
    NoReplaceBit(flags);
    if Fixed(flags) {
      HighKept(flags);
      NoReplaceBit(flags - 0x10);
    }
  }

  /** Clearing bit 4 leaves bit 20. */
  lemma HighKept(flags: u64)
    requires Fixed(flags)
    ensures (flags - 0x10) / 0x100000 == flags / 0x100000
  {
    var q, m := flags / 0x100000, flags % 0x100000;
    assert m % 0x20 == flags % 0x20 by {
      AddMultiple(m, 0x8000 * q, 0x20);
      assert flags == m + 0x20 * (0x8000 * q);
    }
    assert m >= 0x10;
    assert flags - 0x10 == 0x100000 * q + (m - 0x10);
  }

  /** What the tracker says of a once a call has returned. */
  ghost function RecordAfter(st: State, nr: Nr, x: Args, result: u64, a: int): Option<Attr>
    requires Allowed(st, nr, x) && Succeeded(nr, result)
    requires nr == Mmap ==> result + x.a1 <= MAX64 - (PAGE - 1)
    requires nr == Mremap ==> result + x.a2 <= MAX64 - (PAGE - 1)
  {
    var was := Lookup(st.maps, a);
    match nr
    case Mmap => if Touches(result, x.a1, a) then Some(Attr(x.a2, Bare(x.a3))) else was
    case Mremap =>
      if Touches(result, x.a2, a) then Lookup(st.maps, x.a0) else if Touches(x.a0, x.a1, a) then None else was
    case Munmap => if Touches(x.a0, x.a1, a) then None else was
    case Madvise => was
    case _ => if Touches(x.a0, x.a1, a) then Some(Attr(x.a2, was.value.flags)) else was
  }

  lemma MmapRecorded(st: State, x: Args, reply: Reply, a: int)
    requires Inv(st) && MmapRefusal(st, x) == 0 && !Failed(reply.result) && Placed(reply.result, x.a1)
    requires MmapStep(st, x, reply).Running?
    ensures Lookup(MmapStep(st, x, reply).st.maps, a) ==
      if Touches(reply.result, x.a1, a) then Some(Attr(x.a2, Bare(x.a3))) else Lookup(st.maps, a)
  {
    var at, maps := reply.result, MmapStep(st, x, reply).st.maps;
    var hi := ExtentRange(at, x.a1);
    UnplacedIsBare(x.a3);
    FloorUnique(at, at);
    assert Updated(st.maps, maps, at, hi, x.a2, Unplaced(x.a3));
    assert x.a2 != DROP_MAP;
  }

  lemma MremapRecorded(st: State, x: Args, reply: Reply, a: int)
    requires Inv(st) && MremapSource(st, x).Some? && Answers(st.mem, Mremap, x, reply) && !Failed(reply.result)
    requires MremapStep(st, x, reply).Running?
    ensures Lookup(MremapStep(st, x, reply).st.maps, a) ==
      if Touches(reply.result, x.a2, a) then Lookup(st.maps, x.a0)
      else if Touches(x.a0, x.a1, a) then None
      else Lookup(st.maps, a)
  {
    var found := MremapSource(st, x).value;
    var hi := ExtentRange(x.a0, x.a1);
    var nhi := ExtentRange(reply.result, x.a2);
    FloorUnique(x.a0, x.a0);
    FloorUnique(reply.result, reply.result);
    EnclosingLookup(st.maps, x.a0, hi, x.a0);
    assert SafeAt(st.maps, x.a0);
    MremapRecords(st, x, reply, hi, nhi, found);
  }

  lemma MunmapRecorded(st: State, x: Args, reply: Reply, a: int)
    requires Inv(st) && RangeRefusal(st, Munmap, x) == 0 && reply.result == 0
    requires RangeStep(st, Munmap, x, reply).Running?
    ensures Lookup(RangeStep(st, Munmap, x, reply).st.maps, a) ==
      if Touches(x.a0, x.a1, a) then None else Lookup(st.maps, a)
  {
    PageExtentLeast(x.a0, x.a1);
    var (lo, hi) := PageExtent(x.a0, x.a1).value;
    assert Updated(st.maps, RangeStep(st, Munmap, x, reply).st.maps, lo, hi, DROP_MAP, 0);
  }

  lemma ProtectRecorded(st: State, nr: Nr, x: Args, reply: Reply, a: int)
    requires Inv(st) && Protects(nr) && RangeRefusal(st, nr, x) == 0 && reply.result == 0
    requires RangeStep(st, nr, x, reply).Running? && x.a0 + x.a1 <= MAX64 - (PAGE - 1)
    ensures Touches(x.a0, x.a1, a) ==> Lookup(st.maps, a).Some?
    ensures Lookup(RangeStep(st, nr, x, reply).st.maps, a) ==
      if Touches(x.a0, x.a1, a) then Some(Attr(x.a2, Lookup(st.maps, a).value.flags)) else Lookup(st.maps, a)
  {
    PageExtentLeast(x.a0, x.a1);
    var (lo, hi) := PageExtent(x.a0, x.a1).value;
    assert x.a2 != DROP_MAP;
    RetrackNet(st.maps, |st.maps|, lo, hi, x.a2);
    assert st.maps[..|st.maps|] == st.maps;
  }

  /** A successful call that returns is recorded address by address: a mapping with
      the protection and the flags asked for, the placing bits aside; a remap as its
      source was; an erased range not at all; a new protection over the old flags;
      and everything else as before. */
  lemma CallRecords(st: State, nr: Nr, x: Args, reply: Reply, a: int)
    requires Inv(st) && Answers(st.mem, nr, x, reply) && Succeeded(nr, reply.result)
    requires RelayStep(st, nr, x, reply).Running?
    ensures Allowed(st, nr, x)
    ensures nr == Mmap ==> reply.result + x.a1 <= MAX64 - (PAGE - 1)
    ensures nr == Mremap ==> reply.result + x.a2 <= MAX64 - (PAGE - 1)
    ensures Lookup(RelayStep(st, nr, x, reply).st.maps, a) == RecordAfter(st, nr, x, reply.result, a)
  {
    ForwardsExactly(st, nr, x);
    match nr
    case Mmap => MmapRecorded(st, x, reply, a);
    case Mremap => MremapRecorded(st, x, reply, a);
    case Munmap => MunmapRecorded(st, x, reply, a);
    case Madvise =>
    case _ => ProtectRecorded(st, nr, x, reply, a);
  }

  // ---- the owned program break ----

  predicate InRegion(v: int) { 0x5400_0000_0000 <= v <= 0x5400_0080_0000 }

  /** A break request that returns moves the break to the request and returns it, if
      the request lies in the region; any other request, such as 0, asks for the
      break and changes nothing. */
  lemma BreakReturns(st: State, requested: u64, protect: Reply, discard: Reply)
    requires Inv(st) && BrkStep(st, requested, protect, discard).Running?
    ensures var o := BrkStep(st, requested, protect, discard);
      if InRegion(requested) then o.result == requested == o.st.brkCurrent else o == Running(st, st.brkCurrent)
  {
  }

  /** With at most 62 extents held, a break request ends the process exactly when it
      crosses a page boundary and the kernel refuses to reprotect the pages, or to
      discard those it gives back. */
  lemma BreakEnds(st: State, requested: u64, protect: Reply, discard: Reply)
    requires Inv(st)
    ensures var o := BrkStep(st, requested, protect, discard);
      && (|st.maps| <= 62 ==>
            (o.Terminal? <==>
               && InRegion(requested) && Ceil(requested) != Ceil(st.brkCurrent)
               && (protect.result != 0 || (Ceil(requested) < Ceil(st.brkCurrent) && discard.result != 0))))
      && (o.Terminal? ==> o.code == 73)
  {
    if |st.maps| <= 62 && InRegion(requested) {
      CeilInside(st.brkCurrent);
      CeilInside(requested);
      var x := BrkProtect(st, requested);
      if x.a1 != 0 {
        RecordSucceeds(st.maps, x.a0, x.a0 + x.a1, x.a2, MAP_PRIVATE_ANONYMOUS);
      }
    }
  }

  /** Without a captured break, or with one outside its region, any request ends the
      process. */
  lemma BreakUnowned(st: State, requested: u64, protect: Reply, discard: Reply)
    requires !(&& st.captured && st.brkBase == 0x5400_0000_0000 && st.brkEnd == 0x5400_0080_0000
               && InRegion(st.brkCurrent))
    ensures BrkStep(st, requested, protect, discard) == Terminal(72, st.mem)
  {
  }

  /** So a willing kernel grants every request inside the region. */
  lemma BreakGranted(st: State, requested: u64, protect: Reply, discard: Reply)
    requires Inv(st) && |st.maps| <= 62 && protect.result == 0 && discard.result == 0 && InRegion(requested)
    ensures var o := BrkStep(st, requested, protect, discard);
      o.Running? && o.result == requested == o.st.brkCurrent
  {
    BreakEnds(st, requested, protect, discard);
    BreakReturns(st, requested, protect, discard);
  }

  /** Moving the break keeps every byte below both the old and the new one, and the
      pages it opens are writable and zero. */
  lemma BreakBytes(st: State, requested: u64, protect: Reply, discard: Reply, a: int)
    requires Inv(st) && BrkAnswers(st, requested, protect, discard) && InRegion(requested)
    requires BrkStep(st, requested, protect, discard).Running? && BRK_BASE <= a < Ceil(requested)
    ensures var m := BrkStep(st, requested, protect, discard).st.mem;
      At(m, a) == if a < Ceil(st.brkCurrent) then At(st.mem, a) else Some(Cell(Mapping(3, true, false), 0))
  {
    CeilInside(st.brkCurrent);
    CeilInside(requested);
    var x := BrkProtect(st, requested);
    assert BrkAt(st, a) && AgreesAt(st, a);
    if x.a1 != 0 {
      CeilUnique(x.a0 + x.a1, x.a0 + x.a1);
      assert In(x.a0, x.a1, a) <==> x.a0 <= a < x.a0 + x.a1;
    }
  }
}
