/** What every relayed step and every break request keeps. */
module RelayProofs {
  import opened Words
  import opened Extents
  import opened TrackSpec
  import opened Memory
  import opened Relay

  // ---- page extents ----

  /** `extent` refuses exactly the empty and the wrapping requests, and
      otherwise yields the least page range around the request. */
  lemma PageExtentLeast(addr: u64, bytes: u64)
    ensures PageExtent(addr, bytes).None? <==> bytes == 0 || addr + bytes > MAX64 - (PAGE - 1)
    ensures PageExtent(addr, bytes).Some? ==>
      var (lo, hi) := PageExtent(addr, bytes).value;
      && Aligned(lo) && Aligned(hi) && lo <= addr && addr + bytes <= hi && lo < hi
      && forall l: int, h: int :: 0 <= l <= addr && addr + bytes <= h && Aligned(l) && Aligned(h) ==> l <= lo && hi <= h
  {
    if PageExtent(addr, bytes).Some? {
      var (lo, hi) := PageExtent(addr, bytes).value;
      forall l: int, h: int | 0 <= l <= addr && addr + bytes <= h && Aligned(l) && Aligned(h)
        ensures l <= lo && hi <= h
      {
        AlignedBelow(l, addr);
        var i: int :| h == PageAt(i);
        var j: int :| hi == PageAt(j);
      }
    }
  }

  /** The extent of an aligned request is the range the kernel works on. */
  lemma ExtentRange(addr: u64, bytes: u64) returns (hi: u64)
    requires bytes > 0 && Placed(addr, bytes)
    ensures hi == Ceil(addr + bytes) && Aligned(hi) && addr + bytes <= hi
    ensures PageExtent(addr, bytes) == Some((addr, hi))
    ensures forall a: int {:trigger In(addr, bytes, a)} :: In(addr, bytes, a) <==> addr <= a < hi
  {
    hi := Ceil(addr + bytes);
    FloorUnique(addr, addr);
  }

  /** `forbidden` holds exactly when some address of the range is forbidden; a
      guest range recorded backwards would also count from the inside. */
  lemma ForbiddenExactly(st: State, lo: u64, hi: u64)
    requires lo < hi
    ensures Forbidden(st, lo, hi) <==>
      || (exists a: int :: lo <= a < hi && ForbiddenAt(st, a))
      || (st.guestHi <= st.guestLo && lo < st.guestHi && st.guestLo < hi)
  {
    if Forbidden(st, lo, hi) && !(st.guestHi <= st.guestLo && lo < st.guestHi && st.guestLo < hi) {
      var start :=
        if Overlaps(lo, hi, GATE_BASE, BOOTSTRAP_END) then GATE_BASE
        else if Overlaps(lo, hi, CONTROL_ADDR, RESUME_ADDR + PAGE) then CONTROL_ADDR
        else if Overlaps(lo, hi, SIGNAL_BASE, SIGNAL_BASE + SIGNAL_BYTES) then SIGNAL_BASE
        else if Overlaps(lo, hi, STACK_BASE, STACK_BASE + STACK_BYTES) then STACK_BASE
        else if Overlaps(lo, hi, BRK_BASE, BRK_BASE + BRK_BYTES) then BRK_BASE
        else st.guestLo;
      var a: int := if lo < start then start else lo;
      assert lo <= a < hi && ForbiddenAt(st, a);
    }
  }

  lemma ForbiddenRange(st: State, lo: u64, hi: u64, a: int)
    requires !Forbidden(st, lo, hi) && lo <= a < hi
    ensures !ForbiddenAt(st, a)
  {
  }

  // ---- the invariant ----

  /** The gate and bootstrap window, which the relay may never touch. */
  predicate InWindow(a: int) { GATE_BASE <= a < BOOTSTRAP_END }

  /** What the tracker says of an address is how the kernel maps it. */
  predicate AgreesAt(st: State, a: int)
  {
    var t := Lookup(st.maps, a);
    t.Some? && !InWindow(a) ==> HowAt(st.mem, a) == Some(HowOf(t.value.prot, t.value.flags))
  }

  /** Nothing tracked is writable and executable, and no record is the sentinel. */
  predicate SafeAt(s: seq<Extent>, a: int)
  {
    var t := Lookup(s, a);
    t.Some? ==> !WriteExec(t.value.prot) && t.value.prot != DROP_MAP
  }

  /** Tracked code that is not file backed. */
  predicate AnonymousCodeAt(s: seq<Extent>, a: int)
  {
    var t := Lookup(s, a);
    t.Some? && Executable(t.value.prot) && Anonymous(t.value.flags)
  }

  /** All tracked code is file backed. */
  ghost predicate CodeBacked(s: seq<Extent>) { forall a: int :: !AnonymousCodeAt(s, a) }

  /** Whatever tracked code lacks a file in t lacked it in s already. */
  ghost predicate NoNewAnonymousCode(s: seq<Extent>, t: seq<Extent>)
  {
    forall a: int :: AnonymousCodeAt(t, a) ==> AnonymousCodeAt(s, a)
  }

  ghost predicate BrkAt(st: State, a: int)
  {
    && (BRK_BASE <= a < Ceil(st.brkCurrent) ==>
          Lookup(st.maps, a) == Some(Attr(PROT_READ_WRITE, MAP_PRIVATE_ANONYMOUS)))
    && (Ceil(st.brkCurrent) <= a < BRK_END ==>
          && Lookup(st.maps, a) == Some(Attr(PROT_NONE, MAP_PRIVATE_ANONYMOUS))
          && (At(st.mem, a).Some? ==> st.mem.cells[a].byte == 0))
  }

  predicate BrkBounds(st: State)
  {
    st.captured && st.brkBase == BRK_BASE && st.brkEnd == BRK_END && BRK_BASE <= st.brkCurrent <= BRK_END
  }

  ghost predicate Inv(st: State)
  {
    && Canonical(st.maps) && |st.maps| <= CAPACITY
    && BrkBounds(st)
    && forall a: int :: AgreesAt(st, a) && SafeAt(st.maps, a) && BrkAt(st, a)
  }

  /** Mapped in the kernel and not owned by the tool: guest memory, the stack
      and everything else the tool must leave alone. */
  predicate Foreign(st: State, a: int)
  {
    At(st.mem, a).Some? && Lookup(st.maps, a) == None
  }

  /** A relayed call leaves foreign and forbidden mapped addresses exactly as
      they were, and neither adds to nor takes from the foreign ones. */
  predicate UntouchedAt(st: State, o: Outcome, a: int)
  {
    && (Foreign(st, a) || (At(st.mem, a).Some? && ForbiddenAt(st, a)) ==> At(MemOf(o), a) == At(st.mem, a))
    && (o.Running? ==> (Foreign(o.st, a) <==> Foreign(st, a)))
  }

  predicate SameConfig(st: State, t: State)
  {
    st.(maps := t.maps, mem := t.mem) == t
  }

  /** What one relayed step guarantees. */
  ghost predicate StepKeeps(st: State, o: Outcome)
  {
    && (forall a: int :: UntouchedAt(st, o, a))
    && (o.Running? ==> Inv(o.st) && SameConfig(st, o.st) && NoNewAnonymousCode(st.maps, o.st.maps))
  }

  /** The invariant from its pointwise parts, for a step that leaves the break
      region's records and bytes alone. */
  lemma InvFrom(st: State, t: State)
    requires Inv(st) && SameConfig(st, t)
    requires Canonical(t.maps) && |t.maps| <= CAPACITY
    requires forall a: int :: AgreesAt(t, a) && SafeAt(t.maps, a)
    requires forall a: int :: BRK_BASE <= a < BRK_END ==>
      Lookup(t.maps, a) == Lookup(st.maps, a) && At(t.mem, a) == At(st.mem, a)
    ensures Inv(t)
  {
    forall a: int ensures BrkAt(t, a) {
      assert BrkAt(st, a);
      assert AgreesAt(st, a) && BrkBounds(st);
    }
  }

  // ---- mmap ----

  lemma MmapKeeps(st: State, x: Args, reply: Reply)
    requires Inv(st) && Answers(st.mem, Mmap, x, reply)
    ensures StepKeeps(st, MmapStep(st, x, reply))
  {
    var o := MmapStep(st, x, reply);
    if MmapRefusal(st, x) == 0 && !Failed(reply.result) {
      MmapMoved(st, x, reply);
    }
  }

  /** The calls that reach the kernel and succeed. */
  lemma MmapMoved(st: State, x: Args, reply: Reply)
    requires Inv(st) && Answers(st.mem, Mmap, x, reply) && !Failed(reply.result)
    requires MmapRefusal(st, x) == 0
    ensures StepKeeps(st, MmapStep(st, x, reply))
  {
    var o := MmapStep(st, x, reply);
    var at := reply.result;
    var hi := ExtentRange(at, x.a1);
    // What the kernel replaced was either free or tracked and permitted.
    forall a: int ensures At(st.mem, a).Some? && at <= a < hi ==>
      Lookup(st.maps, a).Some? && !ForbiddenAt(st, a)
    {
      if At(st.mem, a).Some? && at <= a < hi {
        assert In(at, x.a1, a);
        assert Fixed(x.a3) && !NoReplace(x.a3) && at == x.a0;
        assert Permits(st, at, x.a1, true);
        ForbiddenRange(st, at, hi, a);
      }
    }
    if o.Running? {
      assert x.a2 != DROP_MAP;
      MmapTracked(st, o.st, x, at, hi);
    }
    forall a: int ensures UntouchedAt(st, o, a) {
      assert In(at, x.a1, a) <==> at <= a < hi;
    }
  }

  lemma MmapTracked(st: State, t: State, x: Args, at: u64, hi: u64)
    requires Inv(st) && MmapDone(st.mem, x, at, t.mem)
    requires SameConfig(st, t) && Updated(st.maps, t.maps, at, hi, x.a2, Unplaced(x.a3))
    requires !WriteExec(x.a2) && (Executable(x.a2) ==> !Anonymous(x.a3)) && x.a2 != DROP_MAP
    requires at < hi && !Forbidden(st, at, hi)
    requires forall a: int {:trigger In(at, x.a1, a)} :: In(at, x.a1, a) <==> at <= a < hi
    ensures Inv(t) && NoNewAnonymousCode(st.maps, t.maps)
  {
    forall a: int ensures AgreesAt(t, a) && SafeAt(t.maps, a)
      && (AnonymousCodeAt(t.maps, a) ==> AnonymousCodeAt(st.maps, a))
    {
      assert AgreesAt(st, a) && SafeAt(st.maps, a);
      assert In(at, x.a1, a) <==> at <= a < hi;
    }
    forall a: int | BRK_BASE <= a < BRK_END ensures
      Lookup(t.maps, a) == Lookup(st.maps, a) && At(t.mem, a) == At(st.mem, a)
    {
      assert !In(at, x.a1, a);
    }
    InvFrom(st, t);
  }

  // ---- mremap ----

  lemma EnclosingLookup(s: seq<Extent>, lo: u64, hi: u64, a: int)
    requires Sorted(s) && Enclosing(s, lo, hi).Some? && lo <= a < hi
    ensures Lookup(s, a) == Enclosing(s, lo, hi)
  {
    if !(s[0].lo <= lo && s[0].hi >= hi) {
      EnclosingLookup(s[1..], lo, hi, a);
      TailLookup(s, a);
    }
  }

  lemma MremapKeeps(st: State, x: Args, reply: Reply)
    requires Inv(st) && Answers(st.mem, Mremap, x, reply)
    ensures StepKeeps(st, MremapStep(st, x, reply))
  {
    if MremapSource(st, x).Some? && !Failed(reply.result) {
      MremapMoved(st, x, reply);
    }
  }

  lemma MremapMoved(st: State, x: Args, reply: Reply)
    requires Inv(st) && Answers(st.mem, Mremap, x, reply) && !Failed(reply.result)
    requires MremapSource(st, x).Some?
    ensures StepKeeps(st, MremapStep(st, x, reply))
  {
    var o := MremapStep(st, x, reply);
    var lo, nlo := x.a0, reply.result;
    var hi := ExtentRange(lo, x.a1);
    var nhi := ExtentRange(nlo, x.a2);
    var found := Enclosing(st.maps, lo, hi).value;
    forall a: int ensures lo <= a < hi ==> Lookup(st.maps, a) == Some(found) && !ForbiddenAt(st, a) {
      if lo <= a < hi {
        EnclosingLookup(st.maps, lo, hi, a);
        ForbiddenRange(st, lo, hi, a);
      }
    }
    if o.Running? {
      assert SafeAt(st.maps, lo);
      MremapRecords(st, x, reply, hi, nhi, found);
      MremapTracked(st, o.st, x, reply, hi, nhi, found);
    }
    forall a: int ensures UntouchedAt(st, o, a) {
      assert In(x.a0, x.a1, a) <==> lo <= a < hi;
      assert In(nlo, x.a2, a) <==> nlo <= a < nhi;
    }
  }

  /** Erasing the old range and recording the new one. */
  lemma MremapRecords(st: State, x: Args, reply: Reply, hi: u64, nhi: u64, found: Attr)
    requires Canonical(st.maps) && found.prot != DROP_MAP
    requires MremapSource(st, x) == Some(found) && MremapStep(st, x, reply).Running? && !Failed(reply.result)
    requires PageExtent(x.a0, x.a1) == Some((x.a0, hi)) && Enclosing(st.maps, x.a0, hi) == Some(found)
    requires PageExtent(reply.result, x.a2) == Some((reply.result, nhi))
    ensures var t := MremapStep(st, x, reply).st;
      && SameConfig(st, t) && t.mem == reply.mem && Canonical(t.maps) && |t.maps| <= CAPACITY
      && forall a: int :: Lookup(t.maps, a) ==
           if reply.result <= a < nhi then Some(found)
           else if x.a0 <= a < hi then None
           else Lookup(st.maps, a)
  {
    var t := MremapStep(st, x, reply).st;
    var dropped := Track(st.maps, x.a0, hi - x.a0, DROP_MAP, 0).value;
    assert Some(t.maps) == Track(dropped, reply.result, nhi - reply.result, found.prot, found.flags);
  }

  lemma MremapTracked(st: State, t: State, x: Args, reply: Reply, hi: u64, nhi: u64, found: Attr)
    requires Inv(st) && MremapDone(st.mem, x, reply.result, t.mem)
    requires SameConfig(st, t) && Canonical(t.maps) && |t.maps| <= CAPACITY
    requires forall a: int {:trigger In(x.a0, x.a1, a)} :: In(x.a0, x.a1, a) <==> x.a0 <= a < hi
    requires forall a: int {:trigger In(reply.result, x.a2, a)} ::
      In(reply.result, x.a2, a) <==> reply.result <= a < nhi
    requires x.a0 < hi && !Forbidden(st, x.a0, hi) && !Forbidden(st, reply.result, nhi)
    requires Lookup(st.maps, x.a0) == Some(found) && !Executable(found.prot)
    requires forall a: int ::
      Lookup(t.maps, a) ==
      if reply.result <= a < nhi then Some(found)
      else if x.a0 <= a < hi then None
      else Lookup(st.maps, a)
    ensures Inv(t) && NoNewAnonymousCode(st.maps, t.maps)
  {
    var lo, nlo := x.a0, reply.result;
    assert SafeAt(st.maps, lo) && AgreesAt(st, lo);
    forall a: int ensures AgreesAt(t, a) && SafeAt(t.maps, a)
      && (AnonymousCodeAt(t.maps, a) ==> AnonymousCodeAt(st.maps, a))
    {
      assert AgreesAt(st, a) && SafeAt(st.maps, a);
      assert In(lo, x.a1, a) <==> lo <= a < hi;
      assert In(nlo, x.a2, a) <==> nlo <= a < nhi;
    }
    forall a: int | BRK_BASE <= a < BRK_END ensures
      Lookup(t.maps, a) == Lookup(st.maps, a) && At(t.mem, a) == At(st.mem, a)
    {
      assert !In(lo, x.a1, a) && !In(nlo, x.a2, a);
    }
    InvFrom(st, t);
  }

  // ---- mprotect ----

  /** The re-tracking loop nets out to one pointwise update: every tracked
      address of [lo, hi) gets the new protection and keeps its old flags, and
      no other address changes. */
  lemma {:induction false} RetrackNet(s: seq<Extent>, i: nat, lo: u64, hi: u64, prot: u64)
    requires Canonical(s) && |s| <= CAPACITY && i <= |s| && lo < hi && Aligned(lo) && Aligned(hi)
    requires prot != DROP_MAP && !WriteExec(prot)
    requires Retrack(s, i, lo, hi, prot).Some?
    ensures var r := Retrack(s, i, lo, hi, prot).value;
      && Canonical(r) && |r| <= CAPACITY
      && forall a: int :: Lookup(r, a) ==
           if lo <= a < hi && Lookup(s[..i], a).Some?
           then Some(Attr(prot, Lookup(s[..i], a).value.flags))
           else Lookup(s, a)
  {
    if i == 0 {
      assert s[..0] == [];
    } else {
      RetrackNet(s, i - 1, lo, hi, prot);
      var m := s[i - 1];
      PrefixLookup(s, i);
      if Overlaps(lo, hi, m.lo, m.hi) {
        var live := Retrack(s, i - 1, lo, hi, prot).value;
        var start := if lo > m.lo then lo else m.lo;
        var end := if hi < m.hi then hi else m.hi;
      }
    }
  }

  /** Lookups in a prefix, one entry at a time. */
  lemma PrefixLookup(s: seq<Extent>, i: nat)
    requires Sorted(s) && 0 < i <= |s|
    ensures forall a: int ::
      Lookup(s[..i], a) == if Within(a, s[i - 1]) then Some(AttrOf(s[i - 1])) else Lookup(s[..i - 1], a)
    ensures forall a: int :: Within(a, s[i - 1]) ==>
              Lookup(s[..i - 1], a) == None && Lookup(s, a) == Some(AttrOf(s[i - 1]))
  {
    var p, m := s[..i - 1], s[i - 1];
    assert s[..i] == p + [m];
    forall a: int ensures Lookup(s[..i], a) == if Within(a, m) then Some(AttrOf(m)) else Lookup(p, a)
      ensures Within(a, m) ==> Lookup(p, a) == None && Lookup(s, a) == Some(AttrOf(m))
    {
      LookupConcat(p, [m], a);
      if Within(a, m) {
        LookupNone(p, a);
        LookupAt(s, i - 1, a);
      }
    }
  }

  lemma MprotectKeeps(st: State, nr: Nr, x: Args, reply: Reply)
    requires nr == Mprotect || nr == PkeyMprotect
    requires Inv(st) && Answers(st.mem, nr, x, reply)
    ensures StepKeeps(st, RangeStep(st, nr, x, reply))
  {
    var o := RangeStep(st, nr, x, reply);
    if RangeRefusal(st, nr, x) != 0 || reply.result != 0 {
      return;
    }
    var lo := x.a0;
    var hi := ExtentRange(lo, x.a1);
    forall a: int | lo <= a < hi ensures Lookup(st.maps, a).Some? && !ForbiddenAt(st, a) {
      ForbiddenRange(st, lo, hi, a);
    }
    if o.Running? {
      assert x.a2 != DROP_MAP;
      RetrackNet(st.maps, |st.maps|, lo, hi, x.a2);
      assert st.maps[..|st.maps|] == st.maps;
      forall a: int ensures AgreesAt(o.st, a) && SafeAt(o.st.maps, a)
        && (AnonymousCodeAt(o.st.maps, a) ==> AnonymousCodeAt(st.maps, a))
      {
        assert AgreesAt(st, a) && SafeAt(st.maps, a);
        assert In(lo, x.a1, a) <==> lo <= a < hi;
        if lo <= a < hi && Executable(x.a2) {
          var i := LookupSome(st.maps, a);
          assert Overlaps(lo, hi, st.maps[i].lo, st.maps[i].hi);
        }
      }
      InvFrom(st, o.st);
    }
    forall a: int ensures UntouchedAt(st, o, a) {
      assert In(lo, x.a1, a) <==> lo <= a < hi;
    }
  }

  // ---- munmap and madvise ----

  lemma MunmapKeeps(st: State, x: Args, reply: Reply)
    requires Inv(st) && Answers(st.mem, Munmap, x, reply)
    ensures StepKeeps(st, RangeStep(st, Munmap, x, reply))
  {
    var o := RangeStep(st, Munmap, x, reply);
    if RangeRefusal(st, Munmap, x) != 0 || reply.result != 0 {
      return;
    }
    var lo := x.a0;
    var hi := ExtentRange(lo, x.a1);
    forall a: int | lo <= a < hi ensures Lookup(st.maps, a).Some? && !ForbiddenAt(st, a) {
      ForbiddenRange(st, lo, hi, a);
    }
    if o.Running? {
      forall a: int ensures AgreesAt(o.st, a) && SafeAt(o.st.maps, a)
        && (AnonymousCodeAt(o.st.maps, a) ==> AnonymousCodeAt(st.maps, a))
      {
        assert AgreesAt(st, a) && SafeAt(st.maps, a);
        assert In(lo, x.a1, a) <==> lo <= a < hi;
      }
      InvFrom(st, o.st);
    }
    forall a: int ensures UntouchedAt(st, o, a) {
      assert In(lo, x.a1, a) <==> lo <= a < hi;
    }
  }

  lemma MadviseKeeps(st: State, x: Args, reply: Reply)
    requires Inv(st) && Answers(st.mem, Madvise, x, reply)
    ensures StepKeeps(st, RangeStep(st, Madvise, x, reply))
  {
    var o := RangeStep(st, Madvise, x, reply);
    if o.Terminal? {
      return;
    }
    PageExtentLeast(x.a0, x.a1);
    var (lo, hi) := PageExtent(x.a0, x.a1).value;
    forall a: int | lo <= a < hi ensures Lookup(st.maps, a).Some? && !ForbiddenAt(st, a) {
      ForbiddenRange(st, lo, hi, a);
    }
    forall a: int ensures AgreesAt(o.st, a) && SafeAt(o.st.maps, a) {
      assert AgreesAt(st, a) && SafeAt(st.maps, a);
    }
    forall a: int ensures At(o.st.mem, a).Some? <==> At(st.mem, a).Some? {
      assert HowAt(o.st.mem, a) == HowAt(st.mem, a);
    }
    InvFrom(st, o.st);
    forall a: int ensures UntouchedAt(st, o, a) {
    }
  }

  /** One relayed call: tracker and kernel agree afterwards unless the process
      ended, and no mapped address that is untracked or forbidden changed. */
  lemma RelayKeeps(st: State, nr: Nr, x: Args, reply: Reply)
    requires Inv(st) && Answers(st.mem, nr, x, reply)
    ensures StepKeeps(st, RelayStep(st, nr, x, reply))
  {
    match nr
    case Mmap => MmapKeeps(st, x, reply);
    case Mremap => MremapKeeps(st, x, reply);
    case Munmap => MunmapKeeps(st, x, reply);
    case Madvise => MadviseKeeps(st, x, reply);
    case _ => MprotectKeeps(st, nr, x, reply);
  }

  // ---- the owned program break ----

  /** The kernel's answers to the calls a break request makes. */
  ghost predicate BrkAnswers(st: State, requested: u64, protect: Reply, discard: Reply)
  {
    && Answers(st.mem, Mprotect, BrkProtect(st, requested), protect)
    && Answers(protect.mem, Madvise, BrkDiscard(st, requested), discard)
  }

  /** A break request keeps the invariant, returns the current break (the
      request, or the old value unchanged), and touches no foreign address. */
  ghost predicate BrkKeeps(st: State, requested: u64, o: Outcome)
  {
    && (forall a: int :: !(BRK_BASE <= a < BRK_END) ==> At(MemOf(o), a) == At(st.mem, a))
    && (o.Running? ==>
          && Inv(o.st) && NoNewAnonymousCode(st.maps, o.st.maps) && o.result == o.st.brkCurrent
          && (o.result == requested || (o.result == st.brkCurrent && o.st == st))
          && forall a: int :: Foreign(o.st, a) <==> Foreign(st, a))
  }

  lemma BrkStepKeeps(st: State, requested: u64, protect: Reply, discard: Reply)
    requires Inv(st) && BrkAnswers(st, requested, protect, discard)
    ensures BrkKeeps(st, requested, BrkStep(st, requested, protect, discard))
  {
    var o := BrkStep(st, requested, protect, discard);
    if requested == 0 || requested < BRK_BASE || requested > BRK_END {
      return;
    }
    var x := BrkProtect(st, requested);
    CeilInside(st.brkCurrent);
    CeilInside(requested);
    if x.a1 == 0 {
      assert o == Running(st.(brkCurrent := requested), requested);
      forall a: int ensures AgreesAt(o.st, a) && SafeAt(o.st.maps, a) && BrkAt(o.st, a) {
        assert AgreesAt(st, a) && SafeAt(st.maps, a) && BrkAt(st, a);
      }
    } else {
      BrkMoved(st, requested, protect, discard, x);
    }
  }

  lemma CeilInside(v: u64)
    requires BRK_BASE <= v <= BRK_END
    ensures BRK_BASE <= Ceil(v) <= BRK_END && Aligned(Ceil(v))
  {
    assert BRK_END == PageAt(0x54000_0800);
    var k: int :| Ceil(v) == PageAt(k);
  }

  lemma BrkMoved(st: State, requested: u64, protect: Reply, discard: Reply, x: Args)
    requires Inv(st) && BrkAnswers(st, requested, protect, discard)
    requires BRK_BASE <= requested <= BRK_END && x == BrkProtect(st, requested) && x.a1 > 0
    requires BRK_BASE <= Ceil(st.brkCurrent) <= BRK_END && BRK_BASE <= Ceil(requested) <= BRK_END
    ensures BrkKeeps(st, requested, BrkStep(st, requested, protect, discard))
  {
    var o := BrkStep(st, requested, protect, discard);
    assert Aligned(x.a0) && Aligned(x.a0 + x.a1);
    CeilUnique(x.a0 + x.a1, x.a0 + x.a1);
    forall a: int {:trigger In(x.a0, x.a1, a)} ensures In(x.a0, x.a1, a) <==> x.a0 <= a < x.a0 + x.a1 {
    }
    forall a: int ensures !(BRK_BASE <= a < BRK_END) ==> At(protect.mem, a) == At(st.mem, a) {
      assert !(BRK_BASE <= a < BRK_END) ==> !In(x.a0, x.a1, a);
    }
    forall a: int ensures !(BRK_BASE <= a < BRK_END) ==> At(discard.mem, a) == At(protect.mem, a) {
      assert !(BRK_BASE <= a < BRK_END) ==> !In(x.a0, x.a1, a);
    }
    if o.Running? {
      if x.a2 == PROT_READ_WRITE {
        BrkGrown(st, requested, protect, x, o.st);
      } else {
        BrkShrunk(st, requested, protect, discard, x, o.st);
      }
      forall a: int ensures Foreign(o.st, a) <==> Foreign(st, a) {
        assert BrkAt(st, a) && BrkAt(o.st, a) && AgreesAt(st, a) && AgreesAt(o.st, a);
      }
    }
  }

  lemma BrkGrown(st: State, requested: u64, protect: Reply, x: Args, t: State)
    requires Inv(st) && BRK_BASE <= requested <= BRK_END && x == BrkProtect(st, requested)
    requires x.a1 > 0 && x.a2 == PROT_READ_WRITE
    requires BRK_BASE <= Ceil(st.brkCurrent) && Ceil(requested) <= BRK_END
    requires MprotectDone(st.mem, x, protect.mem)
    requires forall a: int {:trigger In(x.a0, x.a1, a)} :: In(x.a0, x.a1, a) <==> x.a0 <= a < x.a0 + x.a1
    requires Updated(st.maps, t.maps, x.a0, x.a0 + x.a1, x.a2, MAP_PRIVATE_ANONYMOUS)
    requires t == st.(maps := t.maps, mem := protect.mem, brkCurrent := requested)
    ensures Inv(t) && NoNewAnonymousCode(st.maps, t.maps)
  {
    forall a: int ensures AgreesAt(t, a) && SafeAt(t.maps, a) && BrkAt(t, a)
      && (AnonymousCodeAt(t.maps, a) ==> AnonymousCodeAt(st.maps, a))
    {
      assert AgreesAt(st, a) && SafeAt(st.maps, a) && BrkAt(st, a);
      assert In(x.a0, x.a1, a) <==> x.a0 <= a < x.a0 + x.a1;
    }
  }

  lemma BrkShrunk(st: State, requested: u64, protect: Reply, discard: Reply, x: Args, t: State)
    requires Inv(st) && BRK_BASE <= requested <= BRK_END && x == BrkProtect(st, requested)
    requires x.a1 > 0 && x.a2 == PROT_NONE
    requires BRK_BASE <= Ceil(requested) && Ceil(st.brkCurrent) <= BRK_END
    requires MprotectDone(st.mem, x, protect.mem)
    requires MadviseDone(protect.mem, BrkDiscard(st, requested), 0, discard.mem)
    requires forall a: int {:trigger In(x.a0, x.a1, a)} :: In(x.a0, x.a1, a) <==> x.a0 <= a < x.a0 + x.a1
    requires Updated(st.maps, t.maps, x.a0, x.a0 + x.a1, x.a2, MAP_PRIVATE_ANONYMOUS)
    requires t == st.(maps := t.maps, mem := discard.mem, brkCurrent := requested)
    ensures Inv(t) && NoNewAnonymousCode(st.maps, t.maps)
  {
    forall a: int ensures AgreesAt(t, a) && SafeAt(t.maps, a) && BrkAt(t, a)
      && (AnonymousCodeAt(t.maps, a) ==> AnonymousCodeAt(st.maps, a))
    {
      assert AgreesAt(st, a) && SafeAt(st.maps, a) && BrkAt(st, a);
      assert In(x.a0, x.a1, a) <==> x.a0 <= a < x.a0 + x.a1;
      assert HowAt(discard.mem, a) == HowAt(protect.mem, a);
    }
  }

  /** The capture maps only free pages, and what it maps it tracks. */
  lemma CaptureLeaves(st: State, reply: Reply, a: int)
    requires Answers(st.mem, Mmap, CAPTURE_ARGS, reply)
    ensures var o := CaptureStep(st, reply);
      && (At(st.mem, a).Some? ==> At(MemOf(o), a) == At(st.mem, a))
      && (o.Running? ==> (Foreign(o.st, a) <==> Foreign(st, a)))
  {
    var o := CaptureStep(st, reply);
    if !Failed(reply.result) {
      assert BRK_BASE == PageAt(0x5_4000_0000) && BRK_END == PageAt(0x5_4000_0800);
      CeilUnique(BRK_END, BRK_END);
      assert In(BRK_BASE, BRK_BYTES, a) <==> BRK_BASE <= a < BRK_END;
      if o.Running? {
        assert Updated(st.maps, o.st.maps, BRK_BASE, BRK_END, PROT_NONE, MAP_PRIVATE_ANONYMOUS);
      }
    }
  }

  /** Capturing the process state establishes the invariant: all it needs is a
      tracker that agrees with the kernel and holds only safe records, such as the
      empty one the process starts with. */
  lemma CaptureEstablishes(st: State, reply: Reply)
    requires Canonical(st.maps) && |st.maps| <= CAPACITY
    requires forall a: int :: AgreesAt(st, a) && SafeAt(st.maps, a)
    requires Answers(st.mem, Mmap, CAPTURE_ARGS, reply)
    ensures CaptureStep(st, reply).Running? ==>
      var t := CaptureStep(st, reply).st; Inv(t) && NoNewAnonymousCode(st.maps, t.maps)
  {
    var o := CaptureStep(st, reply);
    if o.Running? {
      var t := o.st;
      assert Updated(st.maps, t.maps, BRK_BASE, BRK_END, PROT_NONE, MAP_PRIVATE_ANONYMOUS);
      assert BRK_BASE == PageAt(0x5_4000_0000) && BRK_END == PageAt(0x5_4000_0800);
      CeilUnique(BRK_BASE, BRK_BASE);
      var hi := ExtentRange(BRK_BASE, BRK_BYTES);
      CeilUnique(BRK_END, BRK_END);
      forall a: int ensures AgreesAt(t, a) && SafeAt(t.maps, a) && BrkAt(t, a)
        && (AnonymousCodeAt(t.maps, a) ==> AnonymousCodeAt(st.maps, a))
      {
        assert AgreesAt(st, a) && SafeAt(st.maps, a);
        assert In(BRK_BASE, BRK_BYTES, a) <==> BRK_BASE <= a < BRK_END;
      }
    }
  }
}
