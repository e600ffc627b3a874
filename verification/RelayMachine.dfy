/** The relay and the owned break as they run: on the control block, updated in
    place, and on a machine whose kernel answers each call as it likes. Every
    method takes exactly the step its specification function describes. */
module RelayMachine {
  import opened Words
  import opened Extents
  import opened TrackSpec
  import opened Tracker
  import opened Memory
  import opened Relay
  import opened RelayProofs
  import opened Runs

  /** A call returns to the tool or ends the process. */
  datatype Exit = Returned(result: u64) | Ended(code: nat)

  ghost function StateOf(ctl: Control, m: Machine): State
    requires ctl.Valid()
    reads ctl, ctl.maps, ctl.code, m
  {
    State(ctl.Contents(), ctl.guestLo, ctl.guestHi, ctl.phase,
          ctl.captured, ctl.brkBase, ctl.brkCurrent, ctl.brkEnd, m.mem)
  }

  /** The exit and the final state realise an outcome. */
  ghost predicate Realises(ctl: Control, m: Machine, e: Exit, o: Outcome)
    reads ctl, ctl.maps, ctl.code, m
  {
    && ctl.Valid()
    && match e
       case Returned(r) => o == Running(StateOf(ctl, m), r)
       case Ended(code) => o == Terminal(code, m.mem)
  }

  ghost predicate Ready(ctl: Control, m: Machine)
    reads ctl, ctl.maps, ctl.code
  {
    ctl.Valid() && m.Valid()
  }

  /** A call that is refused before the kernel sees it. */
  ghost function NoCall(m: Memory): Reply { Reply(MAX64, m) }

  method InForbidden(ctl: Control, m: Machine, lo: u64, hi: u64) returns (r: bool)
    requires ctl.Valid()
    ensures r == Forbidden(StateOf(ctl, m), lo, hi)
  {
    r := || Overlaps(lo, hi, GATE_BASE, BOOTSTRAP_END)
         || Overlaps(lo, hi, CONTROL_ADDR, RESUME_ADDR + PAGE)
         || Overlaps(lo, hi, SIGNAL_BASE, SIGNAL_BASE + SIGNAL_BYTES)
         || Overlaps(lo, hi, STACK_BASE, STACK_BASE + STACK_BYTES)
         || Overlaps(lo, hi, BRK_BASE, BRK_BASE + BRK_BYTES)
         || Overlaps(lo, hi, ctl.guestLo, ctl.guestHi);
  }

  /** Refusal tests shared by every call that names a range. */
  method Permitted(ctl: Control, m: Machine, addr: u64, bytes: u64, cover: bool)
    returns (ok: bool, lo: u64, hi: u64)
    requires ctl.Valid()
    ensures ok == Permits(StateOf(ctl, m), addr, bytes, cover)
    ensures ok ==> PageExtent(addr, bytes) == Some((lo, hi))
  {
    var e := ExtentOf(addr, bytes);
    if e.None? { return false, 0, 0; }
    lo, hi := e.value.0, e.value.1;
    var bad := InForbidden(ctl, m, lo, hi);
    if bad { return false, lo, hi; }
    ok := true;
    if cover { ok := ctl.Covered(lo, hi); }
  }

  /** Update the tracker, seen as its list of extents. */
  method TrackContents(ctl: Control, lo: u64, bytes: u64, prot: u64, flags: u64) returns (ok: bool)
    requires ctl.Valid()
    modifies ctl`mapCount, ctl`codeCount, ctl.maps, ctl.code
    ensures ctl.Valid()
    ensures ok <==> Track(old(ctl.Contents()), lo, bytes, prot, flags).Some?
    ensures ok ==> Some(ctl.Contents()) == Track(old(ctl.Contents()), lo, bytes, prot, flags)
    ensures !ok ==> ctl.Contents() == old(ctl.Contents())
  {
    var rc := ctl.TrackMap(lo, bytes, prot, flags);
    ok := rc == 0;
  }

  /** Record an update; a refused one ends the process. */
  method Record(ctl: Control, m: Machine, lo: u64, bytes: u64, prot: u64, flags: u64, result: u64)
    returns (e: Exit)
    requires ctl.Valid()
    modifies ctl`mapCount, ctl`codeCount, ctl.maps, ctl.code
    ensures Realises(ctl, m, e, TrackThen(old(StateOf(ctl, m)), lo, bytes, prot, flags, result))
  {
    var ok := TrackContents(ctl, lo, bytes, prot, flags);
    e := if ok then Returned(result) else Ended(92);
  }

  method CheckMmap(ctl: Control, m: Machine, x: Args) returns (refusal: nat)
    requires ctl.Valid()
    ensures refusal == MmapRefusal(StateOf(ctl, m), x)
  {
    var reservation := ctl.phase == TOOL_INIT &&
      x == Args(TOOL_REGION_BASE, TOOL_REGION_BYTES, PROT_NONE, MAP_PRIVATE_ANONYMOUS_NOREPLACE, MAX64, 0);
    if || x.a1 == 0 || (x.a1 > GIB && !reservation)
       || WriteExec(x.a2) || (Executable(x.a2) && Anonymous(x.a3)) {
      return 111;
    }
    if Fixed(x.a3) || NoReplace(x.a3) {
      var ok, _, _ := Permitted(ctl, m, x.a0, x.a1, Fixed(x.a3));
      if !ok { return 112; }
    }
    return 0;
  }

  method CommitMmap(ctl: Control, m: Machine, x: Args, at: u64) returns (e: Exit)
    requires ctl.Valid()
    modifies ctl`mapCount, ctl`codeCount, ctl.maps, ctl.code
    ensures Realises(ctl, m, e, MmapCommit(old(StateOf(ctl, m)), x, at))
  {
    var ok, lo, hi := Permitted(ctl, m, at, x.a1, false);
    if !ok || lo != at { return Ended(113); }
    e := Record(ctl, m, lo, hi - lo, x.a2, Unplaced(x.a3), at);
  }

  /** The words of the first live entry that encloses [lo, hi). */
  method FindEnclosing(ctl: Control, lo: u64, hi: u64) returns (r: Option<Attr>)
    requires ctl.Valid()
    ensures r == Enclosing(ctl.Contents(), lo, hi)
  {
    ghost var s := ctl.Contents();
    for i := 0 to ctl.mapCount
      invariant Enclosing(s, lo, hi) == Enclosing(s[i..], lo, hi)
    {
      assert s[i..][0] == ctl.maps[i] && s[i..][1..] == s[i + 1..];
      if ctl.maps[i].lo <= lo && ctl.maps[i].hi >= hi {
        return Some(AttrOf(ctl.maps[i]));
      }
    }
    assert s[ctl.mapCount..] == [];
    return None;
  }

  method CheckMremap(ctl: Control, m: Machine, x: Args) returns (source: Option<Attr>, lo: u64, hi: u64)
    requires ctl.Valid()
    ensures source == MremapSource(StateOf(ctl, m), x)
    ensures source.Some? ==> PageExtent(x.a0, x.a1) == Some((lo, hi))
  {
    var ok;
    ok, lo, hi := Permitted(ctl, m, x.a0, x.a1, true);
    if !ok || x.a2 == 0 || x.a2 > GIB || x.a3 > 1 { return None, lo, hi; }
    source := FindEnclosing(ctl, lo, hi);
    if || source.None? || source.value.prot == DROP_MAP
       || Executable(source.value.prot) || !Anonymous(source.value.flags) {
      return None, lo, hi;
    }
  }

  method CommitMremap(ctl: Control, m: Machine, x: Args, source: Attr, lo: u64, hi: u64, at: u64) returns (e: Exit)
    requires ctl.Valid() && PageExtent(x.a0, x.a1) == Some((lo, hi))
    modifies ctl`mapCount, ctl`codeCount, ctl.maps, ctl.code
    ensures Realises(ctl, m, e, MremapCommit(old(StateOf(ctl, m)), x, source, at))
  {
    ghost var st := StateOf(ctl, m);
    ghost var dropped := TrackThen(st, lo, hi - lo, DROP_MAP, 0, at);
    assert MremapCommit(st, x, source, at) ==
      if dropped.Terminal? then dropped else MremapPlace(dropped.st, x, source, at);
    e := Record(ctl, m, lo, hi - lo, DROP_MAP, 0, at);
    if e.Returned? {
      assert dropped == Running(StateOf(ctl, m), at);
      e := PlaceMremap(ctl, m, x, source, at);
    }
  }

  method PlaceMremap(ctl: Control, m: Machine, x: Args, source: Attr, at: u64) returns (e: Exit)
    requires ctl.Valid()
    modifies ctl`mapCount, ctl`codeCount, ctl.maps, ctl.code
    ensures Realises(ctl, m, e, MremapPlace(old(StateOf(ctl, m)), x, source, at))
  {
    var ok, lo, hi := Permitted(ctl, m, at, x.a2, false);
    if !ok { return Ended(114); }
    e := Record(ctl, m, lo, hi - lo, source.prot, source.flags, at);
  }

  method OverlapsAnonymous(ctl: Control, lo: u64, hi: u64) returns (r: bool)
    requires ctl.Valid()
    ensures r == AnonymousOverlap(ctl.Contents(), lo, hi)
  {
    ghost var s := ctl.Contents();
    for i := 0 to ctl.mapCount
      invariant forall k :: 0 <= k < i ==> !(Overlaps(lo, hi, s[k].lo, s[k].hi) && Anonymous(s[k].flags))
    {
      assert s[i] == ctl.maps[i];
      if Overlaps(lo, hi, ctl.maps[i].lo, ctl.maps[i].hi) && Anonymous(ctl.maps[i].flags) {
        return true;
      }
    }
    return false;
  }

  method CheckRange(ctl: Control, m: Machine, nr: Nr, x: Args) returns (refusal: nat, lo: u64, hi: u64)
    requires ctl.Valid()
    ensures refusal == RangeRefusal(StateOf(ctl, m), nr, x)
    ensures refusal == 0 ==> PageExtent(x.a0, x.a1) == Some((lo, hi))
  {
    var ok;
    ok, lo, hi := Permitted(ctl, m, x.a0, x.a1, true);
    if !ok { return 115, lo, hi; }
    if Protects(nr) {
      if WriteExec(x.a2) || (nr == PkeyMprotect && x.a3 != 0) { return 116, lo, hi; }
      if Executable(x.a2) {
        var anonymous := OverlapsAnonymous(ctl, lo, hi);
        if anonymous { return 116, lo, hi; }
      }
    }
    refusal := 0;
  }

  /** Re-track the part of one snapshot entry that lies in [lo, hi). */
  method ReprotectEntry(ctl: Control, mine: Extent, lo: u64, hi: u64, prot: u64) returns (ok: bool)
    requires ctl.Valid() && lo < hi && mine.lo < mine.hi
    modifies ctl`mapCount, ctl`codeCount, ctl.maps, ctl.code
    ensures ctl.Valid()
    ensures ok <==> RetrackOne(old(ctl.Contents()), mine, lo, hi, prot).Some?
    ensures ok ==> Some(ctl.Contents()) == RetrackOne(old(ctl.Contents()), mine, lo, hi, prot)
  {
    ok := true;
    ghost var now := ctl.Contents();
    if Overlaps(lo, hi, mine.lo, mine.hi) {
      var start := if lo > mine.lo then lo else mine.lo;
      var end := if hi < mine.hi then hi else mine.hi;
      assert RetrackOne(now, mine, lo, hi, prot) == Track(now, start, end - start, prot, mine.flags);
      ok := TrackContents(ctl, start, end - start, prot, mine.flags);
    }
  }

  /** Re-track a reprotected range entry by entry, reading a snapshot while the
      live array changes. */
  method Reprotect(ctl: Control, lo: u64, hi: u64, prot: u64) returns (ok: bool)
    requires ctl.Valid() && lo < hi
    modifies ctl`mapCount, ctl`codeCount, ctl.maps, ctl.code
    ensures ctl.Valid()
    ensures ok <==> Retrack(old(ctl.Contents()), |old(ctl.Contents())|, lo, hi, prot).Some?
    ensures ok ==>
      Some(ctl.Contents()) == Retrack(old(ctl.Contents()), |old(ctl.Contents())|, lo, hi, prot)
  {
    var count := ctl.mapCount;
    var before := ctl.maps[..count];
    ok := true;
    for i := 0 to count
      invariant ctl.Valid()
      invariant Retrack(before, i, lo, hi, prot) == Some(ctl.Contents())
    {
      ghost var now := ctl.Contents();
      assert Retrack(before, i + 1, lo, hi, prot) == RetrackOne(now, before[i], lo, hi, prot);
      ok := ReprotectEntry(ctl, before[i], lo, hi, prot);
      if !ok {
        RetrackFails(before, i + 1, count, lo, hi, prot);
        return;
      }
    }
  }

  lemma RetrackFails(s: seq<Extent>, i: nat, n: nat, lo: u64, hi: u64, prot: u64)
    requires i <= n <= |s| && lo < hi && Nonempty(s) && Retrack(s, i, lo, hi, prot).None?
    ensures Retrack(s, n, lo, hi, prot).None?
  {
    if i < n {
      RetrackFails(s, i, n - 1, lo, hi, prot);
    }
  }

  method CommitRange(ctl: Control, m: Machine, nr: Nr, x: Args, lo: u64, hi: u64) returns (e: Exit)
    requires ctl.Valid() && PageExtent(x.a0, x.a1) == Some((lo, hi))
    modifies ctl`mapCount, ctl`codeCount, ctl.maps, ctl.code
    ensures Realises(ctl, m, e, RangeCommit(old(StateOf(ctl, m)), nr, x))
  {
    e := Returned(0);
    if nr == Munmap {
      e := Record(ctl, m, lo, hi - lo, DROP_MAP, 0, 0);
    } else if Protects(nr) {
      e := CommitProtect(ctl, m, lo, hi, x.a2);
    }
  }

  method CommitProtect(ctl: Control, m: Machine, lo: u64, hi: u64, prot: u64) returns (e: Exit)
    requires ctl.Valid() && lo < hi
    modifies ctl`mapCount, ctl`codeCount, ctl.maps, ctl.code
    ensures Realises(ctl, m, e, ProtectCommit(old(StateOf(ctl, m)), lo, hi, prot))
  {
    var ok := Reprotect(ctl, lo, hi, prot);
    e := if ok then Returned(0) else Ended(92);
  }

  lemma NoCallAnswers(m: Memory, nr: Nr, x: Args)
    ensures Answers(m, nr, x, NoCall(m))
  {
  }

  /** One relayed mapping call, as the signal handler makes it: it makes the call
      unless it refuses it, and takes exactly the step RelayStep describes for the
      answer the kernel gave. */
  method RelayMapping(ctl: Control, m: Machine, nr: Nr, x: Args) returns (e: Exit, ghost reply: Reply)
    requires Ready(ctl, m)
    modifies ctl`mapCount, ctl`codeCount, ctl.maps, ctl.code, m
    ensures reply == if Forwards(old(StateOf(ctl, m)), nr, x) then old(m.Next(nr, x)) else NoCall(old(m.mem))
    ensures Answers(old(m.mem), nr, x, reply)
    ensures Realises(ctl, m, e, RelayStep(old(StateOf(ctl, m)), nr, x, reply))
  {
    reply := NoCall(m.mem);
    NoCallAnswers(m.mem, nr, x);
    if nr == Mmap {
      var refusal := CheckMmap(ctl, m, x);
      if refusal != 0 { return Ended(refusal), reply; }
      e, reply := RelayMmap(ctl, m, x);
    } else if nr == Mremap {
      var source, lo, hi := CheckMremap(ctl, m, x);
      if source.None? { return Ended(114), reply; }
      e, reply := RelayMremap(ctl, m, x, source.value, lo, hi);
    } else {
      var refusal, lo, hi := CheckRange(ctl, m, nr, x);
      if refusal != 0 { return Ended(refusal), reply; }
      e, reply := RelayRange(ctl, m, nr, x, lo, hi);
    }
  }

  method RelayMmap(ctl: Control, m: Machine, x: Args) returns (e: Exit, ghost reply: Reply)
    requires Ready(ctl, m) && MmapRefusal(StateOf(ctl, m), x) == 0
    modifies ctl`mapCount, ctl`codeCount, ctl.maps, ctl.code, m
    ensures reply == old(m.Next(Mmap, x)) && Answers(old(m.mem), Mmap, x, reply)
    ensures Realises(ctl, m, e, MmapStep(old(StateOf(ctl, m)), x, reply))
  {
    ghost var st := StateOf(ctl, m);
    var result := m.Syscall(Mmap, x);
    reply := Reply(result, m.mem);
    assert StateOf(ctl, m) == st.(mem := reply.mem);
    if Failed(result) { return Returned(result), reply; }
    e := CommitMmap(ctl, m, x, result);
  }

  method RelayMremap(ctl: Control, m: Machine, x: Args, source: Attr, lo: u64, hi: u64)
    returns (e: Exit, ghost reply: Reply)
    requires Ready(ctl, m) && MremapSource(StateOf(ctl, m), x) == Some(source)
    requires PageExtent(x.a0, x.a1) == Some((lo, hi))
    modifies ctl`mapCount, ctl`codeCount, ctl.maps, ctl.code, m
    ensures reply == old(m.Next(Mremap, x)) && Answers(old(m.mem), Mremap, x, reply)
    ensures Realises(ctl, m, e, MremapStep(old(StateOf(ctl, m)), x, reply))
  {
    ghost var st := StateOf(ctl, m);
    var result := m.Syscall(Mremap, x);
    reply := Reply(result, m.mem);
    assert StateOf(ctl, m) == st.(mem := reply.mem);
    if Failed(result) { return Returned(result), reply; }
    e := CommitMremap(ctl, m, x, source, lo, hi, result);
  }

  method RelayRange(ctl: Control, m: Machine, nr: Nr, x: Args, lo: u64, hi: u64) returns (e: Exit, ghost reply: Reply)
    requires PageExtent(x.a0, x.a1) == Some((lo, hi))
    requires Ready(ctl, m) && nr != Mmap && nr != Mremap && RangeRefusal(StateOf(ctl, m), nr, x) == 0
    modifies ctl`mapCount, ctl`codeCount, ctl.maps, ctl.code, m
    ensures reply == old(m.Next(nr, x)) && Answers(old(m.mem), nr, x, reply)
    ensures Realises(ctl, m, e, RangeStep(old(StateOf(ctl, m)), nr, x, reply))
  {
    ghost var st := StateOf(ctl, m);
    var result := m.Syscall(nr, x);
    reply := Reply(result, m.mem);
    assert StateOf(ctl, m) == st.(mem := reply.mem);
    if result != 0 { return Returned(result), reply; }
    e := CommitRange(ctl, m, nr, x, lo, hi);
  }

  /** Reserve the break region and start with an empty break. */
  method CaptureBrk(ctl: Control, m: Machine) returns (e: Exit, ghost reply: Reply)
    requires Ready(ctl, m)
    modifies ctl, ctl.maps, ctl.code, m
    ensures reply == old(m.Next(Mmap, CAPTURE_ARGS)) && Answers(old(m.mem), Mmap, CAPTURE_ARGS, reply)
    ensures Realises(ctl, m, e, CaptureStep(old(StateOf(ctl, m)), reply))
  {
    var base := m.Syscall(Mmap, CAPTURE_ARGS);
    reply := Reply(base, m.mem);
    if base != BRK_BASE { return Ended(129), reply; }
    ctl.brkBase, ctl.brkCurrent, ctl.brkEnd, ctl.captured := base, base, base + BRK_BYTES, true;
    e := Record(ctl, m, BRK_BASE, BRK_BYTES, PROT_NONE, MAP_PRIVATE_ANONYMOUS, 0);
  }

  /** The tool's own break: never the kernel's. The kernel is asked to reprotect and
      discard exactly the pages that the break moves over. */
  method OwnedBrk(ctl: Control, m: Machine, requested: u64)
    returns (e: Exit, ghost protect: Reply, ghost discard: Reply)
    requires Ready(ctl, m)
    modifies ctl`mapCount, ctl`codeCount, ctl`brkCurrent, ctl.maps, ctl.code, m
    ensures BrkAnswers(old(StateOf(ctl, m)), requested, protect, discard)
    ensures var st := old(StateOf(ctl, m));
      && (protect == if BrkCalls(st, requested) then old(m.Next(Mprotect, BrkProtect(st, requested)))
                     else NoCall(old(m.mem)))
      && (BrkDiscards(st, requested, protect) ==>
            discard == m.kernel(old(m.clock) + 1, protect.mem, Madvise, BrkDiscard(st, requested)))
    ensures Realises(ctl, m, e, BrkStep(old(StateOf(ctl, m)), requested, protect, discard))
  {
    ghost var st := StateOf(ctl, m);
    protect, discard := NoCall(m.mem), NoCall(m.mem);
    NoCallAnswers(m.mem, Mprotect, BrkProtect(st, requested));
    NoCallAnswers(m.mem, Madvise, BrkDiscard(st, requested));
    var previous := ctl.brkCurrent;
    if || !ctl.captured || ctl.brkBase != BRK_BASE || ctl.brkEnd != BRK_BASE + BRK_BYTES
       || previous < ctl.brkBase || previous > ctl.brkEnd {
      return Ended(72), protect, discard;
    }
    if || requested == 0 || requested < ctl.brkBase || requested > ctl.brkEnd
       || requested > MAX64 - (PAGE - 1) {
      return Returned(previous), protect, discard;
    }
    e, protect, discard := MoveBrk(ctl, m, requested, Up(previous), Up(requested));
  }

  method MoveBrk(ctl: Control, m: Machine, requested: u64, before: u64, after: u64)
    returns (e: Exit, ghost protect: Reply, ghost discard: Reply)
    requires Ready(ctl, m) && before == Ceil(ctl.brkCurrent) && after == Ceil(requested)
    modifies ctl`mapCount, ctl`codeCount, ctl`brkCurrent, ctl.maps, ctl.code, m
    ensures BrkAnswers(old(StateOf(ctl, m)), requested, protect, discard)
    ensures var st := old(StateOf(ctl, m));
      && (protect == if before != after then old(m.Next(Mprotect, BrkProtect(st, requested)))
                     else NoCall(old(m.mem)))
      && (after < before && BrkDiscards(st, requested, protect) ==>
            discard == m.kernel(old(m.clock) + 1, protect.mem, Madvise, BrkDiscard(st, requested)))
    ensures Realises(ctl, m, e, BrkMove(old(StateOf(ctl, m)), requested, protect, discard))
  {
    ghost var st := StateOf(ctl, m);
    ghost var x := BrkProtect(st, requested);
    if after < before {
      assert x == Args(after, before - after, PROT_NONE, 0, 0, 0);
      e, protect, discard := ShrinkBrk(ctl, m, requested, before, after);
      return;
    }
    if after > before {
      assert x == Args(before, after - before, PROT_READ_WRITE, 0, 0, 0);
      e, protect := GrowBrk(ctl, m, requested, before, after);
    } else {
      assert x.a1 == 0;
      protect := NoCall(m.mem);
      NoCallAnswers(m.mem, Mprotect, x);
      e := SetBrk(ctl, m, requested);
    }
    discard := NoCall(m.mem);
    NoCallAnswers(m.mem, Madvise, BrkDiscard(st, requested));
  }

  /** Within its page the break moves without a call. */
  method SetBrk(ctl: Control, m: Machine, requested: u64) returns (e: Exit)
    requires ctl.Valid()
    modifies ctl`brkCurrent
    ensures Realises(ctl, m, e, Running(old(StateOf(ctl, m)).(brkCurrent := requested), requested))
  {
    ctl.brkCurrent := requested;
    e := Returned(requested);
  }

  method GrowBrk(ctl: Control, m: Machine, requested: u64, before: u64, after: u64)
    returns (e: Exit, ghost protect: Reply)
    requires Ready(ctl, m) && before < after
    modifies ctl`mapCount, ctl`codeCount, ctl`brkCurrent, ctl.maps, ctl.code, m
    ensures var x := Args(before, after - before, PROT_READ_WRITE, 0, 0, 0);
      && Answers(old(m.mem), Mprotect, x, protect) && m.mem == protect.mem && protect == old(m.Next(Mprotect, x))
      && Realises(ctl, m, e, GrowStep(old(StateOf(ctl, m)), requested, x, protect))
  {
    ghost var st := StateOf(ctl, m);
    var result := m.Syscall(Mprotect, Args(before, after - before, PROT_READ_WRITE, 0, 0, 0));
    protect := Reply(result, m.mem);
    assert StateOf(ctl, m) == st.(mem := protect.mem);
    if result != 0 { return Ended(73), protect; }
    e := RecordGrown(ctl, m, requested, before, after - before);
  }

  method RecordGrown(ctl: Control, m: Machine, requested: u64, lo: u64, bytes: u64) returns (e: Exit)
    requires ctl.Valid()
    modifies ctl`mapCount, ctl`codeCount, ctl`brkCurrent, ctl.maps, ctl.code
    ensures Realises(ctl, m, e, GrowRecord(old(StateOf(ctl, m)), requested, Args(lo, bytes, PROT_READ_WRITE, 0, 0, 0)))
  {
    var ok := TrackContents(ctl, lo, bytes, PROT_READ_WRITE, MAP_PRIVATE_ANONYMOUS);
    if !ok { return Ended(73); }
    ctl.brkCurrent := requested;
    e := Returned(requested);
  }

  method ShrinkBrk(ctl: Control, m: Machine, requested: u64, before: u64, after: u64)
    returns (e: Exit, ghost protect: Reply, ghost discard: Reply)
    requires Ready(ctl, m) && after < before
    modifies ctl`mapCount, ctl`codeCount, ctl`brkCurrent, ctl.maps, ctl.code, m
    ensures var x := Args(after, before - after, PROT_NONE, 0, 0, 0);
      && Answers(old(m.mem), Mprotect, x, protect) && Answers(protect.mem, Madvise, x.(a2 := MADV_DONTNEED), discard)
      && protect == old(m.Next(Mprotect, x))
      && (protect.result == 0 && Track(old(ctl.Contents()), x.a0, x.a1, x.a2, MAP_PRIVATE_ANONYMOUS).Some? ==>
            discard == m.kernel(old(m.clock) + 1, protect.mem, Madvise, x.(a2 := MADV_DONTNEED)))
      && Realises(ctl, m, e, ShrinkStep(old(StateOf(ctl, m)), requested, x, protect, discard))
  {
    ghost var st := StateOf(ctl, m);
    var result := m.Syscall(Mprotect, Args(after, before - after, PROT_NONE, 0, 0, 0));
    protect, discard := Reply(result, m.mem), NoCall(m.mem);
    NoCallAnswers(m.mem, Madvise, Args(after, before - after, MADV_DONTNEED, 0, 0, 0));
    assert StateOf(ctl, m) == st.(mem := protect.mem);
    if result != 0 { return Ended(73), protect, discard; }
    e, discard := CloseBrk(ctl, m, requested, after, before - after);
  }

  method CloseBrk(ctl: Control, m: Machine, requested: u64, lo: u64, bytes: u64)
    returns (e: Exit, ghost discard: Reply)
    requires Ready(ctl, m)
    modifies ctl`mapCount, ctl`codeCount, ctl`brkCurrent, ctl.maps, ctl.code, m
    ensures Answers(old(m.mem), Madvise, Args(lo, bytes, MADV_DONTNEED, 0, 0, 0), discard)
    ensures Track(old(ctl.Contents()), lo, bytes, PROT_NONE, MAP_PRIVATE_ANONYMOUS).Some? ==>
      discard == old(m.Next(Madvise, Args(lo, bytes, MADV_DONTNEED, 0, 0, 0)))
    ensures Realises(ctl, m, e,
      CloseStep(old(StateOf(ctl, m)), requested, Args(lo, bytes, PROT_NONE, 0, 0, 0), discard))
  {
    var ok := TrackContents(ctl, lo, bytes, PROT_NONE, MAP_PRIVATE_ANONYMOUS);
    discard := NoCall(m.mem);
    NoCallAnswers(m.mem, Madvise, Args(lo, bytes, MADV_DONTNEED, 0, 0, 0));
    if !ok { return Ended(73), discard; }
    e, discard := DiscardBrk(ctl, m, requested, lo, bytes);
  }

  method DiscardBrk(ctl: Control, m: Machine, requested: u64, lo: u64, bytes: u64)
    returns (e: Exit, ghost discard: Reply)
    requires Ready(ctl, m)
    modifies ctl`brkCurrent, m
    ensures Answers(old(m.mem), Madvise, Args(lo, bytes, MADV_DONTNEED, 0, 0, 0), discard)
    ensures discard == old(m.Next(Madvise, Args(lo, bytes, MADV_DONTNEED, 0, 0, 0)))
    ensures Realises(ctl, m, e, DiscardStep(old(StateOf(ctl, m)), requested, discard))
  {
    var result := m.Syscall(Madvise, Args(lo, bytes, MADV_DONTNEED, 0, 0, 0));
    discard := Reply(result, m.mem);
    if result != 0 { return Ended(73), discard; }
    ctl.brkCurrent := requested;
    e := Returned(requested);
  }

  datatype Admission = Admitted | NotAdmitted | Faulted

  /** Only a `syscall` instruction in a tracked executable extent may be
      relayed. Reading an address that is not mapped faults. */
  method SyscallIp(ctl: Control, m: Machine, ip: u64) returns (r: Admission)
    requires ctl.Valid()
    ensures r == Admitted <==> AcceptsIp(ctl.Contents(), m.mem, ip)
    ensures r == Faulted <==> FaultsIp(ctl.Contents(), m.mem, ip)
  {
    ghost var s := ctl.Contents();
    ghost var codes := ctl.code[..ctl.codeCount];
    if ip < 2 { return NotAdmitted; }
    for i := 0 to ctl.codeCount
      invariant forall k :: 0 <= k < i ==> !(codes[k].lo <= ip - 2 && ip < codes[k].hi)
    {
      var c := ctl.code[i];
      assert codes[i] == c && c in codes;
      if ip - 2 >= c.lo && ip < c.hi {
        CodeOfMembers(s, c);
        r := ReadSyscall(m, ip);
        return;
      }
    }
    forall i | 0 <= i < |s| && Executable(s[i].prot) ensures !(s[i].lo <= ip - 2 && ip < s[i].hi) {
      var c := CodeExtent(s[i].lo, s[i].hi);
      CodeOfMembers(s, c);
      assert c in codes;
    }
    return NotAdmitted;
  }

  method ReadSyscall(m: Machine, ip: u64) returns (r: Admission)
    requires ip >= 2
    ensures r == Admitted <==> IsSyscall(m.mem, ip)
    ensures r == Faulted <==> ReadFaults(m.mem, ip)
  {
    if ip - 2 !in m.mem.cells { return Faulted; }
    if m.mem.cells[ip - 2].byte != 0x0f { return NotAdmitted; }
    if ip - 1 !in m.mem.cells { return Faulted; }
    return if m.mem.cells[ip - 1].byte == 0x05 then Admitted else NotAdmitted;
  }
}
