/** The bootstrap's own steps between capturing the process state and the first
    relayed call: installing data pages and mapping the guest and private images.
    They keep the invariant that the relayed calls rely on. */
module Boot {
  import opened Words
  import opened Extents
  import opened TrackSpec
  import opened Memory
  import opened Relay
  import opened RelayProofs
  import opened Loader
  import opened Image

  // ---- data pages ----

  /** A data mapping at a fixed address that must be free. */
  predicate DataArgs(x: Args) { NoReplace(x.a3) && !Executable(x.a2) }

  /** `reserve` and the sealed packets: the address asked for, or the end. */
  ghost function InstallStep(st: State, x: Args, code: nat, reply: Reply): Outcome
  {
    if reply.result != x.a0 then Terminal(code, reply.mem)
    else TrackThen(st.(mem := reply.mem), x.a0, x.a1, x.a2, Unplaced(x.a3), x.a0)
  }

  lemma InstallKeeps(st: State, x: Args, code: nat, reply: Reply)
    requires Inv(st) && DataArgs(x) && Answers(st.mem, Mmap, x, reply)
    ensures var o := InstallStep(st, x, code, reply);
      && (forall a: int :: At(st.mem, a).Some? ==> At(MemOf(o), a) == At(st.mem, a))
      && (o.Running? ==>
            && Inv(o.st) && SameConfig(st, o.st) && NoNewAnonymousCode(st.maps, o.st.maps)
            && forall a: int :: Foreign(o.st, a) <==> Foreign(st, a))
  {
    var o := InstallStep(st, x, code, reply);
    if Failed(reply.result) {
      InstallFailed(st, x, code, reply);
    } else {
      forall a: int | At(st.mem, a).Some? ensures At(MemOf(o), a) == At(st.mem, a) {
        assert !In(x.a0, x.a1, a);
      }
      if o.Running? {
        InstallTracked(st, o.st, x);
      }
    }
  }

  /** A failed call returns no address that it could have been asked for and that
      the tracker would record. */
  lemma InstallFailed(st: State, x: Args, code: nat, reply: Reply)
    requires Inv(st) && Answers(st.mem, Mmap, x, reply) && Failed(reply.result)
    ensures var o := InstallStep(st, x, code, reply); o.Terminal? && o.final == st.mem
  {
    if reply.result == x.a0 {
      assert !Requestable(x.a0, x.a1);
    }
  }

  lemma InstallTracked(st: State, t: State, x: Args)
    requires Inv(st) && DataArgs(x) && MmapDone(st.mem, x, x.a0, t.mem) && SameConfig(st, t)
    requires Some(t.maps) == Track(st.maps, x.a0, x.a1, x.a2, Unplaced(x.a3))
    ensures Inv(t) && NoNewAnonymousCode(st.maps, t.maps)
    ensures forall a: int :: Foreign(t, a) <==> Foreign(st, a)
  {
    var lo, hi := x.a0, x.a0 + x.a1;
    AlignedTest(lo);
    AlignedTest(x.a1);
    AlignedSum(lo, x.a1);
    CeilUnique(hi, hi);
    forall a: int ensures AgreesAt(t, a) && SafeAt(t.maps, a)
      && (AnonymousCodeAt(t.maps, a) ==> AnonymousCodeAt(st.maps, a)) && (Foreign(t, a) <==> Foreign(st, a))
    {
      assert AgreesAt(st, a) && SafeAt(st.maps, a);
      assert In(lo, x.a1, a) <==> lo <= a < hi;
    }
    forall a: int | BRK_BASE <= a < BRK_END ensures
      Lookup(t.maps, a) == Lookup(st.maps, a) && At(t.mem, a) == At(st.mem, a)
    {
      assert BrkAt(st, a) && AgreesAt(st, a);
      assert In(lo, x.a1, a) <==> lo <= a < hi;
    }
    InvFrom(st, t);
  }

  // ---- the resume page ----

  const RESUME_ARGS: Args := Args(RESUME_ADDR, 4096, PROT_READ, 0, 0, 0)

  predicate InResume(a: int) { RESUME_ADDR <= a < RESUME_ADDR + PAGE }

  /** The resume page was reserved before. */
  ghost predicate ResumeReserved(st: State)
  {
    forall a: int :: InResume(a) ==> Lookup(st.maps, a).Some? && Lookup(st.maps, a).value.flags == MAP_PRIVATE_ANONYMOUS
  }

  /** Sealing the filled resume page: reprotect it, then record it anew. */
  ghost function SealStep(st: State, reply: Reply): Outcome
  {
    if reply.result != 0 then Terminal(134, reply.mem)
    else TrackThen(st.(mem := reply.mem), RESUME_ADDR, 4096, PROT_READ, MAP_PRIVATE_ANONYMOUS, 0)
  }

  /** What sealing does to one address. */
  predicate SealedAt(st: State, o: Outcome, a: int)
  {
    && (!InResume(a) ==> At(MemOf(o), a) == At(st.mem, a))
    && (At(st.mem, a).Some? <==> At(MemOf(o), a).Some?)
    && (At(st.mem, a).Some? ==> MemOf(o).cells[a].byte == st.mem.cells[a].byte)
    && (o.Running? ==>
          && (Lookup(o.st.maps, a).Some? <==> Lookup(st.maps, a).Some?)
          && (AnonymousCodeAt(o.st.maps, a) ==> AnonymousCodeAt(st.maps, a)))
  }

  lemma ResumeRange(a: int)
    ensures Aligned(RESUME_ADDR) && RESUME_ADDR + 4096 <= USER_END
    ensures In(RESUME_ADDR, 4096, a) <==> InResume(a)
  {
    assert RESUME_ADDR == PageAt(0x5_3000_0003) && RESUME_ADDR + 4096 == PageAt(0x5_3000_0004);
    CeilUnique(RESUME_ADDR + 4096, RESUME_ADDR + 4096);
  }

  lemma SealAt(st: State, reply: Reply, a: int)
    requires Inv(st) && ResumeReserved(st) && Answers(st.mem, Mprotect, RESUME_ARGS, reply)
    ensures SealedAt(st, SealStep(st, reply), a)
  {
    ResumeRange(a);
    if reply.result == 0 {
      assert At(reply.mem, a) ==
        if InResume(a) && At(st.mem, a).Some?
        then Some(Cell(st.mem.cells[a].how.(access := PROT_READ % 8), st.mem.cells[a].byte)) else At(st.mem, a);
    }
  }

  lemma SealKeeps(st: State, reply: Reply)
    requires Inv(st) && ResumeReserved(st) && Answers(st.mem, Mprotect, RESUME_ARGS, reply)
    requires SealStep(st, reply).Running?
    ensures var t := SealStep(st, reply).st; Inv(t) && SameConfig(st, t) && NoNewAnonymousCode(st.maps, t.maps)
  {
    var t := SealStep(st, reply).st;
    forall a: int ensures AgreesAt(t, a) && SafeAt(t.maps, a)
      && (AnonymousCodeAt(t.maps, a) ==> AnonymousCodeAt(st.maps, a))
    {
      ResumeRange(a);
      assert AgreesAt(st, a) && SafeAt(st.maps, a);
    }
    forall a: int | BRK_BASE <= a < BRK_END ensures
      Lookup(t.maps, a) == Lookup(st.maps, a) && At(t.mem, a) == At(st.mem, a)
    {
      ResumeRange(a);
    }
    InvFrom(st, t);
  }

  // ---- images ----

  /** How an image is mapped: private images are recorded page by page, the guest's
      only by its bounds. */
  datatype Load = Load(private: bool, file: seq<byte>, h: Ehdr, ph: seq<Phdr>, lo: u64, hi: u64, base: int, at: Mapped)

  ghost predicate LoadedBy(st: State, l: Load, maps: seq<Extent>, mem: Memory)
  {
    && l.at.Mapped? && Canonical(maps) && |maps| <= CAPACITY
    && ImageMapped(st.mem, mem, st.maps, maps, l.file, l.h, l.ph, l.lo, l.hi, l.base, l.at, l.private)
  }

  function AfterLoad(st: State, l: Load, maps: seq<Extent>, mem: Memory): State
    requires l.at.Mapped?
  {
    if l.private then st.(maps := maps, mem := mem) else st.(mem := mem, guestLo := l.at.lo, guestHi := l.at.hi)
  }

  /** No executable segment has pages beyond its file. */
  ghost predicate CodeFromFile(ph: seq<Phdr>, size: nat)
    requires Ascending(ph, size)
  {
    forall i :: 0 <= i < |ph| && ph[i].load && FlagX(ph[i]) ==> SegMid(ph[i]) == SegHi(ph[i])
  }

  /** What a mapped image does to one address: in its span, which was free, a
      private image is recorded as the kernel maps it; elsewhere nothing changes. */
  predicate FramedAt(st: State, private: bool, lo: u64, hi: u64, maps: seq<Extent>, mem: Memory, a: int)
  {
    var p := Lookup(maps, a);
    && (!(lo <= a < hi) ==> At(mem, a) == At(st.mem, a))
    && (!(lo <= a < hi) || !private ==> p == Lookup(st.maps, a))
    && (lo <= a < hi ==> At(st.mem, a) == None)
    && (lo <= a < hi && private ==>
          && p.Some? && HowAt(mem, a) == Some(HowOf(p.value.prot, p.value.flags))
          && !WriteExec(p.value.prot) && p.value.prot < 8)
  }

  lemma LoadFramed(st: State, l: Load, maps: seq<Extent>, mem: Memory, a: int)
    requires LoadedBy(st, l, maps, mem)
    ensures FramedAt(st, l.private, l.at.lo, l.at.hi, maps, mem, a)
  {
    if l.at.lo <= a < l.at.hi && l.private {
      var v := a - l.base;
      assert l.base + v == a;
      ImageAgrees(st.mem, mem, st.maps, maps, l.file, l.ph, l.lo, l.hi, l.base, v);
    }
  }

  lemma FramedKeeps(st: State, t: State, private: bool, lo: u64, hi: u64)
    requires Inv(st) && Canonical(t.maps) && |t.maps| <= CAPACITY
    requires t == st.(maps := t.maps, mem := t.mem, guestLo := t.guestLo, guestHi := t.guestHi)
    requires forall a: int :: FramedAt(st, private, lo, hi, t.maps, t.mem, a)
    ensures Inv(t)
  {
    forall a: int ensures AgreesAt(t, a) && SafeAt(t.maps, a) && BrkAt(t, a) {
      assert FramedAt(st, private, lo, hi, t.maps, t.mem, a);
      assert AgreesAt(st, a) && SafeAt(st.maps, a) && BrkAt(st, a);
    }
  }

  /** Mapping an image, private or not, keeps the invariant. */
  lemma ImageKeeps(st: State, l: Load, maps: seq<Extent>, mem: Memory)
    requires Inv(st) && LoadedBy(st, l, maps, mem)
    ensures Inv(AfterLoad(st, l, maps, mem))
  {
    var t := AfterLoad(st, l, maps, mem);
    forall a: int ensures FramedAt(st, l.private, l.at.lo, l.at.hi, t.maps, t.mem, a) {
      LoadFramed(st, l, maps, mem, a);
    }
    FramedKeeps(st, t, l.private, l.at.lo, l.at.hi);
  }

  /** Mapping leaves every mapped address alone and, the guest's own span aside,
      adds no foreign one. */
  lemma ImageForeign(st: State, l: Load, maps: seq<Extent>, mem: Memory, a: int)
    requires LoadedBy(st, l, maps, mem)
    ensures At(st.mem, a).Some? ==> At(mem, a) == At(st.mem, a)
    ensures var t := AfterLoad(st, l, maps, mem);
      && (Foreign(st, a) ==> Foreign(t, a))
      && (Foreign(t, a) ==> Foreign(st, a) || (!l.private && l.at.lo <= a < l.at.hi))
  {
    LoadFramed(st, l, maps, mem, a);
  }

  // ---- file-backed code ----

  /** Some address of the image is recorded as executable without a file. */
  lemma ZeroPageIsCode(ph: seq<Phdr>, size: nat, i: nat)
    requires Ascending(ph, size) && i < |ph| && ph[i].load && FlagX(ph[i]) && SegMid(ph[i]) != SegHi(ph[i])
    ensures var p := ImageAttr(ph, size, |ph|, SegMid(ph[i])); Executable(p.prot) && Anonymous(p.flags)
  {
    ImageAttrOf(ph, size, |ph|, i, SegMid(ph[i]));
  }

  lemma NoZeroCode(ph: seq<Phdr>, size: nat, v: int)
    requires Ascending(ph, size) && CodeFromFile(ph, size)
    ensures var p := ImageAttr(ph, size, |ph|, v); !(Executable(p.prot) && Anonymous(p.flags))
  {
    if InSegment(ph, size, |ph|, v) {
      var i :| 0 <= i < |ph| && ph[i].load && SegLo(ph[i]) <= v < SegHi(ph[i]);
      SegmentFromFile(ph, size, i, v);
    } else {
      ImageAttrGap(ph, size, |ph|, v);
    }
  }

  lemma SegmentFromFile(ph: seq<Phdr>, size: nat, i: nat, v: int)
    requires Ascending(ph, size) && i < |ph| && ph[i].load && SegLo(ph[i]) <= v < SegHi(ph[i])
    requires FlagX(ph[i]) ==> SegMid(ph[i]) == SegHi(ph[i])
    ensures var p := ImageAttr(ph, size, |ph|, v); !(Executable(p.prot) && Anonymous(p.flags))
  {
    ImageAttrOf(ph, size, |ph|, i, v);
  }

  lemma BackedBy(s: seq<Extent>, t: seq<Extent>, ph: seq<Phdr>, size: nat, lo: int, hi: int, base: int)
    requires Ascending(ph, size) && CodeFromFile(ph, size) && CodeBacked(s)
    requires ImageTracked(s, t, ph, size, |ph|, lo, hi, base)
    ensures CodeBacked(t)
  {
    forall a: int ensures !AnonymousCodeAt(t, a) {
      assert !AnonymousCodeAt(s, a);
      NoZeroCode(ph, size, a - base);
    }
  }

  lemma NotBackedBy(s: seq<Extent>, t: seq<Extent>, ph: seq<Phdr>, size: nat, lo: int, hi: int, base: int)
    requires Ascending(ph, size) && !CodeFromFile(ph, size) && Spans(ph, size, lo, hi)
    requires ImageTracked(s, t, ph, size, |ph|, lo, hi, base)
    ensures !CodeBacked(t)
  {
    var i :| 0 <= i < |ph| && ph[i].load && FlagX(ph[i]) && SegMid(ph[i]) != SegHi(ph[i]);
    var v := SegMid(ph[i]);
    ZeroPageIsCode(ph, size, i);
    SegmentInSpan(ph, size, lo, hi, i);
    RecordedAt(s, t, ph, size, lo, hi, base, v);
    assert AnonymousCodeAt(t, base + v);
  }

  lemma RecordedAt(s: seq<Extent>, t: seq<Extent>, ph: seq<Phdr>, size: nat, lo: int, hi: int, base: int, v: int)
    requires Ascending(ph, size) && ImageTracked(s, t, ph, size, |ph|, lo, hi, base) && lo <= v < hi
    ensures Lookup(t, base + v) == Some(ImageAttr(ph, size, |ph|, v))
  {
    var a := base + v;
    assert a - base == v;
  }

  /** An image keeps tracked code file backed exactly when it is the guest's, or no
      executable segment has pages beyond its file. */
  lemma ImageCode(st: State, l: Load, maps: seq<Extent>, mem: Memory)
    requires LoadedBy(st, l, maps, mem) && CodeBacked(st.maps)
    ensures CodeBacked(AfterLoad(st, l, maps, mem).maps) <==> !l.private || CodeFromFile(l.ph, |l.file|)
  {
    if l.private {
      if CodeFromFile(l.ph, |l.file|) {
        BackedBy(st.maps, maps, l.ph, |l.file|, l.lo, l.hi, l.base);
      } else {
        NotBackedBy(st.maps, maps, l.ph, |l.file|, l.lo, l.hi, l.base);
      }
    }
  }

  lemma SegmentInSpan(ph: seq<Phdr>, size: nat, lo: int, hi: int, i: nat)
    requires Ascending(ph, size) && Spans(ph, size, lo, hi) && i < |ph| && ph[i].load
    requires SegMid(ph[i]) != SegHi(ph[i])
    ensures lo <= SegMid(ph[i]) < hi
  {
  }
}
