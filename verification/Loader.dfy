/** The ELF loader of the bootstrap: accept a program header table, reserve the
    image's span, then map and zero-fill each PT_LOAD segment inside it. */
module Loader {
  import opened Words
  import opened Extents
  import opened TrackSpec
  import opened Stages
  import opened Tracker
  import opened Memory

  const MAX_IMAGE: int := 16777216

  /** One program header. Flag bits: PF_X = 1, PF_W = 2, PF_R = 4. */
  datatype Phdr = Phdr(load: bool, flags: u64, offset: u64, vaddr: u64, filesz: u64, memsz: u64)

  /** The file header, as far as the loader reads it. */
  datatype Ehdr = Ehdr(ident: seq<byte>, kind: nat, machine: nat, phentsize: nat, entry: u64, phoff: u64)

  /** A 64-bit little-endian shared object for x86-64 with headers of the usual
      size. */
  predicate Recognised(h: Ehdr)
  {
    && |h.ident| >= 6 && h.ident[..4] == [0x7f, 0x45, 0x4c, 0x46] && h.ident[4] == 2 && h.ident[5] == 1
    && h.machine == 62 && h.kind == 3 && h.phentsize == 56
  }

  predicate FlagX(p: Phdr) { p.flags % 2 == 1 }
  predicate FlagW(p: Phdr) { p.flags % 4 >= 2 }
  predicate FlagR(p: Phdr) { p.flags % 8 >= 4 }

  function ProtOf(p: Phdr): (prot: u64)
    ensures (prot % 2 == 1) == FlagR(p) && Writable(prot) == FlagW(p) && Executable(prot) == FlagX(p) && prot < 8
  {
    (if FlagR(p) then 1 else 0) + (if FlagW(p) then 2 else 0) + (if FlagX(p) then 4 else 0)
  }

  function FileEnd(p: Phdr): int { p.vaddr + p.filesz }
  function MemEnd(p: Phdr): int { p.vaddr + p.memsz }

  /** The per-segment tests. */
  ghost predicate SegmentOk(p: Phdr, size: nat)
  {
    && p.filesz <= p.memsz && p.vaddr <= GIB && p.memsz <= GIB && p.offset <= GIB
    && p.vaddr + p.memsz <= GIB && p.offset <= size && p.filesz <= size - p.offset
    && p.vaddr - Floor(p.vaddr) == p.offset - Floor(p.offset)
    && p.memsz != 0 && !(FlagW(p) && FlagX(p))
  }

  function SegmentTest(p: Phdr, size: nat): (r: bool)
    ensures r == SegmentOk(p, size)
  {
    assert p.vaddr - Down(p.vaddr) == p.vaddr % 4096 && p.offset - Down(p.offset) == p.offset % 4096;
    && p.filesz <= p.memsz && p.vaddr <= GIB && p.memsz <= GIB && p.offset <= GIB
    && p.vaddr + p.memsz <= GIB && p.offset <= size && p.filesz <= size - p.offset
    && p.vaddr % 4096 == p.offset % 4096
    && p.memsz != 0 && !(FlagW(p) && FlagX(p))
  }

  /** The page range of a segment. */
  ghost function SegLo(p: Phdr): (r: int)
    requires p.vaddr <= GIB
    ensures 0 <= r <= p.vaddr < r + PAGE && Aligned(r)
  {
    Floor(p.vaddr)
  }

  ghost function SegHi(p: Phdr): (r: int)
    requires p.vaddr + p.memsz <= GIB
    ensures MemEnd(p) <= r < MemEnd(p) + PAGE && Aligned(r)
  {
    Ceil(p.vaddr + p.memsz)
  }

  /** The end of the file-backed pages, which is the start when there are none. */
  ghost function SegMid(p: Phdr): (r: int)
    requires p.vaddr + p.memsz <= GIB && p.filesz <= p.memsz
    ensures Aligned(r)
    ensures p.filesz > 0 ==> FileEnd(p) <= r < FileEnd(p) + PAGE
    ensures p.filesz == 0 ==> r == SegLo(p)
    ensures SegLo(p) <= r <= SegHi(p)
  {
    var r: u64 := if p.filesz > 0 then Ceil(p.vaddr + p.filesz) else Floor(p.vaddr);
    assert r <= SegHi(p) by { BoundaryOrder(r, SegHi(p)); }
    r
  }

  lemma BoundaryOrder(a: int, b: int)
    requires Aligned(a) && Aligned(b) && a < b + PAGE
    ensures a <= b
  {
    var i: int :| a == PageAt(i);
    var j: int :| b == PageAt(j);
  }

  // ---- what a loaded image is ----

  /** How the page of v in segment p is recorded. */
  ghost function SegAttr(p: Phdr, v: int): Attr
    requires p.vaddr + p.memsz <= GIB && p.filesz <= p.memsz
  {
    Attr(ProtOf(p), if v < SegMid(p) then MAP_PRIVATE else MAP_PRIVATE_ANONYMOUS)
  }

  /** The System V gABI rule: the file's bytes, then zeros up to p_memsz. */
  ghost function SegByte(file: seq<byte>, p: Phdr, v: int): byte
    requires SegmentOk(p, |file|) && p.vaddr <= v < MemEnd(p)
  {
    if v < FileEnd(p) then file[p.offset + (v - p.vaddr)] else 0
  }

  /** The page of v is mapped as segment p says, and its byte is right. */
  ghost predicate SegLoadedAt(m: Memory, file: seq<byte>, p: Phdr, base: int, v: int)
    requires SegmentOk(p, |file|)
  {
    SegLo(p) <= v < SegHi(p) ==>
      && HowAt(m, base + v) == Some(HowOf(SegAttr(p, v).prot, SegAttr(p, v).flags))
      && (p.vaddr <= v < MemEnd(p) ==> m.cells[base + v].byte == SegByte(file, p, v))
  }

  // ---- loading one segment ----

  datatype Loaded = Done | Failure(code: nat)

  /** The last call was this one, and its answer was not the one wanted. */
  predicate Denied(last: Option<Call>, nr: Nr, x: Args, wanted: u64)
  {
    last.Some? && last.value.nr == nr && last.value.x == x && last.value.result != wanted
  }

  /** A segment whose last file page holds code and must be cleared past the file. */
  ghost predicate ClearsCode(p: Phdr)
  {
    FlagX(p) && 0 < p.filesz < p.memsz && !Aligned(FileEnd(p))
  }

  /** The address of the last file page. */
  ghost function TailOf(p: Phdr, base: int): u64
    requires p.vaddr + p.memsz <= GIB && p.filesz <= p.memsz && p.filesz > 0
    requires PAGE <= base + SegMid(p) <= USER_END
  {
    base + SegMid(p) - PAGE
  }

  ghost function FileArgs(p: Phdr, base: int, fd: u64): Args
    requires p.vaddr + p.memsz <= GIB && p.filesz <= p.memsz
    requires 0 <= base + SegLo(p) && base + SegHi(p) <= USER_END
  {
    Args(base + SegLo(p), SegMid(p) - SegLo(p), ProtOf(p), MAP_PRIVATE_FIXED, fd, Floor(p.offset))
  }

  ghost function ZeroArgs(p: Phdr, base: int): Args
    requires p.vaddr + p.memsz <= GIB && p.filesz <= p.memsz
    requires 0 <= base + SegLo(p) && base + SegHi(p) <= USER_END
  {
    Args(base + SegMid(p), SegHi(p) - SegMid(p), ProtOf(p), MAP_PRIVATE_ANONYMOUS_FIXED, MAX64, 0)
  }

  /** Why loading a segment stopped: a call that was answered otherwise than asked,
      code that would have to be cleared, or a tracker with more than 62 extents. */
  ghost predicate Stopped(code: nat, last: Option<Call>, t: seq<Extent>, private: bool, fd: u64, p: Phdr, base: int)
    requires p.vaddr + p.memsz <= GIB && p.filesz <= p.memsz
    requires 0 <= base + SegLo(p) && base + SegHi(p) <= USER_END
  {
    || (code == 92 && private && |t| > 62)
    || (code == 101 && p.filesz > 0 && Denied(last, Mmap, FileArgs(p, base, fd), base + SegLo(p)))
    || TailStopped(code, last, p, base)
    || (code == 105 && SegMid(p) < SegHi(p) && Denied(last, Mmap, ZeroArgs(p, base), base + SegMid(p)))
  }

  /** Why clearing the last file page stopped. */
  ghost predicate TailStopped(code: nat, last: Option<Call>, p: Phdr, base: int)
    requires p.vaddr + p.memsz <= GIB && p.filesz <= p.memsz
  {
    || (code == 102 && ClearsCode(p))
    || (code == 103 && PadDenied(last, p, base, WithWrite(ProtOf(p))))
    || (code == 104 && PadDenied(last, p, base, ProtOf(p)))
  }

  /** Reprotecting the last file page was refused. */
  ghost predicate PadDenied(last: Option<Call>, p: Phdr, base: int, prot: u64)
    requires p.vaddr + p.memsz <= GIB && p.filesz <= p.memsz
  {
    && 0 < p.filesz < p.memsz && !Aligned(FileEnd(p)) && PAGE <= base + SegMid(p) <= USER_END
    && Denied(last, Mprotect, Args(TailOf(p, base), 4096, prot, 0, 0, 0), 0)
  }

  /** `prot | PROT_WRITE` */
  function WithWrite(prot: u64): (r: u64)
    requires prot < 8
    ensures Writable(r)
  {
    if Writable(prot) then prot else prot + 2
  }

  /** The range [lo, hi), relative to base, changed and nothing else did. */
  ghost predicate OnlyIn(m: Memory, m': Memory, lo: int, hi: int)
  {
    && m'.files == m.files
    && forall a: int :: !(lo <= a < hi) ==> At(m', a) == At(m, a)
  }

  /** What is mapped after the file pages of a segment are. */
  ghost predicate FilePages(m: Memory, file: seq<byte>, p: Phdr, base: int, v: int)
    requires SegmentOk(p, |file|)
  {
    SegLo(p) <= v < SegMid(p) ==>
      && HowAt(m, base + v) == Some(HowOf(ProtOf(p), MAP_PRIVATE))
      && (p.vaddr <= v < FileEnd(p) ==> m.cells[base + v].byte == file[p.offset + (v - p.vaddr)])
  }

  /** Biased addresses: the C code adds a bias that may have wrapped below zero,
      and the sum wraps back to the address inside the region. */
  function Biased(bias: u64, v: int): u64
    requires 0 <= v < TWO64
  {
    if bias + v < TWO64 then bias + v else bias + v - TWO64
  }

  /** `region - lo`, which wraps when the region lies below lo. */
  function BiasOf(base: int): u64
    requires -TWO64 < base < TWO64
  {
    if base < 0 then base + TWO64 else base
  }

  lemma BiasedAt(bias: u64, base: int, v: int)
    requires 0 <= v && 0 <= base + v < TWO64 && -TWO64 < base < TWO64 && v < TWO64
    requires bias == BiasOf(base)
    ensures Biased(bias, v) == base + v
  {
  }

  method MapFile(m: Machine, fd: u64, p: Phdr, ghost file: seq<byte>, ghost base: int, start: u64, bytes: u64)
    returns (r: Loaded)
    requires m.Valid() && SegmentOk(p, |file|) && p.filesz > 0
    requires fd in m.mem.files && m.mem.files[fd] == file
    requires start == base + SegLo(p) && bytes == SegMid(p) - SegLo(p)
    requires Aligned(base) && base + SegHi(p) <= USER_END
    modifies m
    ensures OnlyIn(old(m.mem), m.mem, base + SegLo(p), base + SegMid(p))
    ensures r.Done? ==> forall v: int :: FilePages(m.mem, file, p, base, v)
    ensures r.Failure? ==> r.code == 101 && Denied(m.last, Mmap, FileArgs(p, base, fd), start)
  {
    var x := Args(start, bytes, ProtOf(p), MAP_PRIVATE_FIXED, fd, Down(p.offset));
    var got := m.Syscall(Mmap, x);
    if got != start { return Failure(101); }
    AlignedSum(base, SegLo(p));
    AlignedSum(base, SegMid(p));
    CeilUnique(start + bytes, start + bytes);
    forall v: int ensures FilePages(m.mem, file, p, base, v) {
      if SegLo(p) <= v < SegMid(p) {
        assert In(start, bytes, base + v);
      }
    }
    forall a: int | !(base + SegLo(p) <= a < base + SegMid(p)) ensures At(m.mem, a) == At(old(m.mem), a) {
      assert !In(start, bytes, a);
    }
    r := Done;
  }

  /** The bytes from the end of the file part to the end of its page are zero. */
  ghost predicate PaddedAt(m: Memory, p: Phdr, base: int, v: int)
    requires p.vaddr + p.memsz <= GIB && p.filesz <= p.memsz
  {
    FileEnd(p) <= v < SegMid(p) && p.filesz > 0 ==> At(m, base + v).Some? && m.cells[base + v].byte == 0
  }

  predicate ReprotectedAt(m: Memory, m': Memory, page: u64, prot: u64, a: int)
  {
    At(m', a) == if page <= a < page + PAGE && At(m, a).Some?
                 then Some(Cell(m.cells[a].how.(access := prot % 8), m.cells[a].byte))
                 else At(m, a)
  }

  /** Reprotect one page that lies inside a segment's file pages. */
  method ProtectPage(m: Machine, page: u64, prot: u64) returns (ok: bool)
    requires m.Valid() && Aligned(page)
    modifies m
    ensures m.mem.files == old(m.mem.files)
    ensures !ok ==> m.mem == old(m.mem) && Denied(m.last, Mprotect, Args(page, 4096, prot, 0, 0, 0), 0)
    ensures ok ==> forall a: int :: ReprotectedAt(old(m.mem), m.mem, page, prot, a)
  {
    var result := m.Syscall(Mprotect, Args(page, 4096, prot, 0, 0, 0));
    ok := result == 0;
    if ok {
      assert Aligned(page + 4096) by { assert PageAt(1) == 4096; AlignedSum(page, 4096); }
      CeilUnique(page + 4096, page + 4096);
      forall a: int ensures ReprotectedAt(old(m.mem), m.mem, page, prot, a) {
        assert In(page, 4096, a) <==> page <= a < page + PAGE;
      }
    }
  }

  /** Store zeros over [from, to). */
  method ZeroFill(m: Machine, from: u64, to: u64)
    requires from <= to
    requires forall a: int :: from <= a < to ==>
      HowAt(m.mem, a).Some? && Writable(HowAt(m.mem, a).value.access)
    modifies m`mem
    ensures m.mem.files == old(m.mem.files)
    ensures forall a: int :: HowAt(m.mem, a) == HowAt(old(m.mem), a)
    ensures forall a: int :: !(from <= a < to) ==> At(m.mem, a) == At(old(m.mem), a)
    ensures forall a: int :: from <= a < to ==> At(m.mem, a).Some? && m.mem.cells[a].byte == 0
  {
    var a := from;
    while a < to
      invariant from <= a <= to
      invariant m.mem.files == old(m.mem.files)
      invariant forall c: int :: HowAt(m.mem, c) == HowAt(old(m.mem), c)
      invariant forall c: int :: !(from <= c < a) ==> At(m.mem, c) == At(old(m.mem), c)
      invariant forall c: int :: from <= c < a ==> At(m.mem, c).Some? && m.mem.cells[c].byte == 0
    {
      assert HowAt(m.mem, a) == HowAt(old(m.mem), a);
      m.Store(a, 0);
      a := a + 1;
    }
  }

  /** Why clearing the tail at `page` stopped. */
  predicate PadStopped(code: nat, last: Option<Call>, p: Phdr, page: u64)
  {
    || (code == 102 && FlagX(p))
    || (code == 103 && Denied(last, Mprotect, Args(page, 4096, WithWrite(ProtOf(p)), 0, 0, 0), 0))
    || (code == 104 && Denied(last, Mprotect, Args(page, 4096, ProtOf(p), 0, 0, 0), 0))
  }

  /** Clear the tail of the last file page: make it writable, zero it to the end
      of the page, restore its protection. Refused for executable segments. */
  method PadZero(m: Machine, p: Phdr, ghost file: seq<byte>, ghost base: int, fileEnd: u64) returns (r: Loaded)
    requires m.Valid() && SegmentOk(p, |file|) && p.filesz > 0
    requires fileEnd == base + FileEnd(p) && !Aligned(fileEnd)
    requires Aligned(base) && 0 <= base + SegLo(p) && base + SegHi(p) <= USER_END
    requires forall v: int :: FilePages(m.mem, file, p, base, v)
    modifies m
    ensures OnlyIn(old(m.mem), m.mem, base + SegLo(p), base + SegMid(p))
    ensures r.Done? ==> forall v: int :: FilePages(m.mem, file, p, base, v) && PaddedAt(m.mem, p, base, v)
    ensures r.Failure? ==> PadStopped(r.code, m.last, p, Floor(fileEnd))
    ensures r.Done? ==> !FlagX(p)
  {
    if Executable(ProtOf(p)) { return Failure(102); }
    var page, end := Down(fileEnd), Up(fileEnd);
    TailPage(p, base, fileEnd);
    ghost var m0 := m.mem;
    assert forall v: int :: FilePages(m0, file, p, base, v);
    var ok := ProtectPage(m, page, WithWrite(ProtOf(p)));
    if !ok { return Failure(103); }
    ghost var m1 := m.mem;
    forall a: int | fileEnd <= a < end ensures
      HowAt(m1, a).Some? && Writable(HowAt(m1, a).value.access)
    {
      assert FilePages(m0, file, p, base, a - base);
      assert ReprotectedAt(m0, m1, page, WithWrite(ProtOf(p)), a);
    }
    ZeroFill(m, fileEnd, end);
    ghost var m2 := m.mem;
    ok := ProtectPage(m, page, ProtOf(p));
    ghost var m3 := m.mem;
    forall a: int | !(base + SegLo(p) <= a < base + SegMid(p)) ensures At(m3, a) == At(m0, a) {
      assert ReprotectedAt(m0, m1, page, WithWrite(ProtOf(p)), a);
      assert At(m2, a) == At(m1, a);
      assert ok ==> ReprotectedAt(m2, m3, page, ProtOf(p), a);
    }
    if !ok { return Failure(104); }
    forall v: int ensures FilePages(m3, file, p, base, v) && PaddedAt(m3, p, base, v) {
      PadRestores(m0, m1, m2, m3, file, p, base, page, fileEnd, v);
    }
    r := Done;
  }

  /** The last file page ends where the file pages do. */
  lemma TailPage(p: Phdr, base: int, fileEnd: u64)
    requires p.vaddr + p.memsz <= GIB && p.filesz <= p.memsz && p.filesz > 0
    requires fileEnd == base + FileEnd(p) && !Aligned(fileEnd)
    requires Aligned(base) && 0 <= base + SegLo(p) && base + SegHi(p) <= USER_END
    ensures Ceil(fileEnd) == base + SegMid(p) == Floor(fileEnd) + PAGE
    ensures base + SegLo(p) <= Floor(fileEnd) < fileEnd
  {
    AlignedSum(base, SegMid(p));
    AlignedSum(base, SegLo(p));
    CeilUnique(fileEnd, base + SegMid(p));
    assert Floor(fileEnd) != fileEnd;
    assert PageAt(1) == 4096;
    AlignedSum(Floor(fileEnd), 4096);
    SamePage(Floor(fileEnd) + 4096, base + SegMid(p));
    AlignedBelow(base + SegLo(p), fileEnd);
  }

  /** Protect, zero and restore leave the file pages mapped as before. */
  lemma PadRestores(m0: Memory, m1: Memory, m2: Memory, m3: Memory, file: seq<byte>, p: Phdr, base: int,
                    page: u64, fileEnd: u64, v: int)
    requires SegmentOk(p, |file|) && p.filesz > 0 && fileEnd == base + FileEnd(p)
    requires page <= fileEnd < page + PAGE == base + SegMid(p)
    requires FilePages(m0, file, p, base, v)
    requires ReprotectedAt(m0, m1, page, WithWrite(ProtOf(p)), base + v)
    requires HowAt(m2, base + v) == HowAt(m1, base + v)
    requires !(fileEnd <= base + v < page + PAGE) ==> At(m2, base + v) == At(m1, base + v)
    requires fileEnd <= base + v < page + PAGE ==> At(m2, base + v).Some? && m2.cells[base + v].byte == 0
    requires ReprotectedAt(m2, m3, page, ProtOf(p), base + v)
    ensures FilePages(m3, file, p, base, v) && PaddedAt(m3, p, base, v)
  {
  }

  /** Zeroed anonymous pages with the segment's protection. */
  ghost predicate ZeroPages(m: Memory, p: Phdr, base: int, v: int)
    requires p.vaddr + p.memsz <= GIB && p.filesz <= p.memsz
  {
    SegMid(p) <= v < SegHi(p) ==>
      At(m, base + v) == Some(Cell(HowOf(ProtOf(p), MAP_PRIVATE_ANONYMOUS), 0))
  }

  /** Map zeroed anonymous pages over the rest of the segment. */
  method MapAnonymous(m: Machine, p: Phdr, ghost base: int, anon: u64, bytes: u64) returns (r: Loaded)
    requires m.Valid() && p.vaddr + p.memsz <= GIB && p.filesz <= p.memsz
    requires anon == base + SegMid(p) && bytes == SegHi(p) - SegMid(p) && bytes > 0
    requires Aligned(base) && 0 <= base + SegLo(p) && base + SegHi(p) <= USER_END
    modifies m
    ensures OnlyIn(old(m.mem), m.mem, base + SegMid(p), base + SegHi(p))
    ensures r.Done? ==> forall v: int :: ZeroPages(m.mem, p, base, v)
    ensures r.Failure? ==> r.code == 105 && Denied(m.last, Mmap, ZeroArgs(p, base), anon)
  {
    var x := Args(anon, bytes, ProtOf(p), MAP_PRIVATE_ANONYMOUS_FIXED, MAX64, 0);
    var got := m.Syscall(Mmap, x);
    if got != anon { return Failure(105); }
    AlignedSum(base, SegMid(p));
    AlignedSum(base, SegHi(p));
    CeilUnique(anon + bytes, anon + bytes);
    forall v: int ensures ZeroPages(m.mem, p, base, v) {
      if SegMid(p) <= v < SegHi(p) {
        assert In(anon, bytes, base + v);
      }
    }
    forall a: int | !(base + SegMid(p) <= a < base + SegHi(p)) ensures At(m.mem, a) == At(old(m.mem), a) {
      assert !In(anon, bytes, a);
    }
    r := Done;
  }

  /** The biased ends of a segment round to its biased page boundaries. */
  lemma SegAddresses(p: Phdr, bias: u64, base: int)
    requires p.vaddr + p.memsz <= GIB && p.filesz <= p.memsz
    requires Aligned(base) && -GIB <= base && 0 <= base + SegLo(p) && base + SegHi(p) <= USER_END
    requires bias == BiasOf(base)
    ensures Biased(bias, SegLo(p)) == base + SegLo(p)
    ensures Biased(bias, FileEnd(p)) == base + FileEnd(p) && Biased(bias, MemEnd(p)) == base + MemEnd(p)
    ensures p.filesz > 0 ==> Ceil(base + FileEnd(p)) == base + SegMid(p)
    ensures Ceil(base + MemEnd(p)) == base + SegHi(p)
  {
    BiasedAt(bias, base, SegLo(p));
    BiasedAt(bias, base, FileEnd(p));
    BiasedAt(bias, base, MemEnd(p));
    AlignedSum(base, SegMid(p));
    AlignedSum(base, SegHi(p));
    if p.filesz > 0 {
      CeilUnique(base + FileEnd(p), base + SegMid(p));
    }
    CeilUnique(base + MemEnd(p), base + SegHi(p));
  }

  /** File pages, their cleared tail and the zero pages make the segment. */
  lemma SegAssembled(m: Memory, file: seq<byte>, p: Phdr, base: int, v: int)
    requires SegmentOk(p, |file|)
    requires p.filesz > 0 ==> FilePages(m, file, p, base, v)
    requires MemEnd(p) > FileEnd(p) ==> PaddedAt(m, p, base, v)
    requires ZeroPages(m, p, base, v)
    ensures SegLoadedAt(m, file, p, base, v)
  {
  }

  /** Record [lo, hi) for a private image; nothing is recorded for the guest's. */
  method TrackIf(ctl: Control, private: bool, lo: u64, hi: u64, prot: u64, flags: u64) returns (ok: bool)
    requires ctl.Valid() && lo < hi && Aligned(lo) && Aligned(hi) && prot != DROP_MAP && !WriteExec(prot)
    modifies ctl`mapCount, ctl`codeCount, ctl.maps, ctl.code
    ensures ctl.Valid()
    ensures !private ==> ok && ctl.Contents() == old(ctl.Contents())
    ensures private && ok ==> Updated(old(ctl.Contents()), ctl.Contents(), lo, hi, prot, flags)
    ensures !ok ==> |ctl.Contents()| > 62
  {
    ok := true;
    if private {
      ghost var s := ctl.Contents();
      if |s| <= 62 {
        RangeRequestable(lo, hi);
        TrackSucceeds(s, lo, hi - lo, prot, flags);
      }
      var rc := ctl.TrackMap(lo, hi - lo, prot, flags);
      ok := rc == 0;
    }
  }

  /** Clear the tail of the last file page if the segment goes on past the file. */
  method ClearTail(m: Machine, p: Phdr, ghost file: seq<byte>, ghost base: int, fileEnd: u64, memEnd: u64)
    returns (r: Loaded)
    requires m.Valid() && SegmentOk(p, |file|) && p.filesz > 0
    requires fileEnd == base + FileEnd(p) && memEnd == base + MemEnd(p) && Ceil(fileEnd) == base + SegMid(p)
    requires Aligned(base) && 0 <= base + SegLo(p) && base + SegHi(p) <= USER_END
    requires forall v: int :: FilePages(m.mem, file, p, base, v)
    modifies m
    ensures OnlyIn(old(m.mem), m.mem, base + SegLo(p), base + SegMid(p))
    ensures r.Done? ==> forall v: int :: FilePages(m.mem, file, p, base, v)
    ensures r.Done? && MemEnd(p) > FileEnd(p) ==> forall v: int :: PaddedAt(m.mem, p, base, v)
    ensures r.Failure? ==> TailStopped(r.code, m.last, p, base)
    ensures r.Done? ==> !ClearsCode(p)
  {
    r := Done;
    AlignedEnd(p, base);
    if memEnd > fileEnd && fileEnd != Up(fileEnd) {
      assert !Aligned(fileEnd) by {
        if Aligned(fileEnd) { CeilUnique(fileEnd, fileEnd); }
      }
      TailPage(p, base, fileEnd);
      r := PadZero(m, p, file, base, fileEnd);
    }
  }

  lemma AlignedEnd(p: Phdr, base: int)
    requires Aligned(base)
    ensures Aligned(base + FileEnd(p)) <==> Aligned(FileEnd(p))
  {
    if Aligned(FileEnd(p)) {
      AlignedSum(base, FileEnd(p));
    }
    if Aligned(base + FileEnd(p)) {
      AlignedSum(base + FileEnd(p), base);
    }
  }

  /** Map a segment's file pages and record them. */
  method RecordFile(m: Machine, ctl: Control, private: bool, fd: u64, p: Phdr, ghost file: seq<byte>,
                    ghost base: int, start: u64, end: u64)
    returns (r: Loaded)
    requires m.Valid() && ctl.Valid() && SegmentOk(p, |file|) && p.filesz > 0
    requires fd in m.mem.files && m.mem.files[fd] == file
    requires start == base + SegLo(p) && end == base + SegMid(p)
    requires Aligned(base) && 0 <= base + SegLo(p) && base + SegHi(p) <= USER_END
    modifies m, ctl`mapCount, ctl`codeCount, ctl.maps, ctl.code
    ensures ctl.Valid()
    ensures OnlyIn(old(m.mem), m.mem, base + SegLo(p), base + SegMid(p))
    ensures r.Done? ==> forall v: int :: FilePages(m.mem, file, p, base, v)
    ensures !private ==> ctl.Contents() == old(ctl.Contents())
    ensures r.Done? && private ==>
      Updated(old(ctl.Contents()), ctl.Contents(), start, base + SegMid(p), ProtOf(p), MAP_PRIVATE)
    ensures r.Failure? ==> Stopped(r.code, m.last, ctl.Contents(), private, fd, p, base)
  {
    r := MapFile(m, fd, p, file, base, start, end - start);
    if r.Failure? { return; }
    AlignedSum(base, SegLo(p));
    AlignedSum(base, SegMid(p));
    var ok := TrackIf(ctl, private, start, end, ProtOf(p), MAP_PRIVATE);
    if !ok { return Failure(92); }
  }

  /** Map a segment's file pages, record them and clear the tail of the last. */
  method LoadFilePart(m: Machine, ctl: Control, private: bool, fd: u64, p: Phdr, ghost file: seq<byte>,
                      ghost base: int, start: u64, fileEnd: u64, memEnd: u64)
    returns (r: Loaded)
    requires m.Valid() && ctl.Valid() && SegmentOk(p, |file|) && p.filesz > 0
    requires fd in m.mem.files && m.mem.files[fd] == file
    requires start == base + SegLo(p) && fileEnd == base + FileEnd(p) && memEnd == base + MemEnd(p)
    requires Ceil(fileEnd) == base + SegMid(p)
    requires Aligned(base) && 0 <= base + SegLo(p) && base + SegHi(p) <= USER_END
    modifies m, ctl`mapCount, ctl`codeCount, ctl.maps, ctl.code
    ensures ctl.Valid()
    ensures OnlyIn(old(m.mem), m.mem, base + SegLo(p), base + SegMid(p))
    ensures r.Done? ==> forall v: int :: FilePages(m.mem, file, p, base, v)
    ensures r.Done? && MemEnd(p) > FileEnd(p) ==> forall v: int :: PaddedAt(m.mem, p, base, v)
    ensures !private ==> ctl.Contents() == old(ctl.Contents())
    ensures r.Done? && private ==>
      Updated(old(ctl.Contents()), ctl.Contents(), start, base + SegMid(p), ProtOf(p), MAP_PRIVATE)
    ensures r.Failure? ==> Stopped(r.code, m.last, ctl.Contents(), private, fd, p, base)
    ensures r.Done? ==> !ClearsCode(p)
  {
    r := RecordFile(m, ctl, private, fd, p, file, base, start, Up(fileEnd));
    if r.Failure? { return; }
    r := ClearTail(m, p, file, base, fileEnd, memEnd);
  }

  /** The tracker records exactly the segment's pages. */
  ghost predicate SegTracked(s: seq<Extent>, t: seq<Extent>, p: Phdr, base: int)
    requires p.vaddr + p.memsz <= GIB && p.filesz <= p.memsz
  {
    forall a: int ::
      Lookup(t, a) == if base + SegLo(p) <= a < base + SegHi(p) then Some(SegAttr(p, a - base)) else Lookup(s, a)
  }

  lemma SegTrackedBy(s: seq<Extent>, t: seq<Extent>, u: seq<Extent>, p: Phdr, base: int)
    requires p.vaddr + p.memsz <= GIB && p.filesz <= p.memsz
    requires if p.filesz > 0 then Updated(s, t, base + SegLo(p), base + SegMid(p), ProtOf(p), MAP_PRIVATE) else t == s
    requires if SegMid(p) < SegHi(p)
      then Updated(t, u, base + SegMid(p), base + SegHi(p), ProtOf(p), MAP_PRIVATE_ANONYMOUS) else u == t
    ensures SegTracked(s, u, p, base)
  {
    forall a: int ensures
      Lookup(u, a) == if base + SegLo(p) <= a < base + SegHi(p) then Some(SegAttr(p, a - base)) else Lookup(s, a)
    {
      assert p.filesz > 0 ==>
        Lookup(t, a) == Overridden(Lookup(s, a), base + SegLo(p), base + SegMid(p), ProtOf(p), MAP_PRIVATE, a);
      assert SegMid(p) < SegHi(p) ==>
        Lookup(u, a) ==
          Overridden(Lookup(t, a), base + SegMid(p), base + SegHi(p), ProtOf(p), MAP_PRIVATE_ANONYMOUS, a);
    }
  }

  /** Map and record the segment's zero pages, if it has any. */
  method LoadZeroPart(m: Machine, ctl: Control, private: bool, ghost fd: u64, p: Phdr, ghost base: int,
                      anon: u64, end: u64)
    returns (r: Loaded)
    requires m.Valid() && ctl.Valid() && p.vaddr + p.memsz <= GIB && p.filesz <= p.memsz && !(FlagW(p) && FlagX(p))
    requires anon == base + SegMid(p) && end == base + SegHi(p)
    requires Aligned(base) && 0 <= base + SegLo(p) && base + SegHi(p) <= USER_END
    modifies m, ctl`mapCount, ctl`codeCount, ctl.maps, ctl.code
    ensures ctl.Valid()
    ensures OnlyIn(old(m.mem), m.mem, base + SegMid(p), base + SegHi(p))
    ensures r.Done? ==> forall v: int :: ZeroPages(m.mem, p, base, v)
    ensures !private ==> ctl.Contents() == old(ctl.Contents())
    ensures r.Done? && private ==>
      if SegMid(p) < SegHi(p)
      then Updated(old(ctl.Contents()), ctl.Contents(), base + SegMid(p), base + SegHi(p),
                   ProtOf(p), MAP_PRIVATE_ANONYMOUS)
      else ctl.Contents() == old(ctl.Contents())
    ensures r.Failure? ==> Stopped(r.code, m.last, ctl.Contents(), private, fd, p, base)
  {
    r := Done;
    AlignedSum(base, SegMid(p));
    AlignedSum(base, SegHi(p));
    if end > anon {
      r := MapAnonymous(m, p, base, anon, end - anon);
      if r.Failure? { return; }
      var ok := TrackIf(ctl, private, anon, end, ProtOf(p), MAP_PRIVATE_ANONYMOUS);
      if !ok { return Failure(92); }
    }
  }

  lemma SegComplete(m1: Memory, m2: Memory, file: seq<byte>, p: Phdr, base: int)
    requires SegmentOk(p, |file|)
    requires p.filesz > 0 ==> forall v: int :: FilePages(m1, file, p, base, v)
    requires p.filesz > 0 && MemEnd(p) > FileEnd(p) ==> forall v: int :: PaddedAt(m1, p, base, v)
    requires OnlyIn(m1, m2, base + SegMid(p), base + SegHi(p))
    requires forall v: int :: ZeroPages(m2, p, base, v)
    ensures forall v: int :: SegLoadedAt(m2, file, p, base, v)
  {
    forall v: int ensures SegLoadedAt(m2, file, p, base, v) {
      assert !(SegMid(p) <= v < SegHi(p)) ==> At(m2, base + v) == At(m1, base + v);
      assert p.filesz > 0 ==> FilePages(m1, file, p, base, v);
      assert p.filesz > 0 && MemEnd(p) > FileEnd(p) ==> PaddedAt(m1, p, base, v);
      SegAssembled(m2, file, p, base, v);
    }
  }

  /** The zero pages that complete a segment whose file part, if any, is in place. */
  method CompleteSegment(m: Machine, ctl: Control, private: bool, ghost fd: u64, p: Phdr, ghost file: seq<byte>,
                         ghost base: int, anon: u64, end: u64, ghost s: seq<Extent>)
    returns (r: Loaded)
    requires m.Valid() && ctl.Valid() && SegmentOk(p, |file|)
    requires Aligned(base) && 0 <= base + SegLo(p) && base + SegHi(p) <= USER_END
    requires anon == base + SegMid(p) && end == base + SegHi(p)
    requires p.filesz > 0 ==> forall v: int :: FilePages(m.mem, file, p, base, v)
    requires p.filesz > 0 && MemEnd(p) > FileEnd(p) ==> forall v: int :: PaddedAt(m.mem, p, base, v)
    requires private ==>
      if p.filesz > 0 then Updated(s, ctl.Contents(), base + SegLo(p), base + SegMid(p), ProtOf(p), MAP_PRIVATE)
      else ctl.Contents() == s
    modifies m, ctl`mapCount, ctl`codeCount, ctl.maps, ctl.code
    ensures ctl.Valid()
    ensures OnlyIn(old(m.mem), m.mem, base + SegMid(p), base + SegHi(p))
    ensures r.Done? ==> forall v: int :: SegLoadedAt(m.mem, file, p, base, v)
    ensures !private ==> ctl.Contents() == old(ctl.Contents())
    ensures r.Done? && private ==> SegTracked(s, ctl.Contents(), p, base)
    ensures r.Failure? ==> Stopped(r.code, m.last, ctl.Contents(), private, fd, p, base)
  {
    ghost var m1, t := m.mem, ctl.Contents();
    r := LoadZeroPart(m, ctl, private, fd, p, base, anon, end);
    if r.Done? {
      SegComplete(m1, m.mem, file, p, base);
      if private {
        SegTrackedBy(s, t, ctl.Contents(), p, base);
      }
    }
  }

  /** The file part, if any, and then the zero part, at their addresses. */
  method LoadParts(m: Machine, ctl: Control, private: bool, fd: u64, p: Phdr, ghost file: seq<byte>, ghost base: int,
                   start: u64, fileEnd: u64, memEnd: u64, anon: u64, end: u64)
    returns (r: Loaded)
    requires m.Valid() && ctl.Valid() && SegmentOk(p, |file|)
    requires fd in m.mem.files && m.mem.files[fd] == file
    requires Aligned(base) && -GIB <= base && 0 <= base + SegLo(p) && base + SegHi(p) <= USER_END
    requires start == base + SegLo(p) && fileEnd == base + FileEnd(p) && memEnd == base + MemEnd(p)
    requires anon == base + SegMid(p) && end == base + SegHi(p)
    requires p.filesz > 0 ==> Ceil(fileEnd) == base + SegMid(p)
    modifies m, ctl`mapCount, ctl`codeCount, ctl.maps, ctl.code
    ensures ctl.Valid()
    ensures OnlyIn(old(m.mem), m.mem, base + SegLo(p), base + SegHi(p))
    ensures r.Done? ==> forall v: int :: SegLoadedAt(m.mem, file, p, base, v)
    ensures !private ==> ctl.Contents() == old(ctl.Contents())
    ensures r.Done? && private ==> SegTracked(old(ctl.Contents()), ctl.Contents(), p, base)
    ensures r.Failure? ==> Stopped(r.code, m.last, ctl.Contents(), private, fd, p, base)
    ensures r.Done? ==> !ClearsCode(p)
  {
    ghost var s := ctl.Contents();
    if p.filesz > 0 {
      r := LoadFilePart(m, ctl, private, fd, p, file, base, start, fileEnd, memEnd);
      if r.Failure? { return; }
    }
    r := CompleteSegment(m, ctl, private, fd, p, file, base, anon, end, s);
  }

  /** Load one segment: its pages hold what the header and the file say, and no
      other address changes. */
  method LoadSegment(m: Machine, ctl: Control, private: bool, fd: u64, p: Phdr, ghost file: seq<byte>,
                     ghost base: int, bias: u64)
    returns (r: Loaded)
    requires m.Valid() && ctl.Valid() && SegmentOk(p, |file|)
    requires fd in m.mem.files && m.mem.files[fd] == file
    requires Aligned(base) && -GIB <= base && 0 <= base + SegLo(p) && base + SegHi(p) <= USER_END
    requires bias == BiasOf(base)
    modifies m, ctl`mapCount, ctl`codeCount, ctl.maps, ctl.code
    ensures ctl.Valid()
    ensures OnlyIn(old(m.mem), m.mem, base + SegLo(p), base + SegHi(p))
    ensures r.Done? ==> forall v: int :: SegLoadedAt(m.mem, file, p, base, v)
    ensures !private ==> ctl.Contents() == old(ctl.Contents())
    ensures r.Done? && private ==> SegTracked(old(ctl.Contents()), ctl.Contents(), p, base)
    ensures r.Failure? ==> Stopped(r.code, m.last, ctl.Contents(), private, fd, p, base)
    ensures r.Done? ==> !ClearsCode(p)
  {
    var start, fileEnd, memEnd, anon, end := Addresses(p, bias, base);
    r := LoadParts(m, ctl, private, fd, p, file, base, start, fileEnd, memEnd, anon, end);
  }

  /** The biased addresses of a segment are those of its parts. */
  method Addresses(p: Phdr, bias: u64, ghost base: int)
    returns (start: u64, fileEnd: u64, memEnd: u64, anon: u64, end: u64)
    requires p.vaddr + p.memsz <= GIB && p.filesz <= p.memsz
    requires Aligned(base) && -GIB <= base && 0 <= base + SegLo(p) && base + SegHi(p) <= USER_END
    requires bias == BiasOf(base)
    ensures start == base + SegLo(p) && fileEnd == base + FileEnd(p) && memEnd == base + MemEnd(p)
    ensures anon == base + SegMid(p) && end == base + SegHi(p)
    ensures p.filesz > 0 ==> Ceil(fileEnd) == base + SegMid(p)
  {
    SegAddresses(p, bias, base);
    start, fileEnd := Biased(bias, Down(p.vaddr)), Biased(bias, p.vaddr + p.filesz);
    memEnd := Biased(bias, p.vaddr + p.memsz);
    anon := if p.filesz > 0 then Up(fileEnd) else start;
    end := Up(memEnd);
  }
}
