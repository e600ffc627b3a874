/** Whole images: which program header tables are accepted, and what memory and
    tracker look like once every segment has been loaded. */
module Image {
  import opened Words
  import opened Extents
  import opened TrackSpec
  import opened Tracker
  import opened Memory
  import opened Loader

  // ---- accepting a header table ----

  /** Segments are well formed and their page ranges ascend without overlap. */
  ghost predicate Ascending(ph: seq<Phdr>, size: nat)
  {
    && (forall i :: 0 <= i < |ph| && ph[i].load ==> SegmentOk(ph[i], size))
    && (forall i, j :: 0 <= i < j < |ph| && ph[i].load && ph[j].load ==> SegHi(ph[i]) <= SegLo(ph[j]))
  }

  predicate HoldsEntry(p: Phdr, entry: u64) { p.load && FlagX(p) && p.vaddr <= entry < FileEnd(p) }

  /** The segment's file part contains the whole header table. */
  predicate HoldsTable(p: Phdr, phoff: u64, bytes: int)
  {
    p.load && FlagR(p) && p.offset <= phoff && phoff - p.offset <= p.filesz && bytes <= p.filesz - (phoff - p.offset)
  }

  function TableBytes(ph: seq<Phdr>): int { |ph| * 56 }

  predicate HeaderOk(h: Ehdr, ph: seq<Phdr>, size: nat)
  {
    && Recognised(h) && 0 < |ph| <= 32 && h.phoff <= 65536 && h.phoff <= size
    && TableBytes(ph) <= size - h.phoff
  }

  predicate HasEntry(h: Ehdr, ph: seq<Phdr>, k: nat)
    requires k <= |ph|
  {
    exists i :: 0 <= i < k && HoldsEntry(ph[i], h.entry)
  }

  predicate HasTable(h: Ehdr, ph: seq<Phdr>, k: nat)
    requires k <= |ph|
  {
    exists i :: 0 <= i < k && HoldsTable(ph[i], h.phoff, TableBytes(ph))
  }

  /** Segment i is the last of the first k that hold the table. */
  predicate TableFrom(h: Ehdr, ph: seq<Phdr>, k: nat, i: nat)
    requires i < k <= |ph|
  {
    && HoldsTable(ph[i], h.phoff, TableBytes(ph))
    && forall j :: i < j < k ==> !HoldsTable(ph[j], h.phoff, TableBytes(ph))
  }

  /** Memory address v is where the last segment that holds it puts the table. */
  predicate TableIn(h: Ehdr, ph: seq<Phdr>, k: nat, v: int)
    requires k <= |ph|
  {
    exists i :: 0 <= i < k && TableFrom(h, ph, k, i) && v == ph[i].vaddr + (h.phoff - ph[i].offset)
  }

  /** The images the loader accepts. */
  ghost predicate Acceptable(h: Ehdr, ph: seq<Phdr>, size: nat)
  {
    && HeaderOk(h, ph, size) && Ascending(ph, size)
    && HasEntry(h, ph, |ph|) && HasTable(h, ph, |ph|) && FitsImage(ph, size)
  }

  /** The code of the first test an image fails, or 0. */
  ghost function HeaderRefusal(h: Ehdr, ph: seq<Phdr>, size: nat): nat
  {
    if !HeaderOk(h, ph, size) then 96
    else if !Ascending(ph, size) then 98
    else if !Acceptable(h, ph, size) then 99
    else 0
  }

  /** [lo, hi) is the span of the loaded segments. */
  ghost predicate Spans(ph: seq<Phdr>, size: nat, lo: int, hi: int)
    requires Ascending(ph, size)
  {
    && (forall i :: 0 <= i < |ph| && ph[i].load ==> lo <= SegLo(ph[i]) && SegHi(ph[i]) <= hi)
    && (exists i :: 0 <= i < |ph| && ph[i].load && SegLo(ph[i]) == lo)
    && (exists i :: 0 <= i < |ph| && ph[i].load && SegHi(ph[i]) == hi)
  }

  datatype Plan = Plan(lo: u64, hi: u64, table: u64) | Refused(code: nat)

  /** The running values of the walk over the headers. */
  datatype Walk = Walk(loads: nat, lo: u64, hi: u64, previousEnd: u64)

  function WalkStep(w: Walk, p: Phdr): Walk
    requires p.vaddr + p.memsz <= GIB
  {
    var end := Up(p.vaddr + p.memsz);
    Walk(w.loads + 1, if Down(p.vaddr) < w.lo then Down(p.vaddr) else w.lo, if end > w.hi then end else w.hi, end)
  }

  /** The walk after k headers. */
  ghost function WalkTo(ph: seq<Phdr>, k: nat): Walk
    requires k <= |ph| && forall i :: 0 <= i < k && ph[i].load ==> ph[i].vaddr + ph[i].memsz <= GIB
  {
    if k == 0 then Walk(0, MAX64, 0, 0)
    else if ph[k - 1].load then WalkStep(WalkTo(ph, k - 1), ph[k - 1])
    else WalkTo(ph, k - 1)
  }

  /** The walk's own tests: each segment against the end of the previous one. */
  ghost predicate WalkOk(ph: seq<Phdr>, size: nat, k: nat)
    requires k <= |ph|
    ensures WalkOk(ph, size, k) ==> forall i :: 0 <= i < k && ph[i].load ==> SegmentOk(ph[i], size)
  {
    k == 0 ||
    (WalkOk(ph, size, k - 1) &&
     (ph[k - 1].load ==>
        SegmentOk(ph[k - 1], size) &&
        (var w := WalkTo(ph, k - 1); w.loads > 0 ==> w.previousEnd <= SegLo(ph[k - 1]))))
  }

  /** The earlier segments lie between the walk's bounds. */
  lemma {:induction false} WalkBounds(ph: seq<Phdr>, size: nat, k: nat, i: nat)
    requires i < k <= |ph| && WalkOk(ph, size, k) && ph[i].load
    ensures var w := WalkTo(ph, k);
      w.loads > 0 && w.lo <= SegLo(ph[i]) && SegHi(ph[i]) <= w.previousEnd && w.hi == w.previousEnd
  {
    if i < k - 1 {
      WalkBounds(ph, size, k - 1, i);
    } else {
      WalkEnds(ph, size, k - 1);
    }
  }

  /** Both bounds are those of some segment. */
  lemma {:induction false} WalkEnds(ph: seq<Phdr>, size: nat, k: nat)
    requires k <= |ph| && WalkOk(ph, size, k)
    ensures var w := WalkTo(ph, k);
      && (w.loads == 0 ==> w == Walk(0, MAX64, 0, 0) && forall i :: 0 <= i < k ==> !ph[i].load)
      && (w.loads > 0 ==> w.hi == w.previousEnd)
      && (w.loads > 0 ==> exists i :: 0 <= i < k && ph[i].load && SegLo(ph[i]) == w.lo)
      && (w.loads > 0 ==> exists i :: 0 <= i < k && ph[i].load && SegHi(ph[i]) == w.hi)
  {
    if k > 0 {
      WalkEnds(ph, size, k - 1);
      var v, w := WalkTo(ph, k - 1), WalkTo(ph, k);
      if ph[k - 1].load {
        assert w.previousEnd == SegHi(ph[k - 1]);
        if v.loads > 0 {
          var i :| 0 <= i < k - 1 && ph[i].load && SegLo(ph[i]) == v.lo;
          WalkBounds(ph, size, k - 1, i);
          assert w.lo == SegLo(ph[i]);
        } else {
          assert w.lo == SegLo(ph[k - 1]);
        }
      } else if v.loads > 0 {
        var i :| 0 <= i < k - 1 && ph[i].load && SegLo(ph[i]) == v.lo;
        var j :| 0 <= j < k - 1 && ph[j].load && SegHi(ph[j]) == v.hi;
        assert ph[i].load && ph[j].load;
      }
    }
  }

  /** Testing neighbours is testing every pair. */
  lemma WalkAscends(ph: seq<Phdr>, size: nat)
    requires WalkOk(ph, size, |ph|)
    ensures Ascending(ph, size)
  {
    forall i, j | 0 <= i < j < |ph| && ph[i].load && ph[j].load ensures SegHi(ph[i]) <= SegLo(ph[j]) {
      WalkPrefix(ph, size, j + 1, |ph|);
      WalkBounds(ph, size, j, i);
    }
  }

  lemma {:induction false} WalkPrefix(ph: seq<Phdr>, size: nat, k: nat, n: nat)
    requires k <= n <= |ph| && WalkOk(ph, size, n)
    ensures WalkOk(ph, size, k)
  {
    if k < n {
      WalkPrefix(ph, size, k, n - 1);
    }
  }

  lemma {:induction false} AscendingWalks(ph: seq<Phdr>, size: nat, k: nat)
    requires k <= |ph| && Ascending(ph, size)
    ensures WalkOk(ph, size, k)
  {
    if k > 0 {
      AscendingWalks(ph, size, k - 1);
      if ph[k - 1].load {
        WalkEnds(ph, size, k - 1);
      }
    }
  }

  /** Walk the headers: check each segment, and find the span and its ends. */
  method ScanSegments(ph: seq<Phdr>, size: nat) returns (ok: bool, w: Walk)
    ensures ok <==> Ascending(ph, size)
    ensures ok ==> WalkOk(ph, size, |ph|) && w == WalkTo(ph, |ph|)
  {
    w := Walk(0, MAX64, 0, 0);
    for k := 0 to |ph|
      invariant WalkOk(ph, size, k)
      invariant w == WalkTo(ph, k)
    {
      var p := ph[k];
      if p.load {
        if !SegmentTest(p, size) || (w.loads > 0 && Down(p.vaddr) < w.previousEnd) {
          if Ascending(ph, size) { AscendingWalks(ph, size, k + 1); }
          return false, w;
        }
        w := WalkStep(w, p);
      }
    }
    WalkAscends(ph, size);
    ok := true;
  }

  /** A segment that holds the table is now the last; one that does not changes
      nothing. */
  lemma TableNext(h: Ehdr, ph: seq<Phdr>, k: nat)
    requires k < |ph|
    ensures HoldsTable(ph[k], h.phoff, TableBytes(ph)) ==>
      HasTable(h, ph, k + 1) && TableIn(h, ph, k + 1, ph[k].vaddr + (h.phoff - ph[k].offset))
    ensures !HoldsTable(ph[k], h.phoff, TableBytes(ph)) ==> HasTable(h, ph, k + 1) == HasTable(h, ph, k)
    ensures !HoldsTable(ph[k], h.phoff, TableBytes(ph)) ==>
      forall v: int :: TableIn(h, ph, k, v) ==> TableIn(h, ph, k + 1, v)
  {
    if HoldsTable(ph[k], h.phoff, TableBytes(ph)) {
      assert TableFrom(h, ph, k + 1, k);
    } else {
      forall v: int | TableIn(h, ph, k, v) ensures TableIn(h, ph, k + 1, v) {
        var i :| 0 <= i < k && TableFrom(h, ph, k, i) && v == ph[i].vaddr + (h.phoff - ph[i].offset);
        assert TableFrom(h, ph, k + 1, i);
      }
    }
  }

  /** Whether some executable segment holds the entry point, and where in memory
      the last segment that holds it puts the header table. */
  method ScanContents(h: Ehdr, ph: seq<Phdr>) returns (entryOk: bool, table: Option<u64>)
    requires forall i :: 0 <= i < |ph| && ph[i].load ==> ph[i].vaddr <= GIB
    requires h.phoff <= 65536
    ensures entryOk == HasEntry(h, ph, |ph|)
    ensures table.Some? == HasTable(h, ph, |ph|)
    ensures table.Some? ==> TableIn(h, ph, |ph|, table.value)
  {
    entryOk, table := false, None;
    for k := 0 to |ph|
      invariant entryOk == HasEntry(h, ph, k)
      invariant table.Some? == HasTable(h, ph, k)
      invariant table.Some? ==> TableIn(h, ph, k, table.value)
    {
      var p := ph[k];
      TableNext(h, ph, k);
      if p.load {
        if FlagX(p) && h.entry >= p.vaddr && h.entry < p.vaddr + p.filesz {
          assert HoldsEntry(p, h.entry);
          entryOk := true;
        }
        if && FlagR(p) && h.phoff >= p.offset && h.phoff - p.offset <= p.filesz
           && TableBytes(ph) <= p.filesz - (h.phoff - p.offset) {
          assert HoldsTable(p, h.phoff, TableBytes(ph));
          table := Some(p.vaddr + (h.phoff - p.offset));
        }
      }
    }
  }

  ghost predicate FitsImage(ph: seq<Phdr>, size: nat)
    requires Ascending(ph, size)
  {
    forall i, j :: 0 <= i < |ph| && 0 <= j < |ph| && ph[i].load && ph[j].load ==>
      SegHi(ph[j]) - SegLo(ph[i]) <= MAX_IMAGE
  }

  /** The one span test is the test of every pair of segments. */
  lemma SpanWithin(ph: seq<Phdr>, size: nat)
    requires Ascending(ph, size) && WalkOk(ph, size, |ph|) && WalkTo(ph, |ph|).loads > 0
    ensures var w := WalkTo(ph, |ph|); w.lo < w.hi <= GIB + PAGE && Spans(ph, size, w.lo, w.hi)
    ensures var w := WalkTo(ph, |ph|); FitsImage(ph, size) <==> w.hi - w.lo <= MAX_IMAGE
  {
    WalkEnds(ph, size, |ph|);
    var w := WalkTo(ph, |ph|);
    forall i | 0 <= i < |ph| && ph[i].load ensures w.lo <= SegLo(ph[i]) && SegHi(ph[i]) <= w.hi {
      WalkBounds(ph, size, |ph|, i);
    }
    var i :| 0 <= i < |ph| && ph[i].load && SegLo(ph[i]) == w.lo;
    var j :| 0 <= j < |ph| && ph[j].load && SegHi(ph[j]) == w.hi;
    assert SegLo(ph[i]) < SegHi(ph[i]) <= w.hi;
  }

  /** The acceptance tests, in the loader's order of refusal codes. */
  method Accept(h: Ehdr, ph: seq<Phdr>, size: nat) returns (plan: Plan)
    ensures plan.Plan? <==> Acceptable(h, ph, size)
    ensures plan.Plan? ==> Spans(ph, size, plan.lo, plan.hi)
    ensures plan.Plan? ==> TableIn(h, ph, |ph|, plan.table)
    ensures plan.Plan? ==> plan.lo < plan.hi <= plan.lo + MAX_IMAGE && plan.hi <= GIB + PAGE
    ensures plan.Refused? ==> plan.code == HeaderRefusal(h, ph, size)
  {
    if !HeaderOk(h, ph, size) { return Refused(96); }
    var ok, w := ScanSegments(ph, size);
    if !ok { return Refused(98); }
    var entryOk, table := ScanContents(h, ph);
    plan := Refused(99);
    if w.loads > 0 {
      SpanWithin(ph, size);
      if entryOk && w.hi > w.lo && w.hi - w.lo <= MAX_IMAGE && table.Some? {
        plan := Plan(w.lo, w.hi, table.value);
      }
    } else {
      WalkEnds(ph, size, |ph|);
    }
  }

  // ---- the loaded image ----

  /** v lies in the page range of one of the first k segments. */
  ghost predicate InSegment(ph: seq<Phdr>, size: nat, k: nat, v: int)
    requires k <= |ph| && Ascending(ph, size)
  {
    exists i :: 0 <= i < k && ph[i].load && SegLo(ph[i]) <= v < SegHi(ph[i])
  }

  /** The first k segments are in memory as the file says. */
  ghost predicate SegsLoaded(m: Memory, file: seq<byte>, ph: seq<Phdr>, k: nat, base: int)
    requires k <= |ph| && Ascending(ph, |file|)
  {
    forall i, v: int :: 0 <= i < k && ph[i].load ==> SegLoadedAt(m, file, ph[i], base, v)
  }

  /** Outside the segments the reserved span is inaccessible. */
  ghost predicate GapAt(m: Memory, ph: seq<Phdr>, size: nat, k: nat, base: int, v: int)
    requires k <= |ph| && Ascending(ph, size)
  {
    !InSegment(ph, size, k, v) ==> At(m, base + v) == Some(Cell(HowOf(PROT_NONE, MAP_PRIVATE_ANONYMOUS), 0))
  }

  ghost predicate GapsKept(m: Memory, ph: seq<Phdr>, size: nat, k: nat, lo: int, hi: int, base: int)
    requires k <= |ph| && Ascending(ph, size)
  {
    forall v: int :: lo <= v < hi ==> GapAt(m, ph, size, k, base, v)
  }

  /** What the tracker should say of v once k segments are loaded. */
  ghost function ImageAttr(ph: seq<Phdr>, size: nat, k: nat, v: int): Attr
    requires k <= |ph| && Ascending(ph, size)
  {
    if k == 0 then Attr(PROT_NONE, MAP_PRIVATE_ANONYMOUS)
    else if ph[k - 1].load && SegLo(ph[k - 1]) <= v < SegHi(ph[k - 1]) then SegAttr(ph[k - 1], v)
    else ImageAttr(ph, size, k - 1, v)
  }

  ghost predicate ImageTracked(s: seq<Extent>, t: seq<Extent>, ph: seq<Phdr>, size: nat, k: nat,
                               lo: int, hi: int, base: int)
    requires k <= |ph| && Ascending(ph, size)
  {
    forall a: int ::
      Lookup(t, a) == if base + lo <= a < base + hi then Some(ImageAttr(ph, size, k, a - base)) else Lookup(s, a)
  }

  /** A later segment never disturbs an earlier one. */
  lemma LoadedNext(m: Memory, m': Memory, file: seq<byte>, ph: seq<Phdr>, k: nat, base: int)
    requires k < |ph| && Ascending(ph, |file|) && ph[k].load && SegsLoaded(m, file, ph, k, base)
    requires OnlyIn(m, m', base + SegLo(ph[k]), base + SegHi(ph[k]))
    requires forall v: int :: SegLoadedAt(m', file, ph[k], base, v)
    ensures SegsLoaded(m', file, ph, k + 1, base)
  {
    forall i, v: int | 0 <= i < k + 1 && ph[i].load ensures SegLoadedAt(m', file, ph[i], base, v) {
      if i < k {
        assert SegLoadedAt(m, file, ph[i], base, v);
        assert SegHi(ph[i]) <= SegLo(ph[k]);
        assert v < SegHi(ph[i]) ==> At(m', base + v) == At(m, base + v);
      }
    }
  }

  lemma GapsNext(m: Memory, m': Memory, ph: seq<Phdr>, size: nat, k: nat, lo: int, hi: int, base: int)
    requires k < |ph| && Ascending(ph, size) && ph[k].load && GapsKept(m, ph, size, k, lo, hi, base)
    requires OnlyIn(m, m', base + SegLo(ph[k]), base + SegHi(ph[k]))
    ensures GapsKept(m', ph, size, k + 1, lo, hi, base)
  {
    var n := k + 1;
    forall v: int | lo <= v < hi ensures GapAt(m', ph, size, n, base, v) {
      assert GapAt(m, ph, size, k, base, v);
      if !InSegment(ph, size, k + 1, v) {
        assert !(SegLo(ph[k]) <= v < SegHi(ph[k]));
        assert At(m', base + v) == At(m, base + v);
      }
    }
  }

  lemma TrackedNext(s: seq<Extent>, t: seq<Extent>, u: seq<Extent>, ph: seq<Phdr>, size: nat, k: nat,
                    lo: int, hi: int, base: int)
    requires k < |ph| && Ascending(ph, size) && ph[k].load
    requires lo <= SegLo(ph[k]) && SegHi(ph[k]) <= hi
    requires ImageTracked(s, t, ph, size, k, lo, hi, base) && SegTracked(t, u, ph[k], base)
    ensures ImageTracked(s, u, ph, size, k + 1, lo, hi, base)
  {
  }

  /** A header that is not PT_LOAD changes nothing. */
  lemma SkipNext(m: Memory, s: seq<Extent>, t: seq<Extent>, file: seq<byte>, ph: seq<Phdr>, k: nat,
                 lo: int, hi: int, base: int, private: bool)
    requires k < |ph| && Ascending(ph, |file|) && !ph[k].load
    requires SegsLoaded(m, file, ph, k, base) && GapsKept(m, ph, |file|, k, lo, hi, base)
    requires private ==> ImageTracked(s, t, ph, |file|, k, lo, hi, base)
    ensures SegsLoaded(m, file, ph, k + 1, base) && GapsKept(m, ph, |file|, k + 1, lo, hi, base)
    ensures private ==> ImageTracked(s, t, ph, |file|, k + 1, lo, hi, base)
  {
    var n := k + 1;
    forall v: int | lo <= v < hi ensures GapAt(m, ph, |file|, n, base, v) {
      assert GapAt(m, ph, |file|, k, base, v);
      if InSegment(ph, |file|, k, v) {
        var i :| 0 <= i < k && ph[i].load && SegLo(ph[i]) <= v < SegHi(ph[i]);
        assert ph[i].load;
      }
    }
  }

  /** The image in memory: its segments, its gaps and, if recorded, the tracker. */
  ghost predicate ImageIs(m0: Memory, m: Memory, s: seq<Extent>, t: seq<Extent>, file: seq<byte>, ph: seq<Phdr>, k: nat,
                          lo: int, hi: int, base: int, private: bool)
    requires k <= |ph| && Ascending(ph, |file|)
  {
    && OnlyIn(m0, m, base + lo, base + hi)
    && SegsLoaded(m, file, ph, k, base) && GapsKept(m, ph, |file|, k, lo, hi, base)
    && (if private then ImageTracked(s, t, ph, |file|, k, lo, hi, base) else t == s)
  }

  /** The reserved span before any segment is loaded. */
  lemma ReservedIs(m0: Memory, m: Memory, s: seq<Extent>, t: seq<Extent>, file: seq<byte>, ph: seq<Phdr>,
                   lo: int, hi: int, base: int, private: bool)
    requires Ascending(ph, |file|)
    requires OnlyIn(m0, m, base + lo, base + hi)
    requires forall a: int :: base + lo <= a < base + hi ==>
      At(m, a) == Some(Cell(HowOf(PROT_NONE, MAP_PRIVATE_ANONYMOUS), 0))
    requires if private then Updated(s, t, base + lo, base + hi, PROT_NONE, MAP_PRIVATE_ANONYMOUS) else t == s
    ensures ImageIs(m0, m, s, t, file, ph, 0, lo, hi, base, private)
  {
  }

  /** One more segment. */
  lemma ImageNext(m0: Memory, m: Memory, m': Memory, s: seq<Extent>, t: seq<Extent>, u: seq<Extent>,
                  file: seq<byte>, ph: seq<Phdr>, k: nat, lo: int, hi: int, base: int, private: bool)
    requires k < |ph| && Ascending(ph, |file|) && ph[k].load
    requires ImageIs(m0, m, s, t, file, ph, k, lo, hi, base, private)
    requires lo <= SegLo(ph[k]) && SegHi(ph[k]) <= hi
    requires OnlyIn(m, m', base + SegLo(ph[k]), base + SegHi(ph[k]))
    requires forall v: int :: SegLoadedAt(m', file, ph[k], base, v)
    requires if private then SegTracked(t, u, ph[k], base) else u == t
    ensures ImageIs(m0, m', s, u, file, ph, k + 1, lo, hi, base, private)
  {
    LoadedNext(m, m', file, ph, k, base);
    GapsNext(m, m', ph, |file|, k, lo, hi, base);
    if private {
      TrackedNext(s, t, u, ph, |file|, k, lo, hi, base);
    }
    assert forall a: int :: !(base + lo <= a < base + hi) ==> At(m', a) == At(m, a);
  }

  lemma OnlyInWider(m0: Memory, m1: Memory, m2: Memory, a: int, b: int, lo: int, hi: int)
    requires OnlyIn(m0, m1, lo, hi) && OnlyIn(m1, m2, a, b) && lo <= a && b <= hi
    ensures OnlyIn(m0, m2, lo, hi)
  {
  }

  /** Why loading one of the segments stopped. */
  ghost predicate SegmentStopped(code: nat, last: Option<Call>, t: seq<Extent>, private: bool, fd: u64,
                                 ph: seq<Phdr>, size: nat, lo: int, hi: int, base: int)
    requires Ascending(ph, size) && Spans(ph, size, lo, hi) && 0 <= base + lo && base + hi <= USER_END
  {
    exists i :: 0 <= i < |ph| && ph[i].load && Stopped(code, last, t, private, fd, ph[i], base)
  }

  /** No segment would have code cleared. */
  ghost predicate ClearsNoCode(ph: seq<Phdr>, k: nat)
    requires k <= |ph|
  {
    forall i :: 0 <= i < k && ph[i].load ==> !ClearsCode(ph[i])
  }

  /** Load the next program header's segment, if it has one. */
  method LoadNext(m: Machine, ctl: Control, private: bool, fd: u64, ph: seq<Phdr>, k: nat, ghost file: seq<byte>,
                  ghost lo: int, ghost hi: int, ghost base: int, bias: u64, ghost m0: Memory, ghost s: seq<Extent>)
    returns (r: Loaded)
    requires m.Valid() && ctl.Valid() && Ascending(ph, |file|) && Spans(ph, |file|, lo, hi) && k < |ph|
    requires fd in m0.files && m0.files[fd] == file
    requires Aligned(base) && 0 <= lo <= GIB && 0 <= base + lo && base + hi <= USER_END && bias == BiasOf(base)
    requires ImageIs(m0, m.mem, s, ctl.Contents(), file, ph, k, lo, hi, base, private)
    modifies m, ctl`mapCount, ctl`codeCount, ctl.maps, ctl.code
    ensures ctl.Valid()
    ensures OnlyIn(m0, m.mem, base + lo, base + hi)
    ensures r.Done? ==> ImageIs(m0, m.mem, s, ctl.Contents(), file, ph, k + 1, lo, hi, base, private)
    ensures r.Done? && ClearsNoCode(ph, k) ==> ClearsNoCode(ph, k + 1)
    ensures r.Failure? ==>
      SegmentStopped(r.code, m.last, ctl.Contents(), private, fd, ph, |file|, lo, hi, base)
  {
    ghost var m1, t := m.mem, ctl.Contents();
    if !ph[k].load {
      SkipNext(m.mem, s, t, file, ph, k, lo, hi, base, private);
      return Done;
    }
    r := LoadSegment(m, ctl, private, fd, ph[k], file, base, bias);
    OnlyInWider(m0, m1, m.mem, base + SegLo(ph[k]), base + SegHi(ph[k]), base + lo, base + hi);
    if r.Done? {
      ImageNext(m0, m1, m.mem, s, t, ctl.Contents(), file, ph, k, lo, hi, base, private);
    }
  }

  /** Load every segment into the reserved span. */
  method LoadSegments(m: Machine, ctl: Control, private: bool, fd: u64, ph: seq<Phdr>, ghost file: seq<byte>,
                      ghost lo: int, ghost hi: int, ghost base: int, bias: u64, ghost m0: Memory, ghost s: seq<Extent>)
    returns (r: Loaded)
    requires m.Valid() && ctl.Valid() && Ascending(ph, |file|) && Spans(ph, |file|, lo, hi)
    requires fd in m0.files && m0.files[fd] == file
    requires Aligned(base) && 0 <= lo <= GIB && 0 <= base + lo && base + hi <= USER_END && bias == BiasOf(base)
    requires ImageIs(m0, m.mem, s, ctl.Contents(), file, ph, 0, lo, hi, base, private)
    modifies m, ctl`mapCount, ctl`codeCount, ctl.maps, ctl.code
    ensures ctl.Valid()
    ensures OnlyIn(m0, m.mem, base + lo, base + hi)
    ensures r.Done? ==> ImageIs(m0, m.mem, s, ctl.Contents(), file, ph, |ph|, lo, hi, base, private)
    ensures r.Done? ==> ClearsNoCode(ph, |ph|)
    ensures r.Failure? ==>
      SegmentStopped(r.code, m.last, ctl.Contents(), private, fd, ph, |file|, lo, hi, base)
  {
    for k := 0 to |ph|
      invariant ctl.Valid() && ClearsNoCode(ph, k) && OnlyIn(m0, m.mem, base + lo, base + hi)
      invariant ImageIs(m0, m.mem, s, ctl.Contents(), file, ph, k, lo, hi, base, private)
    {
      r := LoadNext(m, ctl, private, fd, ph, k, file, lo, hi, base, bias, m0, s);
      if r.Failure? { return; }
    }
    r := Done;
  }

  /** Nothing is mapped in [lo, hi). */
  ghost predicate Free(m: Memory, lo: int, hi: int)
  {
    forall a: int :: lo <= a < hi ==> At(m, a) == None
  }

  function SpanArgs(lo: u64, hi: u64): Args
    requires lo < hi
  {
    Args(0, hi - lo, PROT_NONE, MAP_PRIVATE_ANONYMOUS, MAX64, 0)
  }

  /** Why reserving the span stopped: the kernel found no room or the tracker had
      none. */
  predicate SpanStopped(code: nat, last: Option<Call>, t: seq<Extent>, private: bool, lo: u64, hi: u64, region: u64)
    requires lo < hi
  {
    || (code == 100 && Failed(region) && last == Some(Call(Mmap, SpanArgs(lo, hi), region)))
    || (code == 92 && private && |t| > 62)
  }

  /** Why mapping an accepted image stopped: no room for its span, a full tracker,
      or one of its segments. */
  ghost predicate ImageStopped(code: nat, last: Option<Call>, t: seq<Extent>, private: bool, fd: u64,
                               ph: seq<Phdr>, size: nat, lo: u64, hi: u64, region: u64)
    requires Ascending(ph, size) && Spans(ph, size, lo, hi) && lo < hi
  {
    || SpanStopped(code, last, t, private, lo, hi, region)
    || (&& region + (hi - lo) <= USER_END
        && SegmentStopped(code, last, t, private, fd, ph, size, lo, hi, region - lo))
  }

  /** An inaccessible mapping as long as the span, wherever the kernel puts it. */
  method ReserveSpan(m: Machine, lo: u64, hi: u64) returns (region: u64)
    requires m.Valid() && lo < hi && Aligned(lo) && Aligned(hi)
    modifies m
    ensures m.mem.files == old(m.mem.files)
    ensures m.last == Some(Call(Mmap, SpanArgs(lo, hi), region))
    ensures !Failed(region) ==> Aligned(region - lo) && region + (hi - lo) <= USER_END
    ensures !Failed(region) ==> OnlyIn(old(m.mem), m.mem, region, region + (hi - lo))
    ensures !Failed(region) ==> forall a: int :: region <= a < region + (hi - lo) ==>
      At(old(m.mem), a) == None && At(m.mem, a) == Some(Cell(HowOf(PROT_NONE, MAP_PRIVATE_ANONYMOUS), 0))
  {
    region := m.Syscall(Mmap, SpanArgs(lo, hi));
    if !Failed(region) {
      Reserved(old(m.mem), m.mem, region, hi - lo, region - lo, lo, hi);
    }
  }

  /** Reserve [lo, hi)'s worth of room wherever the kernel finds it, and record it. */
  method ReserveImage(m: Machine, ctl: Control, private: bool, ghost file: seq<byte>, ghost ph: seq<Phdr>,
                      lo: u64, hi: u64)
    returns (r: Loaded, region: u64)
    requires m.Valid() && ctl.Valid() && Ascending(ph, |file|) && lo < hi && Aligned(lo) && Aligned(hi)
    modifies m, ctl`mapCount, ctl`codeCount, ctl.maps, ctl.code
    ensures ctl.Valid()
    ensures r.Done? ==> region + (hi - lo) <= USER_END && Aligned(region - lo)
    ensures r.Done? ==> Free(old(m.mem), region, region + (hi - lo))
    ensures r.Done? ==> ImageIs(old(m.mem), m.mem, old(ctl.Contents()), ctl.Contents(), file,
                                ph, 0, lo, hi, region - lo, private)
    ensures r.Failure? ==> SpanStopped(r.code, m.last, ctl.Contents(), private, lo, hi, region)
  {
    ghost var m0, s := m.mem, ctl.Contents();
    region := ReserveSpan(m, lo, hi);
    if Failed(region) { return Failure(100), region; }
    AlignedSum(region - lo, lo);
    AlignedSum(region - lo, hi);
    var ok := TrackIf(ctl, private, region, region + (hi - lo), PROT_NONE, MAP_PRIVATE_ANONYMOUS);
    if !ok { return Failure(92), region; }
    ReservedIs(m0, m.mem, s, ctl.Contents(), file, ph, lo, hi, region - lo, private);
    r := Done;
  }

  /** Reserve the span, and load every segment into it. */
  method LoadAt(m: Machine, ctl: Control, private: bool, fd: u64, ph: seq<Phdr>, ghost file: seq<byte>,
                lo: u64, hi: u64)
    returns (r: Loaded, region: u64, ghost base: int)
    requires m.Valid() && ctl.Valid() && fd in m.mem.files && m.mem.files[fd] == file
    requires Ascending(ph, |file|) && Spans(ph, |file|, lo, hi) && lo < hi
    modifies m, ctl`mapCount, ctl`codeCount, ctl.maps, ctl.code
    ensures ctl.Valid()
    ensures r.Done? ==> region + (hi - lo) <= USER_END && base == region - lo
    ensures r.Done? ==> Free(old(m.mem), region, region + (hi - lo))
    ensures r.Done? ==> ImageIs(old(m.mem), m.mem, old(ctl.Contents()), ctl.Contents(), file,
                                ph, |ph|, lo, hi, base, private)
    ensures r.Done? ==> ClearsNoCode(ph, |ph|)
    ensures r.Failure? ==>
      ImageStopped(r.code, m.last, ctl.Contents(), private, fd, ph, |file|, lo, hi, region)
  {
    ghost var m0, s := m.mem, ctl.Contents();
    SpanAligned(ph, |file|, lo, hi);
    r, region := ReserveImage(m, ctl, private, file, ph, lo, hi);
    base := region - lo;
    if r.Failure? { return; }
    r := LoadSegments(m, ctl, private, fd, ph, file, lo, hi, base, BiasOf(region - lo), m0, s);
  }

  datatype Mapped = Mapped(lo: u64, hi: u64, bias: u64, entry: u64, table: u64) | Ended(code: nat)

  /** What a mapped image is: its span was free, nothing outside it changed, its
      segments, gaps and tracker records are right, and so are the addresses
      reported. */
  ghost predicate ImageMapped(m0: Memory, m: Memory, s: seq<Extent>, t: seq<Extent>, file: seq<byte>,
                              h: Ehdr, ph: seq<Phdr>,
                              lo: u64, hi: u64, base: int, r: Mapped, private: bool)
    requires r.Mapped?
  {
    && Ascending(ph, |file|) && Spans(ph, |file|, lo, hi) && r.hi == r.lo + (hi - lo) && base == r.lo - lo
    && Free(m0, r.lo, r.hi)
    && ImageIs(m0, m, s, t, file, ph, |ph|, lo, hi, base, private)
    && r.bias == (if base < 0 then base + TWO64 else base)
    && r.entry == base + h.entry && TableIn(h, ph, |ph|, r.table - base)
  }

  /** The part of the loader that follows acceptance. */
  method PlaceImage(m: Machine, ctl: Control, private: bool, fd: u64, h: Ehdr, ph: seq<Phdr>,
                    ghost file: seq<byte>, plan: Plan)
    returns (r: Mapped, region: u64, ghost base: int)
    requires m.Valid() && ctl.Valid() && fd in m.mem.files && m.mem.files[fd] == file
    requires plan.Plan? && plan.lo < plan.hi && HasEntry(h, ph, |ph|) && TableIn(h, ph, |ph|, plan.table)
    requires Ascending(ph, |file|) && Spans(ph, |file|, plan.lo, plan.hi)
    modifies m, ctl`mapCount, ctl`codeCount, ctl.maps, ctl.code
    ensures ctl.Valid()
    ensures r.Mapped? ==>
      ImageMapped(old(m.mem), m.mem, old(ctl.Contents()), ctl.Contents(), file, h, ph,
                  plan.lo, plan.hi, base, r, private)
    ensures r.Mapped? ==> ClearsNoCode(ph, |ph|)
    ensures r.Ended? ==>
      ImageStopped(r.code, m.last, ctl.Contents(), private, fd, ph, |file|, plan.lo, plan.hi, region)
  {
    EntryInside(h, ph, |file|, plan.lo, plan.hi);
    TableInside(h, ph, |file|, plan.lo, plan.hi, plan.table);
    var loaded;
    loaded, region, base := LoadAt(m, ctl, private, fd, ph, file, plan.lo, plan.hi);
    if loaded.Failure? { return Ended(loaded.code), region, base; }
    r := Report(h, plan, region, base);
    Assembled(old(m.mem), m.mem, old(ctl.Contents()), ctl.Contents(), file, h, ph, plan, base, r, private);
  }

  lemma Assembled(m0: Memory, m: Memory, s: seq<Extent>, t: seq<Extent>, file: seq<byte>, h: Ehdr, ph: seq<Phdr>,
                  plan: Plan, base: int, r: Mapped, private: bool)
    requires r.Mapped? && plan.Plan? && plan.lo < plan.hi
    requires Ascending(ph, |file|) && Spans(ph, |file|, plan.lo, plan.hi) && Free(m0, r.lo, r.hi)
    requires base == r.lo - plan.lo && r.hi == r.lo + (plan.hi - plan.lo)
    requires ImageIs(m0, m, s, t, file, ph, |ph|, plan.lo, plan.hi, base, private)
    requires -TWO64 < base && r.bias == BiasOf(base)
    requires r.entry == base + h.entry && r.table == base + plan.table && TableIn(h, ph, |ph|, plan.table)
    ensures ImageMapped(m0, m, s, t, file, h, ph, plan.lo, plan.hi, base, r, private)
  {
    assert r.table - base == plan.table;
  }

  /** Map an image: accept its headers, reserve its span where the kernel finds
      room, and load it there. For every accepted image that ends with Mapped:
      memory outside the span is untouched and the span was free; each byte of
      each segment is the file's or zero; pages carry their segment's
      protection; gaps stay inaccessible; and a private image is tracked exactly
      so, while the guest's is not tracked at all. An image that is not
      acceptable changes nothing; an acceptable one is mapped unless a call is
      answered otherwise than asked, the tracker holds more than 62 extents, or
      code would have to be cleared. */
  method MapImage(m: Machine, ctl: Control, private: bool, fd: u64, h: Ehdr, ph: seq<Phdr>, size: nat)
    returns (r: Mapped, ghost lo: u64, ghost hi: u64, ghost base: int, ghost region: u64)
    requires m.Valid() && ctl.Valid() && fd in m.mem.files && |m.mem.files[fd]| == size
    modifies m, ctl`mapCount, ctl`codeCount, ctl.maps, ctl.code
    ensures ctl.Valid()
    ensures var code := HeaderRefusal(h, ph, size);
      code != 0 ==> r == Ended(code) && m.mem == old(m.mem) && ctl.Contents() == old(ctl.Contents())
    ensures r.Mapped? ==>
      ImageMapped(old(m.mem), m.mem, old(ctl.Contents()), ctl.Contents(), old(m.mem.files)[fd], h, ph,
                  lo, hi, base, r, private)
    ensures r.Mapped? ==> ClearsNoCode(ph, |ph|)
    ensures HeaderRefusal(h, ph, size) == 0 && r.Ended? ==>
      && lo < hi && Spans(ph, size, lo, hi)
      && ImageStopped(r.code, m.last, ctl.Contents(), private, fd, ph, size, lo, hi, region)
  {
    lo, hi, base, region := 0, 0, 0, 0;
    var plan := Accept(h, ph, size);
    if plan.Refused? { return Ended(plan.code), lo, hi, base, region; }
    lo, hi := plan.lo, plan.hi;
    r, region, base := PlaceImage(m, ctl, private, fd, h, ph, m.mem.files[fd], plan);
  }

  lemma SpanAligned(ph: seq<Phdr>, size: nat, lo: int, hi: int)
    requires Ascending(ph, size) && Spans(ph, size, lo, hi)
    ensures Aligned(lo) && Aligned(hi) && 0 <= lo <= GIB
  {
  }

  /** The entry point lies inside the span. */
  lemma EntryInside(h: Ehdr, ph: seq<Phdr>, size: nat, lo: int, hi: int)
    requires Ascending(ph, size) && Spans(ph, size, lo, hi) && HasEntry(h, ph, |ph|)
    ensures lo <= h.entry < hi
  {
    var i :| 0 <= i < |ph| && HoldsEntry(ph[i], h.entry);
    assert SegmentOk(ph[i], size);
    assert lo <= SegLo(ph[i]) && SegHi(ph[i]) <= hi;
  }

  /** So does the header table. */
  lemma TableInside(h: Ehdr, ph: seq<Phdr>, size: nat, lo: int, hi: int, table: u64)
    requires Ascending(ph, size) && Spans(ph, size, lo, hi) && TableIn(h, ph, |ph|, table)
    ensures lo <= table <= hi
  {
    var j :| 0 <= j < |ph| && TableFrom(h, ph, |ph|, j) && table == ph[j].vaddr + (h.phoff - ph[j].offset);
    assert SegmentOk(ph[j], size);
    assert lo <= SegLo(ph[j]) && SegHi(ph[j]) <= hi;
  }

  /** The addresses the loader reports are those of the loaded image. */
  function Report(h: Ehdr, plan: Plan, region: u64, ghost base: int): (r: Mapped)
    requires plan.Plan? && base == region - plan.lo && region + (plan.hi - plan.lo) <= USER_END
    requires plan.lo <= h.entry < plan.hi && plan.lo <= plan.table <= plan.hi
    ensures r.Mapped? && r.lo == region && r.hi == region + (plan.hi - plan.lo)
    ensures r.bias == BiasOf(base) && r.entry == base + h.entry && r.table == base + plan.table
  {
    var bias := BiasOf(region - plan.lo);
    BiasedAt(bias, base, h.entry);
    BiasedAt(bias, base, plan.table);
    Mapped(region, region + (plan.hi - plan.lo), bias, Biased(bias, h.entry), Biased(bias, plan.table))
  }

  /** What an unplaced anonymous mapping of the span leaves. */
  lemma Reserved(m0: Memory, m: Memory, region: u64, bytes: u64, base: int, lo: int, hi: int)
    requires bytes == hi - lo && base + lo == region && Aligned(lo) && Aligned(hi)
    requires m.files == m0.files
    requires MmapDone(m0, Args(0, bytes, PROT_NONE, MAP_PRIVATE_ANONYMOUS, MAX64, 0), region, m)
    ensures Aligned(base) && region + bytes <= USER_END && OnlyIn(m0, m, base + lo, base + hi)
    ensures forall a: int :: base + lo <= a < base + hi ==>
      At(m0, a) == None && At(m, a) == Some(Cell(HowOf(PROT_NONE, MAP_PRIVATE_ANONYMOUS), 0))
  {
    AlignedSum(hi, lo);
    AlignedSum(region, bytes);
    AlignedSum(region, lo);
    CeilUnique(region + bytes, region + bytes);
    forall a: int ensures base + lo <= a < base + hi ==>
      At(m0, a) == None && At(m, a) == Some(Cell(HowOf(PROT_NONE, MAP_PRIVATE_ANONYMOUS), 0))
      ensures !(base + lo <= a < base + hi) ==> At(m, a) == At(m0, a)
    {
      assert In(region, bytes, a) <==> base + lo <= a < base + hi;
    }
  }

  // ---- consequences ----

  /** In a finished image the attribute of a segment's page is the segment's. */
  lemma {:induction false} ImageAttrOf(ph: seq<Phdr>, size: nat, k: nat, i: nat, v: int)
    requires i < k <= |ph| && Ascending(ph, size) && ph[i].load && SegLo(ph[i]) <= v < SegHi(ph[i])
    ensures ImageAttr(ph, size, k, v) == SegAttr(ph[i], v)
  {
    if i < k - 1 {
      ImageAttrOf(ph, size, k - 1, i, v);
    }
  }

  lemma {:induction false} ImageAttrGap(ph: seq<Phdr>, size: nat, k: nat, v: int)
    requires k <= |ph| && Ascending(ph, size) && !InSegment(ph, size, k, v)
    ensures ImageAttr(ph, size, k, v) == Attr(PROT_NONE, MAP_PRIVATE_ANONYMOUS)
  {
    if k > 0 {
      assert !(ph[k - 1].load && SegLo(ph[k - 1]) <= v < SegHi(ph[k - 1]));
      ImageAttrGap(ph, size, k - 1, v);
    }
  }

  /** For a private image, what the tracker records of the span is how the
      kernel maps it, address by address. */
  lemma ImageAgrees(m0: Memory, m: Memory, s: seq<Extent>, t: seq<Extent>, file: seq<byte>, ph: seq<Phdr>,
                    lo: int, hi: int, base: int, v: int)
    requires Ascending(ph, |file|) && ImageIs(m0, m, s, t, file, ph, |ph|, lo, hi, base, true)
    requires lo <= v < hi
    ensures var l := Lookup(t, base + v);
      l.Some? && HowAt(m, base + v) == Some(HowOf(l.value.prot, l.value.flags))
      && !WriteExec(l.value.prot) && l.value.prot < 8
  {
    assert Lookup(t, base + v) == Some(ImageAttr(ph, |file|, |ph|, v));
    if InSegment(ph, |file|, |ph|, v) {
      var i :| 0 <= i < |ph| && ph[i].load && SegLo(ph[i]) <= v < SegHi(ph[i]);
      ImageAttrOf(ph, |file|, |ph|, i, v);
      assert SegLoadedAt(m, file, ph[i], base, v);
    } else {
      ImageAttrGap(ph, |file|, |ph|, v);
      assert GapAt(m, ph, |file|, |ph|, base, v);
    }
  }

  /** The header table is in memory where the loader says it is. */
  lemma TableLoaded(m: Memory, file: seq<byte>, h: Ehdr, ph: seq<Phdr>, base: int, table: u64, i: nat)
    requires Ascending(ph, |file|) && SegsLoaded(m, file, ph, |ph|, base) && TableIn(h, ph, |ph|, table)
    requires i < TableBytes(ph) && h.phoff + TableBytes(ph) <= |file|
    ensures At(m, base + table + i).Some? && m.cells[base + table + i].byte == file[h.phoff + i]
  {
    var j :| 0 <= j < |ph| && TableFrom(h, ph, |ph|, j) && table == ph[j].vaddr + (h.phoff - ph[j].offset);
    assert SegLoadedAt(m, file, ph[j], base, table + i);
    assert base + (table + i) == base + table + i;
  }
}
