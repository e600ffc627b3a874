/** When the tracker's fixed capacity suffices: no relayed call and no break
    request is ended by a full tracker while at most 62 extents are held. */
module Room {
  import opened Words
  import opened Extents
  import opened TrackSpec
  import opened Stages
  import opened Memory
  import opened Relay
  import opened RelayProofs

  // ---- counting extents by where they start ----

  function Starts(s: seq<Extent>): set<int> { set i | 0 <= i < |s| :: s[i].lo }

  lemma SubsetSize<T>(a: set<T>, b: set<T>)
    requires a <= b
    ensures |a| <= |b|
  {
    assert b == a + (b - a);
  }

  lemma {:induction false} StartsCount(s: seq<Extent>)
    requires Sorted(s)
    ensures |Starts(s)| == |s|
  {
    if s != [] {
      var init, last := s[..|s| - 1], s[|s| - 1];
      StartsCount(init);
      assert Starts(s) == Starts(init) + {last.lo as int};
      assert last.lo !in Starts(init);
    }
  }

  /** In a coalesced list an extent starts exactly where the map changes to
      something tracked. */
  lemma StartsHere(s: seq<Extent>, a: int)
    requires Sorted(s) && Separated(s)
    ensures a in Starts(s) <==> Lookup(s, a).Some? && Lookup(s, a - 1) != Lookup(s, a)
  {
    if a in Starts(s) {
      var i :| 0 <= i < |s| && s[i].lo == a;
      LookupAt(s, i, a);
      if Lookup(s, a - 1).Some? {
        var j := LookupSome(s, a - 1);
        assert j < i;
        assert !Mergeable(s[i - 1], s[i]);
      }
    } else if Lookup(s, a).Some? {
      var j := LookupSome(s, a);
      LookupAt(s, j, a - 1);
    }
  }

  lemma PieceStarts(m: Extent, lo: u64, hi: u64, b: int)
    requires lo < hi && m.lo < m.hi
    ensures b in Starts(Pieces(m, lo, hi)) ==> b == hi || (b == m.lo && !(lo <= b < hi))
  {
  }

  /** Carving leaves extents that started outside the range, and at most one that
      starts at its end. */
  lemma {:induction false} CarveStarts(s: seq<Extent>, lo: u64, hi: u64, b: int)
    requires lo < hi && Nonempty(s)
    ensures b in Starts(Carve(s, lo, hi)) ==> b == hi || (b in Starts(s) && !(lo <= b < hi))
  {
    if s != [] {
      var t, m := s[..|s| - 1], s[|s| - 1];
      CarveStarts(t, lo, hi, b);
      PieceStarts(m, lo, hi, b);
      StartsConcat(Carve(t, lo, hi), Pieces(m, lo, hi));
      assert s == t + [m];
      StartsConcat(t, [m]);
      assert [m][0] == m;
    }
  }

  lemma StartsConcat(s: seq<Extent>, t: seq<Extent>)
    ensures Starts(s + t) == Starts(s) + Starts(t)
  {
    forall b ensures b in Starts(s + t) <==> b in Starts(s) + Starts(t) {
      if b in Starts(s) {
        var i :| 0 <= i < |s| && s[i].lo == b;
        assert (s + t)[i] == s[i];
      }
      if b in Starts(t) {
        var i :| 0 <= i < |t| && t[i].lo == b;
        assert (s + t)[|s| + i] == t[i];
      }
    }
  }

  /** The size of a carved list, from what its starts may be. */
  lemma CarveSize(s: seq<Extent>, lo: u64, hi: u64, bound: set<int>)
    requires Sorted(s) && lo < hi
    requires forall b :: b in Starts(s) && !(lo <= b < hi) ==> b in bound
    ensures PieceCount(s, lo, hi) <= |bound + {hi as int}|
  {
    var c := Carve(s, lo, hi);
    CarveSorted(s, lo, hi);
    StartsCount(c);
    forall b | b in Starts(c) ensures b in bound + {hi as int} {
      CarveStarts(s, lo, hi, b);
    }
    SubsetSize(Starts(c), bound + {hi as int});
  }

  // ---- the re-tracking loop ----

  /** What the loop has made of one address after i entries. */
  predicate RetrackedAt(s: seq<Extent>, live: seq<Extent>, i: nat, lo: u64, hi: u64, prot: u64, a: int)
    requires i <= |s|
  {
    var was := Lookup(s[..i], a);
    Lookup(live, a) == if lo <= a < hi && was.Some? then Some(Attr(prot, was.value.flags)) else Lookup(s, a)
  }

  ghost predicate Retracked(s: seq<Extent>, live: seq<Extent>, i: nat, lo: u64, hi: u64, prot: u64)
    requires i <= |s|
  {
    Canonical(live) && |live| <= CAPACITY && forall a: int :: RetrackedAt(s, live, i, lo, hi, prot, a)
  }

  lemma RetrackedBy(s: seq<Extent>, i: nat, lo: u64, hi: u64, prot: u64)
    requires Canonical(s) && |s| <= CAPACITY && i <= |s| && lo < hi && Aligned(lo) && Aligned(hi)
    requires prot != DROP_MAP && !WriteExec(prot) && Retrack(s, i, lo, hi, prot).Some?
    ensures Retracked(s, Retrack(s, i, lo, hi, prot).value, i, lo, hi, prot)
  {
    RetrackNet(s, i, lo, hi, prot);
  }

  /** Inside an entry, away from lo, the loop changes neighbours alike. */
  lemma InsideAlike(s: seq<Extent>, live: seq<Extent>, i: nat, j: nat, lo: u64, hi: u64, prot: u64, a: int)
    requires Sorted(s) && i < |s| && j < |s| && lo < hi && Overlaps(lo, hi, s[i].lo, s[i].hi)
    requires RetrackedAt(s, live, i, lo, hi, prot, a) && RetrackedAt(s, live, i, lo, hi, prot, a - 1)
    requires Within(a, s[j]) && Within(a - 1, s[j]) && a != lo
    ensures Lookup(live, a - 1) == Lookup(live, a)
  {
    PrefixAt(s, i, j, a);
    PrefixAt(s, i, j, a - 1);
    assert j < i ==> s[j].hi <= s[i].lo;
  }

  /** While entry i is still to come, the loop has added no start but lo. */
  lemma RetrackStarts(s: seq<Extent>, live: seq<Extent>, i: nat, lo: u64, hi: u64, prot: u64, a: int)
    requires Sorted(s) && Separated(s) && i < |s| && lo < hi && Overlaps(lo, hi, s[i].lo, s[i].hi)
    requires Retracked(s, live, i, lo, hi, prot) && a in Starts(live)
    ensures a in Starts(s) || a == lo
  {
    StartsHere(live, a);
    StartsHere(s, a);
    assert RetrackedAt(s, live, i, lo, hi, prot, a) && RetrackedAt(s, live, i, lo, hi, prot, a - 1);
    if a !in Starts(s) && a != lo {
      var j := TrackedBefore(s, i, a);
      assert Within(a - 1, s[j]);
      InsideAlike(s, live, i, j, lo, hi, prot, a);
    }
  }

  lemma TrackedBefore(s: seq<Extent>, i: nat, a: int) returns (j: nat)
    requires Sorted(s) && i <= |s| && (Lookup(s, a).Some? || Lookup(s[..i], a).Some?)
    ensures j < |s| && Within(a, s[j])
  {
    if Lookup(s, a).Some? {
      j := LookupSome(s, a);
    } else {
      j := LookupSome(s[..i], a);
    }
  }

  /** A prefix knows exactly the addresses of its own entries. */
  lemma PrefixAt(s: seq<Extent>, i: nat, j: nat, a: int)
    requires Sorted(s) && i <= |s| && j < |s| && Within(a, s[j])
    ensures Lookup(s, a) == Some(AttrOf(s[j]))
    ensures Lookup(s[..i], a) == if j < i then Some(AttrOf(s[j])) else None
  {
    LookupAt(s, j, a);
    if j < i {
      LookupAt(s[..i], j, a);
    } else {
      LookupNone(s[..i], a);
    }
  }

  /** The range of entry i that the loop re-tracks. */
  function PartLo(m: Extent, lo: u64): u64 { if lo > m.lo then lo else m.lo }

  function PartHi(m: Extent, hi: u64): u64 { if hi < m.hi then hi else m.hi }

  lemma RetrackRoom(s: seq<Extent>, live: seq<Extent>, i: nat, lo: u64, hi: u64, prot: u64)
    requires Sorted(s) && Separated(s) && i < |s| && lo < hi && Overlaps(lo, hi, s[i].lo, s[i].hi)
    requires Retracked(s, live, i, lo, hi, prot)
    ensures PieceCount(live, PartLo(s[i], lo), PartHi(s[i], hi)) <= |s| + 1
  {
    var start, end := PartLo(s[i], lo), PartHi(s[i], hi);
    StartsCount(s);
    var first: int := s[i].lo;
    assert first in Starts(s);
    var bound := if start == s[i].lo then Starts(s) - {first} + {lo as int} else Starts(s);
    forall b | b in Starts(live) && !(start <= b < end) ensures b in bound {
      RetrackStarts(s, live, i, lo, hi, prot, b);
    }
    CarveSize(live, start, end, bound);
  }

  lemma PartSucceeds(s: seq<Extent>, live: seq<Extent>, i: nat, lo: u64, hi: u64, prot: u64)
    requires Canonical(s) && |s| <= 62 && i < |s| && lo < hi && Aligned(lo) && Aligned(hi)
    requires !WriteExec(prot) && Overlaps(lo, hi, s[i].lo, s[i].hi) && Retracked(s, live, i, lo, hi, prot)
    ensures Track(live, PartLo(s[i], lo), PartHi(s[i], hi) - PartLo(s[i], lo), prot, s[i].flags).Some?
  {
    var start, end := PartLo(s[i], lo), PartHi(s[i], hi);
    RetrackRoom(s, live, i, lo, hi, prot);
    assert Clean(s[i]);
    RangeRequestable(start, end);
    TrackTotal(live, start, end - start, prot, s[i].flags);
  }

  lemma RetrackOneSucceeds(s: seq<Extent>, live: seq<Extent>, i: nat, lo: u64, hi: u64, prot: u64)
    requires Canonical(s) && |s| <= 62 && i < |s| && lo < hi && Aligned(lo) && Aligned(hi)
    requires !WriteExec(prot) && Retracked(s, live, i, lo, hi, prot)
    ensures RetrackOne(live, s[i], lo, hi, prot).Some?
  {
    if Overlaps(lo, hi, s[i].lo, s[i].hi) {
      PartSucceeds(s, live, i, lo, hi, prot);
    }
  }

  /** The re-tracking loop never runs out of room while at most 62 extents are
      held. */
  lemma {:induction false} RetrackSucceeds(s: seq<Extent>, i: nat, lo: u64, hi: u64, prot: u64)
    requires Canonical(s) && |s| <= 62 && i <= |s| && lo < hi && Aligned(lo) && Aligned(hi)
    requires prot != DROP_MAP && !WriteExec(prot)
    ensures Retrack(s, i, lo, hi, prot).Some?
  {
    if i != 0 {
      RetrackSucceeds(s, i - 1, lo, hi, prot);
      RetrackedBy(s, i - 1, lo, hi, prot);
      RetrackOneSucceeds(s, Retrack(s, i - 1, lo, hi, prot).value, i - 1, lo, hi, prot);
    }
  }

  // ---- relayed calls ----

  /** An erasure adds at most the start of what follows it. */
  lemma ErasedSize(s: seq<Extent>, r: seq<Extent>, lo: int, hi: int)
    requires Canonical(s) && Updated(s, r, lo, hi, DROP_MAP, 0) && lo < hi
    ensures |r| <= |s| + 1
  {
    forall a | a in Starts(r) ensures a in Starts(s) + {hi} {
      StartsHere(r, a);
      StartsHere(s, a);
    }
    StartsCount(s);
    StartsCount(r);
    SubsetSize(Starts(r), Starts(s) + {hi});
  }

  /** A range that meets nothing leaves every extent whole. */
  lemma {:induction false} DisjointPieces(s: seq<Extent>, lo: u64, hi: u64)
    requires lo < hi && Nonempty(s) && forall i :: 0 <= i < |s| ==> !Overlaps(lo, hi, s[i].lo, s[i].hi)
    ensures PieceCount(s, lo, hi) == |s|
  {
    if s != [] {
      DisjointPieces(s[..|s| - 1], lo, hi);
    }
  }

  lemma UntrackedMeetsNothing(s: seq<Extent>, lo: u64, hi: u64)
    requires Sorted(s) && lo < hi && forall a: int :: lo <= a < hi ==> Lookup(s, a) == None
    ensures forall i :: 0 <= i < |s| ==> !Overlaps(lo, hi, s[i].lo, s[i].hi)
  {
    forall i | 0 <= i < |s| ensures !Overlaps(lo, hi, s[i].lo, s[i].hi) {
      var a := if lo > s[i].lo then lo else s[i].lo;
      if Within(a, s[i]) {
        LookupAt(s, i, a);
      }
    }
  }

  /** Recording over nothing needs one more entry. */
  lemma FreshFits(s: seq<Extent>, lo: u64, hi: u64, prot: u64)
    requires Sorted(s) && |s| <= 63 && lo < hi && forall a: int :: lo <= a < hi ==> Lookup(s, a) == None
    ensures Fits(s, lo, hi, prot)
  {
    UntrackedMeetsNothing(s, lo, hi);
    DisjointPieces(s, lo, hi);
  }

  /** Recording a page extent of a held list of at most 62. */
  lemma RecordSucceeds(s: seq<Extent>, lo: u64, hi: u64, prot: u64, flags: u64)
    requires Canonical(s) && |s| <= 62 && lo < hi && Aligned(lo) && Aligned(hi) && Recordable(prot)
    ensures Track(s, lo, hi - lo, prot, flags).Some?
  {
    RangeRequestable(lo, hi);
    TrackSucceeds(s, lo, hi - lo, prot, flags);
  }

  lemma ExtentRecords(s: seq<Extent>, addr: u64, bytes: u64, prot: u64, flags: u64)
    requires Canonical(s) && |s| <= 62 && Recordable(prot) && PageExtent(addr, bytes).Some?
    ensures var (lo, hi) := PageExtent(addr, bytes).value; Track(s, lo, hi - lo, prot, flags).Some?
  {
    PageExtentLeast(addr, bytes);
    var (lo, hi) := PageExtent(addr, bytes).value;
    RecordSucceeds(s, lo, hi, prot, flags);
  }

  /** The end is a refused record. */
  predicate EndsFull(o: Outcome) { o.Terminal? && o.code == 92 }

  lemma MmapRoom(st: State, x: Args, reply: Reply)
    requires Inv(st) && |st.maps| <= 62
    ensures !EndsFull(MmapStep(st, x, reply))
  {
    if MmapRefusal(st, x) == 0 && !Failed(reply.result) && Permits(st.(mem := reply.mem), reply.result, x.a1, false) {
      ExtentRecords(st.maps, reply.result, x.a1, x.a2, Unplaced(x.a3));
    }
  }

  lemma MunmapRoom(st: State, x: Args, reply: Reply)
    requires Inv(st) && |st.maps| <= 62
    ensures !EndsFull(RangeStep(st, Munmap, x, reply))
  {
    if RangeRefusal(st, Munmap, x) == 0 {
      ExtentRecords(st.maps, x.a0, x.a1, DROP_MAP, 0);
    }
  }

  lemma MprotectRoom(st: State, nr: Nr, x: Args, reply: Reply)
    requires Inv(st) && |st.maps| <= 62 && Protects(nr)
    ensures !EndsFull(RangeStep(st, nr, x, reply))
  {
    if RangeRefusal(st, nr, x) == 0 {
      PageExtentLeast(x.a0, x.a1);
      var (lo, hi) := PageExtent(x.a0, x.a1).value;
      assert x.a2 != DROP_MAP;
      RetrackSucceeds(st.maps, |st.maps|, lo, hi, x.a2);
    }
  }

  /** A remap lands where nothing is tracked once its source is erased. */
  lemma RemapLandsFree(st: State, x: Args, reply: Reply, dropped: seq<Extent>, hi: u64, nhi: u64, a: int)
    requires Inv(st) && MremapDone(st.mem, x, reply.result, reply.mem)
    requires hi == Ceil(x.a0 + x.a1) && nhi == Ceil(reply.result + x.a2)
    requires Updated(st.maps, dropped, x.a0, hi, DROP_MAP, 0)
    requires reply.result <= a < nhi && !ForbiddenAt(st, a)
    ensures Lookup(dropped, a) == None
  {
    assert In(reply.result, x.a2, a);
    assert In(x.a0, x.a1, a) <==> x.a0 <= a < hi;
    assert AgreesAt(st, a);
  }

  lemma RemapRecords(st: State, x: Args, reply: Reply, dropped: seq<Extent>, hi: u64, nhi: u64, found: Attr)
    requires Inv(st) && |st.maps| <= 62 && MremapDone(st.mem, x, reply.result, reply.mem)
    requires hi == Ceil(x.a0 + x.a1) && nhi == Ceil(reply.result + x.a2) && x.a0 < hi && reply.result < nhi
    requires Aligned(reply.result) && Aligned(nhi) && !Forbidden(st, reply.result, nhi) && !WriteExec(found.prot)
    requires Updated(st.maps, dropped, x.a0, hi, DROP_MAP, 0)
    ensures Track(dropped, reply.result, nhi - reply.result, found.prot, found.flags).Some?
  {
    ErasedSize(st.maps, dropped, x.a0, hi);
    forall a: int | reply.result <= a < nhi ensures Lookup(dropped, a) == None {
      ForbiddenRange(st, reply.result, nhi, a);
      RemapLandsFree(st, x, reply, dropped, hi, nhi, a);
    }
    FreshFits(dropped, reply.result, nhi, found.prot);
    RangeRequestable(reply.result, nhi);
    TrackTotal(dropped, reply.result, nhi - reply.result, found.prot, found.flags);
  }

  lemma CommitRoom(st: State, x: Args, found: Attr, at: u64, hi: u64, nhi: u64)
    requires PageExtent(x.a0, x.a1) == Some((x.a0, hi)) && PageExtent(at, x.a2) == Some((at, nhi))
    requires Track(st.maps, x.a0, hi - x.a0, DROP_MAP, 0).Some?
    requires !Forbidden(st, at, nhi) ==>
      Track(Track(st.maps, x.a0, hi - x.a0, DROP_MAP, 0).value, at, nhi - at, found.prot, found.flags).Some?
    ensures !EndsFull(MremapCommit(st, x, found, at))
  {
  }

  lemma MovedRoom(st: State, x: Args, reply: Reply, hi: u64, nhi: u64, found: Attr)
    requires Inv(st) && |st.maps| <= 62 && MremapDone(st.mem, x, reply.result, reply.mem)
    requires PageExtent(x.a0, x.a1) == Some((x.a0, hi)) && hi == Ceil(x.a0 + x.a1)
    requires PageExtent(reply.result, x.a2) == Some((reply.result, nhi)) && nhi == Ceil(reply.result + x.a2)
    requires Aligned(nhi) && !WriteExec(found.prot)
    ensures !EndsFull(MremapCommit(st.(mem := reply.mem), x, found, reply.result))
  {
    ExtentRecords(st.maps, x.a0, x.a1, DROP_MAP, 0);
    if !Forbidden(st, reply.result, nhi) {
      RemapRecords(st, x, reply, Track(st.maps, x.a0, hi - x.a0, DROP_MAP, 0).value, hi, nhi, found);
    }
    CommitRoom(st.(mem := reply.mem), x, found, reply.result, hi, nhi);
  }

  lemma MremapRoom(st: State, x: Args, reply: Reply)
    requires Inv(st) && |st.maps| <= 62 && Answers(st.mem, Mremap, x, reply)
    ensures !EndsFull(MremapStep(st, x, reply))
  {
    if MremapSource(st, x).Some? && !Failed(reply.result) {
      var hi := ExtentRange(x.a0, x.a1);
      var nhi := ExtentRange(reply.result, x.a2);
      EnclosingLookup(st.maps, x.a0, hi, x.a0);
      assert SafeAt(st.maps, x.a0);
      MovedRoom(st, x, reply, hi, nhi, MremapSource(st, x).value);
    }
  }

  /** No relayed call is ended by a full tracker while at most 62 extents are held. */
  lemma RelayRoom(st: State, nr: Nr, x: Args, reply: Reply)
    requires Inv(st) && |st.maps| <= 62 && Answers(st.mem, nr, x, reply)
    ensures !EndsFull(RelayStep(st, nr, x, reply))
  {
    match nr
    case Mmap => MmapRoom(st, x, reply);
    case Mremap => MremapRoom(st, x, reply);
    case Munmap => MunmapRoom(st, x, reply);
    case Madvise =>
    case _ => MprotectRoom(st, nr, x, reply);
  }

  /** Nor is a break request: it ends the process only when the kernel refuses one
      of its calls. */
  lemma BreakRoom(st: State, requested: u64, protect: Reply, discard: Reply)
    requires Inv(st) && |st.maps| <= 62 && protect.result == 0 && discard.result == 0
    ensures BrkStep(st, requested, protect, discard).Running?
  {
    if BRK_BASE <= requested <= BRK_END {
      CeilInside(st.brkCurrent);
      CeilInside(requested);
      var x := BrkProtect(st, requested);
      if x.a1 != 0 {
        RecordSucceeds(st.maps, x.a0, x.a0 + x.a1, x.a2, MAP_PRIVATE_ANONYMOUS);
      }
    }
  }
}
