/** The stages of a tracker update as functions on lists: carve, sort, coalesce.
    Each stage is related to the address map only, so that the stages compose
    without looking inside one another. */
module Stages {
  import opened Words
  import opened Extents
  import opened TrackSpec

  // ---- carving ----

  function Carve(s: seq<Extent>, lo: u64, hi: u64): (c: seq<Extent>)
    ensures |c| == PieceCount(s, lo, hi)
  {
    if s == [] then [] else Carve(s[..|s| - 1], lo, hi) + Pieces(s[|s| - 1], lo, hi)
  }

  predicate AllBelow(s: seq<Extent>, bound: int) { forall i :: 0 <= i < |s| ==> s[i].hi <= bound }

  predicate AllOutside(s: seq<Extent>, lo: int, hi: int)
  {
    forall i :: 0 <= i < |s| ==> s[i].hi <= lo || hi <= s[i].lo
  }

  lemma PiecesLookup(m: Extent, lo: u64, hi: u64, a: int)
    requires lo < hi && m.lo < m.hi
    ensures Lookup(Pieces(m, lo, hi), a) ==
      if lo <= a < hi || !Within(a, m) then None else Some(AttrOf(m))
  {
    if Overlaps(lo, hi, m.lo, m.hi) {
      var left := if m.lo < lo then [m.(hi := lo)] else [];
      var right := if m.hi > hi then [m.(lo := hi)] else [];
      LookupConcat(left, right, a);
    }
  }

  lemma {:induction false} CarveLookup(s: seq<Extent>, lo: u64, hi: u64, a: int)
    requires lo < hi && Nonempty(s)
    ensures Lookup(Carve(s, lo, hi), a) == if lo <= a < hi then None else Lookup(s, a)
  {
    if s != [] {
      var t, m := s[..|s| - 1], s[|s| - 1];
      assert s == t + [m];
      var c := Carve(t, lo, hi);
      assert Carve(s, lo, hi) == c + Pieces(m, lo, hi);
      CarveLookup(t, lo, hi, a);
      CarveStep(c, t, m, lo, hi, a);
    }
  }

  lemma CarveStep(c: seq<Extent>, t: seq<Extent>, m: Extent, lo: u64, hi: u64, a: int)
    requires lo < hi && m.lo < m.hi
    requires Lookup(c, a) == if lo <= a < hi then None else Lookup(t, a)
    ensures Lookup(c + Pieces(m, lo, hi), a) == if lo <= a < hi then None else Lookup(t + [m], a)
  {
    PiecesLookup(m, lo, hi, a);
    LookupConcat(c, Pieces(m, lo, hi), a);
    LookupConcat(t, [m], a);
  }

  lemma PiecesShape(m: Extent, lo: u64, hi: u64)
    requires lo < hi && m.lo < m.hi
    ensures Sorted(Pieces(m, lo, hi)) && AllOutside(Pieces(m, lo, hi), lo, hi)
    ensures AllBelow(Pieces(m, lo, hi), m.hi)
    ensures forall i :: 0 <= i < |Pieces(m, lo, hi)| ==> m.lo <= Pieces(m, lo, hi)[i].lo
    ensures |Pieces(m, lo, hi)| <= if m.lo < lo && hi < m.hi then 2 else 1
  {
  }

  lemma SortedConcat(s: seq<Extent>, t: seq<Extent>, bound: int)
    requires Sorted(s) && Sorted(t) && AllBelow(s, bound)
    requires forall i :: 0 <= i < |t| ==> bound <= t[i].lo
    ensures Sorted(s + t)
  {
  }

  /** Carving keeps order and empties [lo, hi). */
  lemma {:induction false} CarveSorted(s: seq<Extent>, lo: u64, hi: u64)
    requires Sorted(s) && lo < hi
    ensures Sorted(Carve(s, lo, hi)) && AllOutside(Carve(s, lo, hi), lo, hi)
    ensures s != [] ==> AllBelow(Carve(s, lo, hi), s[|s| - 1].hi)
  {
    if s != [] {
      var t, m := s[..|s| - 1], s[|s| - 1];
      CarveSorted(t, lo, hi);
      PiecesShape(m, lo, hi);
      var c, p := Carve(t, lo, hi), Pieces(m, lo, hi);
      assert AllBelow(c, m.lo) by {
        assert t != [] ==> s[|s| - 2].hi <= m.lo;
      }
      SortedConcat(c, p, m.lo);
    }
  }

  lemma {:induction false} CarveClean(s: seq<Extent>, lo: u64, hi: u64)
    requires AllClean(s) && Aligned(lo) && Aligned(hi)
    ensures AllClean(Carve(s, lo, hi))
  {
    if s != [] {
      var t, m := s[..|s| - 1], s[|s| - 1];
      CarveClean(t, lo, hi);
      assert Clean(m);
      var c, p := Carve(t, lo, hi), Pieces(m, lo, hi);
      assert AllClean(p);
      assert forall i :: 0 <= i < |c| ==> (c + p)[i] == c[i];
    }
  }

  /** `c` is `s` with [lo, hi) taken out. */
  ghost predicate Carved(s: seq<Extent>, c: seq<Extent>, lo: u64, hi: u64)
  {
    && Sorted(c) && AllClean(c) && AllOutside(c, lo, hi)
    && forall a: int :: Lookup(c, a) == if lo <= a < hi then None else Lookup(s, a)
  }

  lemma CarveCarves(s: seq<Extent>, lo: u64, hi: u64)
    requires Canonical(s) && lo < hi && Aligned(lo) && Aligned(hi)
    ensures Carved(s, Carve(s, lo, hi), lo, hi)
  {
    CarveSorted(s, lo, hi);
    CarveClean(s, lo, hi);
    forall a: int ensures Lookup(Carve(s, lo, hi), a) == if lo <= a < hi then None else Lookup(s, a) {
      CarveLookup(s, lo, hi, a);
    }
  }

  /** At most one extent is split in two, and only one that reaches past hi. */
  lemma {:induction false} PieceBound(s: seq<Extent>, lo: u64, hi: u64)
    requires Sorted(s) && lo < hi
    ensures PieceCount(s, lo, hi) <= |s| + 1
    ensures AllBelow(s, hi) ==> PieceCount(s, lo, hi) <= |s|
  {
    if s != [] {
      var t, m := s[..|s| - 1], s[|s| - 1];
      PieceBound(t, lo, hi);
      PiecesShape(m, lo, hi);
      if |Pieces(m, lo, hi)| == 2 {
        assert AllBelow(t, hi);
      }
    }
  }

  // ---- sorting ----

  /** Where insertion from the right of s[..j] stops. */
  function Slot(s: seq<Extent>, j: nat, lo: u64): (k: nat)
    requires j <= |s|
    ensures k <= j
    ensures forall i :: k <= i < j ==> s[i].lo > lo
    ensures k > 0 ==> s[k - 1].lo <= lo
  {
    if j > 0 && s[j - 1].lo > lo then Slot(s, j - 1, lo) else j
  }

  function Insert(s: seq<Extent>, x: Extent): (r: seq<Extent>)
    ensures |r| == |s| + 1
  {
    var k := Slot(s, |s|, x.lo);
    s[..k] + [x] + s[k..]
  }

  function InsertionSort(s: seq<Extent>): (r: seq<Extent>)
    ensures |r| == |s|
  {
    if s == [] then [] else Insert(InsertionSort(s[..|s| - 1]), s[|s| - 1])
  }

  /** No two entries share an address. */
  predicate Disjoint(s: seq<Extent>)
  {
    forall i, j :: 0 <= i < j < |s| ==> s[i].hi <= s[j].lo || s[j].hi <= s[i].lo
  }

  /** Inserting an extent that overlaps nothing keeps order and lookups. */
  lemma InsertSorted(s: seq<Extent>, x: Extent)
    requires Sorted(s) && x.lo < x.hi && AllOutside(s, x.lo, x.hi)
    ensures Sorted(Insert(s, x))
  {
    var k := Slot(s, |s|, x.lo);
    forall i | 0 <= i < k ensures s[i].hi <= x.lo {
      assert i < k - 1 ==> s[i].hi <= s[k - 1].lo;
    }
    forall i | k <= i < |s| ensures x.hi <= s[i].lo {
    }
    SpliceSorted(s, k, x);
  }

  lemma SpliceSorted(s: seq<Extent>, k: nat, x: Extent)
    requires Sorted(s) && x.lo < x.hi && k <= |s|
    requires forall i :: 0 <= i < k ==> s[i].hi <= x.lo
    requires forall i :: k <= i < |s| ==> x.hi <= s[i].lo
    ensures Sorted(s[..k] + [x] + s[k..])
  {
    var r := s[..k] + [x] + s[k..];
    assert forall i :: 0 <= i < |r| ==> r[i] == if i < k then s[i] else if i == k then x else s[i - 1];
  }

  lemma InsertLookup(s: seq<Extent>, x: Extent, a: int)
    requires AllOutside(s, x.lo, x.hi)
    ensures Lookup(Insert(s, x), a) == Lookup(s + [x], a)
  {
    var k := Slot(s, |s|, x.lo);
    var left, right := s[..k], s[k..];
    LookupConcat(left + [x], right, a);
    LookupConcat(left, [x], a);
    LookupConcat(left, right, a);
    assert s == left + right;
    LookupConcat(s, [x], a);
    if Within(a, x) {
      LookupNone(s, a);
    }
  }

  lemma InsertElements(s: seq<Extent>, x: Extent)
    ensures forall e :: e in Insert(s, x) <==> e in s || e == x
  {
    var k := Slot(s, |s|, x.lo);
    assert s == s[..k] + s[k..];
  }

  lemma {:induction false} SortElements(s: seq<Extent>)
    ensures forall e :: e in InsertionSort(s) <==> e in s
  {
    if s != [] {
      var t, x := s[..|s| - 1], s[|s| - 1];
      SortElements(t);
      InsertElements(InsertionSort(t), x);
      assert s == t + [x];
    }
  }

  /** Sorting entries that do not overlap orders them and keeps the map. */
  lemma {:induction false} SortSorted(s: seq<Extent>)
    requires Nonempty(s) && Disjoint(s)
    ensures Sorted(InsertionSort(s))
  {
    if s != [] {
      var t, x := s[..|s| - 1], s[|s| - 1];
      SortSorted(t);
      SortOutside(s);
      InsertSorted(InsertionSort(t), x);
    }
  }

  lemma SortOutside(s: seq<Extent>)
    requires Disjoint(s) && s != []
    ensures AllOutside(InsertionSort(s[..|s| - 1]), s[|s| - 1].lo, s[|s| - 1].hi)
  {
    var t, x := s[..|s| - 1], s[|s| - 1];
    var r := InsertionSort(t);
    SortElements(t);
    forall i | 0 <= i < |r| ensures r[i].hi <= x.lo || x.hi <= r[i].lo {
      assert r[i] in t;
      var j :| 0 <= j < |t| && t[j] == r[i];
      assert s[j] == t[j];
    }
  }

  lemma {:induction false} SortLookup(s: seq<Extent>, a: int)
    requires Disjoint(s)
    ensures Lookup(InsertionSort(s), a) == Lookup(s, a)
  {
    if s != [] {
      var t, x := s[..|s| - 1], s[|s| - 1];
      SortLookup(t, a);
      SortOutside(s);
      InsertLookup(InsertionSort(t), x, a);
      LookupConcat(InsertionSort(t), [x], a);
      LookupConcat(t, [x], a);
      assert s == t + [x];
    }
  }

  /** `r` holds the same map as `s`, in order. */
  ghost predicate Ordered(s: seq<Extent>, r: seq<Extent>)
  {
    && |r| == |s| && Sorted(r) && AllClean(r)
    && forall a: int :: Lookup(r, a) == Lookup(s, a)
  }

  lemma SortOrders(s: seq<Extent>)
    requires Nonempty(s) && Disjoint(s) && AllClean(s)
    ensures Ordered(s, InsertionSort(s))
  {
    var r := InsertionSort(s);
    SortSorted(s);
    SortElements(s);
    forall i | 0 <= i < |r| ensures Clean(r[i]) {
      assert r[i] in s;
    }
    forall a: int ensures Lookup(r, a) == Lookup(s, a) {
      SortLookup(s, a);
    }
  }

  // ---- coalescing ----

  function Absorb(c: seq<Extent>, x: Extent): (r: seq<Extent>)
    ensures |c| <= |r| <= |c| + 1
  {
    if c != [] && Mergeable(c[|c| - 1], x)
    then c[..|c| - 1] + [c[|c| - 1].(hi := x.hi)]
    else c + [x]
  }

  function Coalesce(s: seq<Extent>): (r: seq<Extent>)
    ensures |r| <= |s|
    ensures s != [] ==> r != []
  {
    if s == [] then [] else Absorb(Coalesce(s[..|s| - 1]), s[|s| - 1])
  }

  lemma {:induction false} CoalesceSeparated(s: seq<Extent>)
    requires Sorted(s)
    ensures Sorted(Coalesce(s)) && Separated(Coalesce(s))
    ensures s != [] ==> Coalesce(s)[|Coalesce(s)| - 1].hi == s[|s| - 1].hi
  {
    if s != [] {
      var t, x := s[..|s| - 1], s[|s| - 1];
      CoalesceSeparated(t);
      if t != [] {
        assert s[|s| - 2].hi <= x.lo;
        AbsorbSeparated(Coalesce(t), x);
      }
    }
  }

  lemma AbsorbSeparated(c: seq<Extent>, x: Extent)
    requires Sorted(c) && Separated(c) && c != [] && x.lo < x.hi && c[|c| - 1].hi <= x.lo
    ensures Sorted(Absorb(c, x)) && Separated(Absorb(c, x))
    ensures Absorb(c, x)[|Absorb(c, x)| - 1].hi == x.hi
  {
    var r := Absorb(c, x);
    forall i | 0 < i < |r| ensures !Mergeable(r[i - 1], r[i]) {
      if i < |c| {
        assert !Mergeable(c[i - 1], c[i]);
      }
    }
  }

  lemma {:induction false} CoalesceClean(s: seq<Extent>)
    requires AllClean(s)
    ensures AllClean(Coalesce(s))
  {
    if s != [] {
      var t, x := s[..|s| - 1], s[|s| - 1];
      CoalesceClean(t);
      AbsorbClean(Coalesce(t), x);
    }
  }

  lemma AbsorbClean(c: seq<Extent>, x: Extent)
    requires AllClean(c) && Clean(x)
    ensures AllClean(Absorb(c, x))
  {
    var r := Absorb(c, x);
    forall i | 0 <= i < |r| ensures Clean(r[i]) {
      if i < |c| {
        assert Clean(c[i]);
      }
    }
  }

  lemma {:induction false} CoalesceLookup(s: seq<Extent>, a: int)
    requires Nonempty(s)
    ensures Nonempty(Coalesce(s)) && Lookup(Coalesce(s), a) == Lookup(s, a)
  {
    if s != [] {
      var t, x := s[..|s| - 1], s[|s| - 1];
      CoalesceLookup(t, a);
      AbsorbLookup(Coalesce(t), x, a);
      assert s == t + [x];
      LookupConcat(t, [x], a);
    }
  }

  lemma AbsorbLookup(c: seq<Extent>, x: Extent, a: int)
    requires Nonempty(c) && x.lo < x.hi
    ensures Nonempty(Absorb(c, x))
    ensures Lookup(Absorb(c, x), a) == if Lookup(c, a).Some? then Lookup(c, a) else Lookup([x], a)
  {
    if c != [] && Mergeable(c[|c| - 1], x) {
      var d, l := c[..|c| - 1], c[|c| - 1];
      assert c == d + [l];
      LookupConcat(d, [l], a);
      LookupConcat(d, [l.(hi := x.hi)], a);
    } else {
      LookupConcat(c, [x], a);
    }
  }

  /** `r` holds the same map as `s`, fully merged. */
  ghost predicate Merged(s: seq<Extent>, r: seq<Extent>)
  {
    && |r| <= |s| && Canonical(r)
    && forall a: int :: Lookup(r, a) == Lookup(s, a)
  }

  lemma CoalesceMerges(s: seq<Extent>)
    requires Sorted(s) && AllClean(s)
    ensures Merged(s, Coalesce(s))
  {
    CoalesceSeparated(s);
    CoalesceClean(s);
    forall a: int ensures Lookup(Coalesce(s), a) == Lookup(s, a) {
      CoalesceLookup(s, a);
    }
  }

  // ---- composition ----

  /** The scratch list handed to the sort. */
  function Draft(c: seq<Extent>, lo: u64, hi: u64, prot: u64, flags: u64): seq<Extent>
  {
    if prot == DROP_MAP then c else c + [Extent(lo, hi, prot, flags)]
  }

  lemma DraftDisjoint(c: seq<Extent>, lo: u64, hi: u64, prot: u64, flags: u64)
    requires Sorted(c) && AllClean(c) && AllOutside(c, lo, hi)
    requires lo < hi && Aligned(lo) && Aligned(hi) && Recordable(prot)
    ensures var d := Draft(c, lo, hi, prot, flags); Nonempty(d) && Disjoint(d) && AllClean(d)
  {
  }

  lemma DraftLookup(s: seq<Extent>, c: seq<Extent>, lo: u64, hi: u64, prot: u64, flags: u64, a: int)
    requires Carved(s, c, lo, hi)
    ensures Lookup(Draft(c, lo, hi, prot, flags), a) == Overridden(Lookup(s, a), lo, hi, prot, flags, a)
  {
    LookupConcat(c, [Extent(lo, hi, prot, flags)], a);
  }

  /** Carve, append, sort and coalesce together are one correct update. */
  lemma StagesUpdate(s: seq<Extent>, c: seq<Extent>, d: seq<Extent>, r: seq<Extent>,
                     lo: u64, hi: u64, prot: u64, flags: u64)
    requires Carved(s, c, lo, hi)
    requires Ordered(Draft(c, lo, hi, prot, flags), d)
    requires Merged(d, r)
    requires |d| <= CAPACITY
    ensures Updated(s, r, lo, hi, prot, flags)
  {
    forall a: int ensures Lookup(r, a) == Overridden(Lookup(s, a), lo, hi, prot, flags, a) {
      DraftLookup(s, c, lo, hi, prot, flags, a);
    }
  }

  lemma RequestAligned(lo: u64, bytes: u64)
    requires Requestable(lo, bytes)
    ensures Aligned(lo) && Aligned(lo + bytes)
  {
    AlignedTest(lo);
    AlignedTest(bytes);
    AlignedSum(lo, bytes);
  }

  // The stages once more, keeping only what the next stage needs.

  lemma SomeCarved(s: seq<Extent>, lo: u64, hi: u64) returns (c: seq<Extent>)
    requires Canonical(s) && lo < hi && Aligned(lo) && Aligned(hi)
    ensures Carved(s, c, lo, hi) && |c| == PieceCount(s, lo, hi)
  {
    CarveCarves(s, lo, hi);
    c := Carve(s, lo, hi);
  }

  lemma SomeOrdered(s: seq<Extent>) returns (r: seq<Extent>)
    requires Nonempty(s) && Disjoint(s) && AllClean(s)
    ensures Ordered(s, r)
  {
    SortOrders(s);
    r := InsertionSort(s);
  }

  lemma SomeMerged(s: seq<Extent>) returns (r: seq<Extent>)
    requires Sorted(s) && AllClean(s)
    ensures Merged(s, r)
  {
    CoalesceMerges(s);
    r := Coalesce(s);
  }

  /** For a canonical tracker, the update is refused exactly when the request is
      malformed, asks for write and execute, or does not fit. */
  lemma TrackTotal(s: seq<Extent>, lo: u64, bytes: u64, prot: u64, flags: u64)
    requires Canonical(s)
    ensures Track(s, lo, bytes, prot, flags).Some? <==>
      Requestable(lo, bytes) && Recordable(prot) && Fits(s, lo, lo + bytes, prot)
  {
    if Requestable(lo, bytes) && Recordable(prot) && Fits(s, lo, lo + bytes, prot) {
      var hi := lo + bytes;
      RequestAligned(lo, bytes);
      var c := SomeCarved(s, lo, hi);
      DraftDisjoint(c, lo, hi, prot, flags);
      var d := SomeOrdered(Draft(c, lo, hi, prot, flags));
      var r := SomeMerged(d);
      StagesUpdate(s, c, d, r, lo, hi, prot, flags);
    }
  }

  /** Whatever updates a canonical tracker as asked is the update. */
  lemma TrackIs(s: seq<Extent>, r: seq<Extent>, lo: u64, bytes: u64, prot: u64, flags: u64)
    requires Canonical(s) && Requestable(lo, bytes) && Recordable(prot) && Fits(s, lo, lo + bytes, prot)
    requires Updated(s, r, lo, lo + bytes, prot, flags)
    ensures Track(s, lo, bytes, prot, flags) == Some(r)
  {
    TrackTotal(s, lo, bytes, prot, flags);
    UpdateUnique(s, r, Track(s, lo, bytes, prot, flags).value, lo, lo + bytes, prot, flags);
  }

  /** Failure is bounded: the scratch list never exceeds two entries more than
      are held, so nothing is refused for size while two slots are free (one
      for an erasure). */
  lemma RoomSuffices(s: seq<Extent>, lo: u64, hi: u64, prot: u64)
    requires Sorted(s) && lo < hi
    ensures PieceCount(s, lo, hi) + 1 <= |s| + 2
    ensures |s| <= 62 ==> Fits(s, lo, hi, prot)
    ensures |s| <= 63 && prot == DROP_MAP ==> Fits(s, lo, hi, prot)
  {
    PieceBound(s, lo, hi);
  }

  /** A well-formed, W^X update succeeds whenever at most 62 extents are held,
      and a well-formed erasure whenever at most 63 are. */
  lemma TrackSucceeds(s: seq<Extent>, lo: u64, bytes: u64, prot: u64, flags: u64)
    requires Canonical(s) && Requestable(lo, bytes) && Recordable(prot)
    requires |s| <= 62 || (|s| == 63 && prot == DROP_MAP)
    ensures Track(s, lo, bytes, prot, flags).Some?
  {
    RoomSuffices(s, lo, lo + bytes, prot);
    TrackTotal(s, lo, bytes, prot, flags);
  }

  lemma RangeRequestable(lo: u64, hi: u64)
    requires lo < hi && Aligned(lo) && Aligned(hi)
    ensures Requestable(lo, hi - lo)
  {
    AlignedTest(lo);
    AlignedTest(hi);
    var i: int :| lo == PageAt(i);
    var j: int :| hi == PageAt(j);
  }
}
