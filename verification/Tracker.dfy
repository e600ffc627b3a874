/** The bounded tracker kept in the shared control block, updated in place. */
module Tracker {
  import opened Words
  import opened Extents
  import opened TrackSpec
  import opened Stages

  /** One pass of the sort: shift larger entries right and drop entry i in. */
  method InsertInPlace(next: array<Extent>, i: nat)
    requires i < next.Length
    modifies next
    ensures next[..i + 1] == Insert(old(next[..i]), old(next[i]))
    ensures forall k :: i < k < next.Length ==> next[k] == old(next[k])
  {
    ghost var s := next[..i];
    var item := next[i];
    var j := i;
    while j > 0 && next[j - 1].lo > item.lo
      invariant 0 <= j <= i
      invariant forall k :: 0 <= k < j ==> next[k] == s[k]
      invariant forall k :: j < k <= i ==> next[k] == s[k - 1]
      invariant forall k :: i < k < next.Length ==> next[k] == old(next[k])
      invariant forall k :: j <= k < i ==> s[k].lo > item.lo
    {
      next[j] := next[j - 1];
      j := j - 1;
    }
    next[j] := item;
    SlotIs(s, i, j, item.lo);
    Shifted(next[..i + 1], s, j, item);
  }

  lemma SlotIs(s: seq<Extent>, i: nat, j: nat, lo: u64)
    requires j <= i <= |s|
    requires forall k :: j <= k < i ==> s[k].lo > lo
    requires j > 0 ==> s[j - 1].lo <= lo
    ensures Slot(s, i, lo) == j
  {
  }

  lemma Shifted(t: seq<Extent>, s: seq<Extent>, j: nat, item: Extent)
    requires j <= |s| && |t| == |s| + 1
    requires forall k :: 0 <= k < j ==> t[k] == s[k]
    requires t[j] == item
    requires forall k :: j < k <= |s| ==> t[k] == s[k - 1]
    ensures t == s[..j] + [item] + s[j..]
  {
  }

  lemma SortSnoc(s: seq<Extent>, i: nat)
    requires i < |s|
    ensures InsertionSort(s[..i + 1]) == Insert(InsertionSort(s[..i]), s[i])
  {
    assert s[..i + 1][..i] == s[..i];
  }

  /** Insertion sort by lower bound, in place, on the first n entries. */
  method SortInPlace(next: array<Extent>, n: nat)
    requires n <= next.Length
    modifies next
    ensures next[..n] == InsertionSort(old(next[..n]))
  {
    ghost var orig := next[..n];
    for i := 0 to n
      invariant next[..i] == InsertionSort(orig[..i])
      invariant forall k :: i <= k < n ==> next[k] == orig[k]
    {
      // The C loop starts at 1: a single entry is already in place.
      SortSnoc(orig, i);
      InsertInPlace(next, i);
    }
    assert orig[..n] == orig;
  }

  /** Take entry i into the compacted prefix. */
  method AbsorbInPlace(next: array<Extent>, at: nat, i: nat) returns (compact: nat)
    requires at <= i < next.Length
    modifies next
    ensures at <= compact <= at + 1
    ensures next[..compact] == Absorb(old(next[..at]), old(next[i]))
    ensures forall k :: i < k < next.Length ==> next[k] == old(next[k])
  {
    compact := at;
    if compact > 0 && Mergeable(next[compact - 1], next[i]) {
      next[compact - 1] := next[compact - 1].(hi := next[i].hi);
    } else {
      next[compact] := next[i];
      compact := compact + 1;
    }
  }

  lemma CoalesceSnoc(s: seq<Extent>, i: nat)
    requires i < |s|
    ensures Coalesce(s[..i + 1]) == Absorb(Coalesce(s[..i]), s[i])
  {
    assert s[..i + 1][..i] == s[..i];
  }

  /** Merge touching entries with equal words, in place. */
  method CompactInPlace(next: array<Extent>, n: nat) returns (compact: nat)
    requires n <= next.Length
    modifies next
    ensures compact <= n
    ensures next[..compact] == Coalesce(old(next[..n]))
  {
    ghost var orig := next[..n];
    compact := 0;
    for i := 0 to n
      invariant compact <= i
      invariant next[..compact] == Coalesce(orig[..i])
      invariant forall k :: i <= k < n ==> next[k] == orig[k]
    {
      CoalesceSnoc(orig, i);
      compact := AbsorbInPlace(next, compact, i);
    }
    assert orig[..n] == orig;
  }

  /** Append what [lo, hi) leaves of one entry, unless the array is full. */
  method AppendPieces(next: array<Extent>, at: nat, m: Extent, lo: u64, hi: u64) returns (n: nat, ok: bool)
    requires at <= next.Length == CAPACITY
    modifies next
    ensures ok <==> at + |Pieces(m, lo, hi)| <= CAPACITY
    ensures ok ==> n == at + |Pieces(m, lo, hi)| && next[..n] == old(next[..at]) + Pieces(m, lo, hi)
  {
    n, ok := at, true;
    if !Overlaps(lo, hi, m.lo, m.hi) {
      if n == CAPACITY { return n, false; }
      next[n] := m;
      n := n + 1;
    } else {
      if m.lo < lo {
        if n == CAPACITY { return n, false; }
        next[n] := m.(hi := lo);
        n := n + 1;
      }
      if m.hi > hi {
        if n == CAPACITY { return n, false; }
        next[n] := m.(lo := hi);
        n := n + 1;
      }
    }
  }

  /** The control block, as far as mapping calls use it: two fixed arrays with
      their counts, the phase, the guest loader's range and the owned break. */
  class Control {
    const maps: array<Extent>
    const code: array<CodeExtent>
    var mapCount: u64
    var codeCount: u64
    var phase: u64
    var guestLo: u64
    var guestHi: u64
    var captured: bool
    var brkBase: u64
    var brkCurrent: u64
    var brkEnd: u64

    /** The block has its fixed size; nothing is assumed about its contents. */
    ghost predicate Sized()
    {
      maps.Length == CAPACITY && code.Length == CAPACITY
    }

    /** The invariant kept from the first update on. */
    ghost predicate Valid()
      reads this, maps, code
    {
      && Sized() && mapCount <= CAPACITY && codeCount <= CAPACITY
      && Canonical(maps[..mapCount])
      && code[..codeCount] == CodeOf(maps[..mapCount])
    }

    ghost function Contents(): seq<Extent>
      requires Sized() && mapCount <= CAPACITY
      reads this, maps
    {
      maps[..mapCount]
    }

    constructor ()
      ensures Valid() && Contents() == [] && fresh(maps) && fresh(code)
    {
      maps := new Extent[CAPACITY](_ => Extent(0, 0, 0, 0));
      code := new CodeExtent[CAPACITY](_ => CodeExtent(0, 0));
      mapCount, codeCount, phase := 0, 0, 1;
      guestLo, guestHi, captured := 0, 0, false;
      brkBase, brkCurrent, brkEnd := 0, 0, 0;
    }

    /** Copy what [lo, hi) leaves of every live entry into `next`, or stop when
        the scratch array is full. */
    method CarveInto(next: array<Extent>, lo: u64, hi: u64) returns (n: nat, ok: bool)
      requires Sized() && mapCount <= CAPACITY
      requires next.Length == CAPACITY && next != maps
      modifies next
      ensures ok <==> PieceCount(Contents(), lo, hi) <= CAPACITY
      ensures ok ==> n <= CAPACITY && next[..n] == Carve(Contents(), lo, hi)
    {
      n, ok := 0, true;
      ghost var s := Contents();
      for i := 0 to mapCount
        invariant n <= CAPACITY
        invariant next[..n] == Carve(s[..i], lo, hi)
        invariant maps[..mapCount] == s
      {
        assert s[i] == maps[i];
        CarveSnoc(s, i, lo, hi);
        PiecePrefix(s, i + 1, lo, hi);
        n, ok := AppendPieces(next, n, maps[i], lo, hi);
        if !ok { return; }
      }
      assert s[..mapCount] == s;
    }

    /** Carve, append the new entry unless this is an erasure, and sort. */
    method OrderInto(next: array<Extent>, lo: u64, hi: u64, prot: u64, flags: u64)
      returns (n: nat, ok: bool, ghost c: seq<Extent>)
      requires Sized() && mapCount <= CAPACITY && Canonical(Contents())
      requires next.Length == CAPACITY && next != maps
      requires lo < hi && Aligned(lo) && Aligned(hi)
      modifies next
      ensures ok <==> Fits(Contents(), lo, hi, prot) && Recordable(prot)
      ensures ok ==> n <= CAPACITY && Carved(Contents(), c, lo, hi)
      ensures ok ==> Ordered(Draft(c, lo, hi, prot, flags), next[..n])
    {
      n, ok := CarveInto(next, lo, hi);
      CarveCarves(Contents(), lo, hi);
      if !ok {
        c := [];
        return;
      }
      c := next[..n];
      if prot != DROP_MAP {
        if WriteExec(prot) || n == CAPACITY { return n, false, c; }
        next[n] := Extent(lo, hi, prot, flags);
        n := n + 1;
      }
      assert next[..n] == Draft(c, lo, hi, prot, flags);
      DraftDisjoint(c, lo, hi, prot, flags);
      SortOrders(next[..n]);
      SortInPlace(next, n);
    }

    /** Replace the live map list and rebuild the code list from it. */
    method Publish(next: array<Extent>, compact: nat)
      requires Sized() && next.Length == CAPACITY && compact <= CAPACITY && next != maps
      modifies this`mapCount, this`codeCount, maps, code
      ensures mapCount == compact && maps[..compact] == old(next[..compact])
      ensures codeCount <= compact && code[..codeCount] == CodeOf(old(next[..compact]))
    {
      ghost var s := next[..compact];
      var count := 0;
      for i := 0 to compact
        invariant 0 <= count <= i
        invariant next[..compact] == s
        invariant maps[..i] == s[..i]
        invariant code[..count] == CodeOf(s[..i])
      {
        assert next[i] == s[i];
        CodeSnoc(s, i);
        maps[i] := next[i];
        if Executable(next[i].prot) {
          // The refusal of a full code list never happens: count <= i < 64.
          assert count < CAPACITY;
          code[count] := CodeExtent(next[i].lo, next[i].hi);
          count := count + 1;
        }
      }
      assert s[..compact] == s;
      mapCount := compact;
      codeCount := count;
    }

    /** All stages; nothing is written on refusal. */
    method Rebuild(lo: u64, hi: u64, prot: u64, flags: u64) returns (ok: bool)
      requires Valid() && lo < hi && Aligned(lo) && Aligned(hi)
      modifies this`mapCount, this`codeCount, maps, code
      ensures ok <==> Fits(old(Contents()), lo, hi, prot) && Recordable(prot)
      ensures Valid()
      ensures ok ==> Updated(old(Contents()), Contents(), lo, hi, prot, flags)
      ensures !ok ==> unchanged(this) && unchanged(maps) && unchanged(code)
    {
      ghost var s := Contents();
      var next := new Extent[CAPACITY](_ => Extent(0, 0, 0, 0));
      var n;
      ghost var c;
      n, ok, c := OrderInto(next, lo, hi, prot, flags);
      if ok {
        ghost var d := next[..n];
        CoalesceMerges(d);
        var compact := CompactInPlace(next, n);
        ghost var r := next[..compact];
        StagesUpdate(s, c, d, r, lo, hi, prot, flags);
        Publish(next, compact);
        assert Contents() == r;
      }
    }

    /** The tracker update: 0 publishes the one list that overrides (or erases)
        exactly the range, and its code extents; -1 leaves every word of the
        control block as it was. */
    method TrackMap(lo: u64, bytes: u64, prot: u64, flags: u64) returns (rc: int)
      requires Sized() && (mapCount <= CAPACITY ==> Valid())
      modifies this`mapCount, this`codeCount, maps, code
      ensures rc == 0 || rc == -1
      ensures rc == 0 <==> old(mapCount) <= CAPACITY && Track(old(Contents()), lo, bytes, prot, flags).Some?
      ensures rc == 0 ==> Valid() && Contents() == Track(old(Contents()), lo, bytes, prot, flags).value
      ensures rc == -1 ==> unchanged(this) && unchanged(maps) && unchanged(code)
    {
      if lo % 4096 != 0 || bytes == 0 || bytes % 4096 != 0 || lo > MAX64 - bytes || mapCount > CAPACITY {
        return -1;
      }
      ghost var s := Contents();
      RequestAligned(lo, bytes);
      var ok := Rebuild(lo, lo + bytes, prot, flags);
      if !ok {
        TrackTotal(s, lo, bytes, prot, flags);
        return -1;
      }
      TrackIs(s, Contents(), lo, bytes, prot, flags);
      rc := 0;
    }

    /** Whether every address of [lo, hi) is tracked. The cursor sweeps touching
        extents, so a range may span several of them. An empty range counts as its
        first address. */
    method Covered(lo: u64, hi: u64) returns (r: bool)
      requires Valid()
      ensures lo < hi ==> (r <==> CoveredBy(Contents(), lo, hi))
      ensures lo >= hi ==> (r <==> Lookup(Contents(), lo).Some?)
    {
      var cursor := lo;
      var i := 0;
      ghost var s := Contents();
      while i < mapCount
        invariant 0 <= i <= mapCount
        invariant lo <= cursor
        invariant if lo < hi then cursor < hi else cursor == lo
        invariant forall a: int :: lo <= a < cursor ==> Lookup(s, a).Some?
        invariant forall k :: 0 <= k < i ==> s[k].hi <= cursor
      {
        var m := maps[i];
        assert s[i] == m;
        if m.hi > cursor {
          if m.lo > cursor {
            GapAt(s, i, cursor);
            return false;
          }
          forall a: int | cursor <= a < m.hi ensures Lookup(s, a).Some? {
            LookupAt(s, i, a);
          }
          cursor := m.hi;
          if cursor >= hi { return true; }
        }
        i := i + 1;
      }
      GapAt(s, i, cursor);
      return false;
    }
  }

  /** Nothing covers an address past the first i extents and before the next. */
  lemma GapAt(s: seq<Extent>, i: nat, a: int)
    requires Sorted(s) && i <= |s|
    requires forall k :: 0 <= k < i ==> s[k].hi <= a
    requires i < |s| ==> a < s[i].lo
    ensures Lookup(s, a) == None
  {
    forall k | 0 <= k < |s| ensures !Within(a, s[k]) {
      if k > i { assert s[i].hi <= s[k].lo; }
    }
    LookupNone(s, a);
  }

  lemma CarveSnoc(s: seq<Extent>, i: nat, lo: u64, hi: u64)
    requires i < |s|
    ensures Carve(s[..i + 1], lo, hi) == Carve(s[..i], lo, hi) + Pieces(s[i], lo, hi)
  {
    assert s[..i + 1][..i] == s[..i];
  }

  lemma CodeSnoc(s: seq<Extent>, i: nat)
    requires i < |s|
    ensures CodeOf(s[..i + 1]) ==
      CodeOf(s[..i]) + (if Executable(s[i].prot) then [CodeExtent(s[i].lo, s[i].hi)] else [])
  {
    assert s[..i + 1][..i] == s[..i];
  }

  /** Carving a longer prefix never yields fewer pieces. */
  lemma {:induction false} PiecePrefix(s: seq<Extent>, i: nat, lo: u64, hi: u64)
    requires i <= |s|
    ensures PieceCount(s[..i], lo, hi) <= PieceCount(s, lo, hi)
  {
    if i == |s| {
      assert s[..i] == s;
    } else {
      var t := s[..|s| - 1];
      assert t[..i] == s[..i];
      PiecePrefix(t, i, lo, hi);
    }
  }
}
