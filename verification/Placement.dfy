/** The certificate's placement tests, said address by address. */
module Placement {
  import opened Words
  import opened Workload
  import opened Oracle
  import opened Certificate

  /** Every address of the extent satisfies the region. */
  predicate Inside(p: Region, pointer: u64, size: u64)
  {
    forall a :: pointer <= a < pointer + size ==> p.Holds(a)
  }

  predicate Outside(p: Region, pointer: u64, size: u64)
  {
    forall a :: pointer <= a < pointer + size ==> !p.Holds(a)
  }

  lemma ContainsMeans(p: Region, pointer: u64, size: u64)
    ensures p.Contains(pointer, size) <==>
      pointer != 0 && p.Holds(pointer) && pointer + size <= MAX64 && Inside(p, pointer, size)
  {
    if Inside(p, pointer, size) && size > 0 {
      assert p.Holds(pointer + size - 1);
    }
  }

  lemma OverlapsMeans(p: Region, pointer: u64, size: u64)
    requires size > 0 && p.start < p.end
    ensures p.Overlaps(pointer, size) <==> pointer + size <= MAX64 && !Outside(p, pointer, size)
  {
    if p.Overlaps(pointer, size) {
      var a := if pointer < p.start then p.start else pointer;
      assert pointer <= a < pointer + size && p.Holds(a);
    }
  }

  /** The pools are the two 32 MiB regions, neither at zero, without a common address. */
  lemma PoolsMeans(r: Report)
    ensures PoolsOk(r) <==>
      && r.tool.start != 0 && r.tool.end == r.tool.start + 0x200_0000
      && r.patch.start != 0 && r.patch.end == r.patch.start + 0x200_0000
      && forall a :: !(r.tool.Holds(a) && r.patch.Holds(a))
  {
    if forall a :: !(r.tool.Holds(a) && r.patch.Holds(a)) {
      assert !(r.tool.Holds(r.tool.start) && r.patch.Holds(r.tool.start));
      assert !(r.tool.Holds(r.patch.start) && r.patch.Holds(r.patch.start));
    }
  }

  lemma {:induction false} PowerIs(n: nat)
    ensures PowerOfTwo(Power(n))
  {
    if n > 0 {
      PowerIs(n - 1);
      assert Power(n) % 2 == 0 && Power(n) / 2 == Power(n - 1);
    }
  }

  lemma {:induction false} IsPower(a: nat) returns (n: nat)
    requires PowerOfTwo(a)
    ensures a == Power(n)
  {
    n := 0;
    if a > 1 {
      var m := IsPower(a / 2);
      n := m + 1;
    }
  }

  lemma PowerOfTwoMeans(a: nat)
    ensures PowerOfTwo(a) <==> exists n: nat :: a == Power(n)
  {
    if PowerOfTwo(a) {
      var n := IsPower(a);
    }
    if n: nat :| a == Power(n) {
      PowerIs(n);
    }
  }

  /** A granted extent: not null, aligned to the power of two asked for, and all of it
      in one of the two pools. */
  predicate Placed(r: Report, op: Operation)
  {
    && op.pointer != 0 && op.align != 0 && op.pointer % op.align == 0 && op.pointer + op.size <= MAX64
    && ((r.tool.Holds(op.pointer) && Inside(r.tool, op.pointer, op.size))
        || (r.patch.Holds(op.pointer) && Inside(r.patch, op.pointer, op.size)))
  }

  /** The outcome test is: the exhausting request fails with status 2 and null, and
      every other succeeds with a placed extent. */
  lemma OutcomeMeans(r: Report, op: Operation, e: Expected)
    ensures OutcomeOk(r, op, e) <==>
      if e.action == Exhaust then op.returnStatus == op.status == 2 && op.pointer == op.privateMember == 0
      else op.status == 0 && op.privateMember == 1 && (exists n: nat :: op.align == Power(n)) && Placed(r, op)
  {
    PowerOfTwoMeans(op.align);
    ContainsMeans(r.tool, op.pointer, op.size);
    ContainsMeans(r.patch, op.pointer, op.size);
  }

  lemma GuestMeans(r: Report, pointer: u64, size: u64)
    requires PoolsOk(r) && size > 0
    ensures GuestOk(r, pointer, size) <==>
      pointer != 0 && pointer + size <= MAX64 && Outside(r.tool, pointer, size) && Outside(r.patch, pointer, size)
  {
    OverlapsMeans(r.tool, pointer, size);
    OverlapsMeans(r.patch, pointer, size);
  }

  /** The guest payloads, of 333 and 777 bytes, lie outside both pools and have no
      address in common. */
  lemma GuestsMeans(r: Report)
    requires PoolsOk(r)
    ensures var g, n := r.guest.value, r.next.value;
      GuestsOk(r) <==>
        && g != 0 && g + 333 <= MAX64 && Outside(r.tool, g, 333) && Outside(r.patch, g, 333)
        && n != 0 && n + 777 <= MAX64 && Outside(r.tool, n, 777) && Outside(r.patch, n, 777)
        && forall a :: !(InExtent(g, 333, a) && InExtent(n, 777, a))
  {
    var g, n := r.guest.value, r.next.value;
    GuestMeans(r, g, 333);
    GuestMeans(r, n, 777);
    if forall a :: !(InExtent(g, 333, a) && InExtent(n, 777, a)) {
      assert !(InExtent(g, 333, g) && InExtent(n, 777, g));
      assert !(InExtent(g, 333, n) && InExtent(n, 777, n));
    }
  }

  predicate InExtent(pointer: u64, size: u64, a: int) { pointer <= a < pointer + size }

  /** Two live allocations are apart exactly when they have no address in common. */
  lemma ApartMeans(a: Allocation, b: Allocation)
    requires a.size > 0 && b.size > 0
    ensures Apart(a, b) <==> forall x :: !(a.Covers(x) && b.Covers(x))
  {
    if forall x :: !(a.Covers(x) && b.Covers(x)) {
      assert !(a.Covers(a.pointer) && b.Covers(a.pointer));
      assert !(a.Covers(b.pointer) && b.Covers(b.pointer));
    }
  }
}
