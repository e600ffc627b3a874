/** 64-bit words, page rounding and the protection and mapping bits that the
    private native mapping code tests. Words are mathematical integers; every
    place where the C code can wrap says so explicitly. */
module Words {

  const TWO64: int := 0x1_0000_0000_0000_0000
  const MAX64: int := 0xffff_ffff_ffff_ffff
  const PAGE: int := 4096
  const GIB: int := 0x4000_0000

  type u64 = x: int | 0 <= x < 0x1_0000_0000_0000_0000

  type byte = x: int | 0 <= x < 256

  datatype Option<+T> = None | Some(value: T)

  /** The address of page k. */
  function PageAt(k: int): int { 4096 * k }

  /** A page boundary: `(v & (PAGE - 1)) == 0`. */
  ghost predicate Aligned(v: int) { exists k: int :: v == PageAt(k) }

  /** The test the C code makes is the predicate. */
  lemma AlignedTest(v: int)
    ensures v % 4096 == 0 <==> Aligned(v)
  {
    assert v == PageAt(v / 4096) + v % 4096;
    if Aligned(v) {
      var k: int :| v == PageAt(k);
    }
  }

  lemma AlignedSum(a: int, b: int)
    requires Aligned(a) && Aligned(b)
    ensures Aligned(a + b) && Aligned(a - b)
  {
    var i: int :| a == PageAt(i);
    var j: int :| b == PageAt(j);
    assert a + b == PageAt(i + j) && a - b == PageAt(i - j);
  }

  /** The page boundary at or below v, by what it is. */
  ghost function Floor(v: u64): (r: u64)
    ensures r <= v < r + PAGE && Aligned(r)
  {
    var w: u64 := v - v % 4096;
    assert w == PageAt(v / 4096) && Aligned(w);
    var r: u64 :| r <= v < r + 4096 && Aligned(r);
    r
  }

  /** The least page boundary at or above v; at the top of the address space
      the addition wraps at 2^64. */
  ghost function Ceil(v: u64): (r: u64)
    ensures Aligned(r)
    ensures v <= MAX64 - (PAGE - 1) ==> v <= r < v + PAGE
  {
    var sum := v + 4095;
    Floor(if sum < TWO64 then sum else sum - TWO64)
  }

  /** `value & ~(PAGE - 1)` */
  function Down(v: u64): (r: u64)
    ensures r == Floor(v)
  {
    assert PageAt(v / 4096) == v - v % 4096;
    FloorUnique(v, v - v % 4096);
    v - v % 4096
  }

  /** `(value + PAGE - 1) & ~(PAGE - 1)` */
  function Up(v: u64): (r: u64)
    ensures r == Ceil(v)
  {
    Down((v + 4095) % 0x1_0000_0000_0000_0000)
  }

  /** The only page boundary in [v, v + PAGE) is Ceil(v). */
  lemma CeilUnique(v: u64, b: int)
    requires v <= MAX64 - (PAGE - 1)
    requires Aligned(b) && v <= b < v + PAGE
    ensures Ceil(v) == b
  {
    SamePage(Ceil(v), b);
  }

  lemma FloorUnique(v: u64, b: int)
    requires Aligned(b) && b <= v < b + PAGE
    ensures Floor(v) == b
  {
    SamePage(Floor(v), b);
  }

  lemma SamePage(a: int, b: int)
    requires Aligned(a) && Aligned(b) && -PAGE < a - b < PAGE
    ensures a == b
  {
    var i: int :| a == PageAt(i);
    var j: int :| b == PageAt(j);
  }

  // Protection bits: PROT_READ = 1, PROT_WRITE = 2, PROT_EXEC = 4.
  const PROT_NONE: u64 := 0
  const PROT_READ: u64 := 1
  const PROT_WRITE: u64 := 2
  const PROT_EXEC: u64 := 4
  const PROT_READ_WRITE: u64 := 3

  predicate Writable(prot: u64) { prot % 4 >= 2 }
  predicate Executable(prot: u64) { prot % 8 >= 4 }
  predicate WriteExec(prot: u64) { Writable(prot) && Executable(prot) }

  // Mapping bits: MAP_SHARED = 1, MAP_PRIVATE = 2, MAP_FIXED = 0x10,
  // MAP_ANONYMOUS = 0x20, MAP_FIXED_NOREPLACE = 0x100000.
  const MAP_PRIVATE: u64 := 2
  const MAP_PRIVATE_ANONYMOUS: u64 := 0x22
  const MAP_PRIVATE_FIXED: u64 := 0x12
  const MAP_PRIVATE_ANONYMOUS_FIXED: u64 := 0x32
  const MAP_PRIVATE_ANONYMOUS_NOREPLACE: u64 := 0x100022

  predicate Shared(flags: u64) { flags % 2 == 1 }
  predicate Fixed(flags: u64) { flags % 0x20 >= 0x10 }
  predicate Anonymous(flags: u64) { flags % 0x40 >= 0x20 }
  predicate NoReplace(flags: u64) { flags % 0x200000 >= 0x100000 }

  /** `flags & ~(MAP_FIXED | MAP_FIXED_NOREPLACE)` */
  function Unplaced(flags: u64): (r: u64)
    ensures !Fixed(r) && !NoReplace(r)
    ensures Anonymous(r) == Anonymous(flags) && Shared(r) == Shared(flags)
  {
    WithoutFixedKeeps(flags);
    WithoutNoReplaceKeeps(WithoutFixed(flags));
    WithoutNoReplace(WithoutFixed(flags))
  }

  function WithoutFixed(flags: u64): u64
  {
    if Fixed(flags) then flags - 0x10 else flags
  }

  function WithoutNoReplace(flags: u64): u64
  {
    if NoReplace(flags) then flags - 0x100000 else flags
  }

  lemma AddMultiple(x: nat, k: nat, d: nat)
    requires d > 0
    ensures (x + d * k) % d == x % d
  {
    if k > 0 {
      AddMultiple(x, k - 1, d);
      assert x + d * k == (x + d * (k - 1)) + d;
      AddOnce(x + d * (k - 1), d);
    }
  }

  lemma AddOnce(x: nat, d: nat)
    requires d > 0
    ensures (x + d) % d == x % d
  {
    var k := (x + d) / d - x / d - 1;
    assert d * k == x % d - (x + d) % d by {
      assert d * ((x + d) / d) == x + d - (x + d) % d;
      assert d * (x / d) == x - x % d;
      assert d * k == d * ((x + d) / d) - d * (x / d) - d;
    }
    MultipleInside(d, k);
  }

  /** The only multiple of d strictly between -d and d is zero. */
  lemma MultipleInside(d: int, k: int)
    requires -d < d * k < d
    ensures k == 0
  {
  }

  lemma WithoutFixedKeeps(f: u64)
    ensures !Fixed(WithoutFixed(f))
    ensures Anonymous(WithoutFixed(f)) == Anonymous(f)
    ensures Shared(WithoutFixed(f)) == Shared(f)
  {
    if Fixed(f) {
      var g := f - 0x10;
      assert g % 0x20 == f % 0x20 - 0x10 by { LowerResidue(f, 0x10, 0x20); }
      assert f % 0x40 == f % 0x20 || f % 0x40 == f % 0x20 + 0x20 by { HalfResidue(f); }
      assert g % 0x40 == f % 0x40 - 0x10 by { LowerResidue(f, 0x10, 0x40); }
      AddMultiple(g, 8, 2);
    }
  }

  lemma SmallResidue(m: nat, d: nat)
    requires m < d
    ensures m % d == m
  {
  }

  lemma LowerResidue(f: nat, c: nat, d: nat)
    requires d > 0 && c <= f % d
    ensures c <= f && (f - c) % d == f % d - c
  {
    var q, m := f / d, f % d;
    assert f == m + d * q;
    AddMultiple(m - c, q, d);
    SmallResidue(m - c, d);
  }

  lemma HalfResidue(f: nat)
    ensures f % 0x40 == f % 0x20 || f % 0x40 == f % 0x20 + 0x20
  {
    var q, m := f / 0x40, f % 0x40;
    assert f == m + 0x20 * (2 * q);
    AddMultiple(m, 2 * q, 0x20);
  }

  lemma WithoutNoReplaceKeeps(f: u64)
    ensures !NoReplace(WithoutNoReplace(f))
    ensures Fixed(WithoutNoReplace(f)) == Fixed(f)
    ensures Anonymous(WithoutNoReplace(f)) == Anonymous(f)
    ensures Shared(WithoutNoReplace(f)) == Shared(f)
  {
    if NoReplace(f) {
      var q, m := f / 0x200000, f % 0x200000;
      assert f - 0x100000 == (m - 0x100000) + 0x200000 * q;
      AddMultiple(m - 0x100000, q, 0x200000);
      AddMultiple(f - 0x100000, 0x8000, 0x20);
      AddMultiple(f - 0x100000, 0x4000, 0x40);
      AddMultiple(f - 0x100000, 0x80000, 2);
    }
  }
}
