/** The fixed allocation workloads, and the slot discipline every one of them
    follows: allocate only into a free slot, reallocate and free only a live one
    with its own layout, and leave nothing allocated. */
module Workload {
  import opened Words

  datatype Fixture = Small | Zeroed | GrowShrink | Overaligned | Retained | Exhaustion | Composition

  /** Operation names; the last is any name the fixture does not print. */
  datatype Name = Alloc | AllocZeroed | Realloc | Dealloc | ExhaustionAlloc | Unknown(text: string)

  datatype Action = Allocate(slot: nat) | Reallocate(slot: nat) | Deallocate(slot: nat) | Exhaust

  datatype Expected = Expected(name: Name, size: u64, align: u64, action: Action)

  const EXHAUSTION_BYTES: u64 := 67112960

  /** The order of the cases in the matrix. */
  function FixedCase(i: nat): Fixture
    requires i < 7
  {
    if i == 0 then Small else if i == 1 then Zeroed else if i == 2 then GrowShrink else if i == 3 then Overaligned
    else if i == 4 then Retained else if i == 5 then Exhaustion else Composition
  }

  function WorkOperations(c: Fixture): nat
  {
    match c
    case Small | Zeroed | Overaligned => 2
    case GrowShrink => 4
    case Retained => 32
    case Exhaustion => 1
    case Composition => 43
  }

  predicate Selected(c: Fixture, index: nat)
    requires index < 6
  {
    c == Composition || FixedCase(index) == c
  }

  /** Slot i is the i-th to be freed in a retention cycle. */
  function FreeAt(i: nat): (slot: nat)
    requires i < 8
    ensures slot < 8 && RankOf(slot) == i
  {
    if i == 0 then 3 else if i == 1 then 0 else if i == 2 then 7 else if i == 3 then 2
    else if i == 4 then 5 else if i == 5 then 1 else if i == 6 then 6 else 4
  }

  function RankOf(slot: nat): (i: nat)
    requires slot < 8
    ensures i < 8
  {
    if slot == 0 then 1 else if slot == 1 then 5 else if slot == 2 then 3 else if slot == 3 then 0
    else if slot == 4 then 7 else if slot == 5 then 4 else if slot == 6 then 6 else 2
  }

  lemma RanksDiffer(s: nat, t: nat)
    requires s < 8 && t < 8 && RankOf(s) == RankOf(t)
    ensures s == t
  {
  }

  function SlotSize(slot: nat): u64
    requires slot < 8
  {
    31 + slot * 37
  }

  function Filled(slot: nat): Expected
    requires slot < 8
  {
    Expected(Alloc, SlotSize(slot), 16, Allocate(slot))
  }

  function Freed(slot: nat): Expected
    requires slot < 8
  {
    Expected(Dealloc, SlotSize(slot), 16, Deallocate(slot))
  }

  function Fills(n: nat): (r: seq<Expected>)
    requires n <= 8
    ensures |r| == n && forall i :: 0 <= i < n ==> r[i] == Filled(i)
  {
    if n == 0 then [] else Fills(n - 1) + [Filled(n - 1)]
  }

  function Frees(n: nat): (r: seq<Expected>)
    requires n <= 8
    ensures |r| == n && forall i :: 0 <= i < n ==> r[i] == Freed(FreeAt(i))
  {
    if n == 0 then [] else Frees(n - 1) + [Freed(FreeAt(n - 1))]
  }

  function Cycle(): (r: seq<Expected>)
    ensures |r| == 16
    ensures forall i :: 0 <= i < 8 ==> r[i] == Filled(i)
    ensures forall i :: 8 <= i < 16 ==> r[i] == Freed(FreeAt(i - 8))
  {
    Fills(8) + Frees(8)
  }

  /** A retention cycle in numbers: what is asked for, slot by slot, and the order in
      which the slots are given back. */
  lemma CycleTable(i: nat)
    requires i < 8
    ensures var sizes, order := [31, 68, 105, 142, 179, 216, 253, 290], [3, 0, 7, 2, 5, 1, 6, 4];
      && Cycle()[i] == Expected(Alloc, sizes[i], 16, Allocate(i))
      && Cycle()[8 + i] == Expected(Dealloc, sizes[order[i]], 16, Deallocate(order[i]))
  {
    var order := [3, 0, 7, 2, 5, 1, 6, 4];
    assert FreeAt(i) == order[i];
    var later := 8 + i;
    assert Cycle()[later] == Freed(FreeAt(later - 8));
  }

  /** The operations of one case. */
  function Single(c: Fixture): (r: seq<Expected>)
    requires c != Composition
    ensures |r| == WorkOperations(c)
  {
    match c
    case Small => [Expected(Alloc, 64, 16, Allocate(0)), Expected(Dealloc, 64, 16, Deallocate(0))]
    case Zeroed => [Expected(AllocZeroed, 257, 16, Allocate(0)), Expected(Dealloc, 257, 16, Deallocate(0))]
    case Overaligned => [Expected(Alloc, 4096, 4096, Allocate(0)), Expected(Dealloc, 4096, 4096, Deallocate(0))]
    case GrowShrink =>
      [Expected(Alloc, 64, 16, Allocate(0)), Expected(Realloc, 4096, 16, Reallocate(0)),
       Expected(Realloc, 32, 16, Reallocate(0)), Expected(Dealloc, 32, 16, Deallocate(0))]
    case Retained => Cycle() + Cycle()
    case Exhaustion => [Expected(ExhaustionAlloc, EXHAUSTION_BYTES, 16, Exhaust)]
  }

  function Singles(n: nat): seq<Expected>
    requires n <= 6
  {
    if n == 0 then [] else Singles(n - 1) + Single(FixedCase(n - 1))
  }

  /** The operations of a case; the composition runs all six in turn. */
  function Script(c: Fixture): seq<Expected>
  {
    if c == Composition then Singles(6) else Single(c)
  }

  lemma ScriptLength(c: Fixture)
    ensures |Script(c)| == WorkOperations(c)
  {
    if c == Composition {
      assert |Singles(1)| == 2;
      assert |Singles(2)| == 4;
      assert |Singles(3)| == 8;
      assert |Singles(4)| == 10;
      assert |Singles(5)| == 42;
      assert |Singles(6)| == 43;
    }
  }

  // ---- building the workload ----

  method PushFills(before: seq<Expected>) returns (out: seq<Expected>)
    ensures out == before + Fills(8)
  {
    out := before;
    for slot := 0 to 8
      invariant out == before + Fills(slot)
    {
      out := out + [Expected(Alloc, 31 + slot * 37, 16, Allocate(slot))];
    }
  }

  method PushFrees(before: seq<Expected>) returns (out: seq<Expected>)
    ensures out == before + Frees(8)
  {
    out := before;
    for i := 0 to 8
      invariant out == before + Frees(i)
    {
      var slot := FreeAt(i);
      out := out + [Expected(Dealloc, 31 + slot * 37, 16, Deallocate(slot))];
    }
  }

  method PushRetained(before: seq<Expected>) returns (out: seq<Expected>)
    ensures out == before + Single(Retained)
  {
    var a := PushFills(before);
    var b := PushFrees(a);
    var c := PushFills(b);
    out := PushFrees(c);
    Reassociate(before, Fills(8), Frees(8));
  }

  lemma Reassociate<T>(x: seq<T>, a: seq<T>, b: seq<T>)
    ensures x + a + b + a + b == x + ((a + b) + (a + b))
  {
  }

  method PushShort(c: Fixture, before: seq<Expected>) returns (out: seq<Expected>)
    requires c != Retained && c != Composition
    ensures out == before + Single(c)
  {
    if c == GrowShrink {
      out := before + [Expected(Alloc, 64, 16, Allocate(0))];
      out := out + [Expected(Realloc, 4096, 16, Reallocate(0))];
      out := out + [Expected(Realloc, 32, 16, Reallocate(0))];
      out := out + [Expected(Dealloc, 32, 16, Deallocate(0))];
    } else if c == Exhaustion {
      out := before + [Expected(ExhaustionAlloc, EXHAUSTION_BYTES, 16, Exhaust)];
    } else {
      var name := if c == Zeroed then AllocZeroed else Alloc;
      var size: u64 := if c == Small then 64 else if c == Zeroed then 257 else 4096;
      var align: u64 := if c == Overaligned then 4096 else 16;
      out := before + [Expected(name, size, align, Allocate(0))];
      out := out + [Expected(Dealloc, size, align, Deallocate(0))];
    }
  }

  /** The workload as it is built up, push by push. */
  method ExpectedOperations(c: Fixture) returns (out: seq<Expected>)
    ensures out == Script(c)
  {
    out := [];
    if c == Composition {
      for i := 0 to 6
        invariant out == Singles(i)
      {
        if FixedCase(i) == Retained {
          out := PushRetained(out);
        } else {
          out := PushShort(FixedCase(i), out);
        }
      }
    } else if c == Retained {
      out := PushRetained([]);
    } else {
      out := PushShort(c, []);
    }
  }

  // ---- slot discipline ----

  datatype Layout = Layout(size: u64, align: u64)

  predicate InRange(e: Expected) { e.action.Exhaust? || e.action.slot < 8 }

  /** What slot s holds after the first n operations. */
  function SlotAfter(es: seq<Expected>, n: nat, s: nat): Option<Layout>
    requires n <= |es|
  {
    if n == 0 then None
    else
      var e := es[n - 1];
      if e.action.Exhaust? || e.action.slot != s then SlotAfter(es, n - 1, s)
      else if e.action.Deallocate? then None
      else Some(Layout(e.size, e.align))
  }

  predicate Fair(es: seq<Expected>, n: nat)
    requires n < |es|
  {
    var e := es[n];
    && InRange(e)
    && match e.action
       case Allocate(s) => SlotAfter(es, n, s) == None
       case Reallocate(s) => SlotAfter(es, n, s).Some? && SlotAfter(es, n, s).value.align == e.align
       case Deallocate(s) => SlotAfter(es, n, s) == Some(Layout(e.size, e.align))
       case Exhaust => true
  }

  ghost predicate Drained(es: seq<Expected>) { forall s: nat :: SlotAfter(es, |es|, s) == None }

  ghost predicate Disciplined(es: seq<Expected>)
  {
    (forall n :: 0 <= n < |es| ==> Fair(es, n)) && Drained(es)
  }

  lemma {:induction false} AfterPrefix(a: seq<Expected>, b: seq<Expected>, n: nat, s: nat)
    requires n <= |a|
    ensures SlotAfter(a + b, n, s) == SlotAfter(a, n, s)
  {
    if n != 0 {
      AfterPrefix(a, b, n - 1, s);
    }
  }

  lemma {:induction false} AfterSuffix(a: seq<Expected>, b: seq<Expected>, n: nat, s: nat)
    requires n <= |b| && Drained(a)
    ensures SlotAfter(a + b, |a| + n, s) == SlotAfter(b, n, s)
  {
    if n == 0 {
      AfterPrefix(a, b, |a|, s);
    } else {
      AfterSuffix(a, b, n - 1, s);
      assert (a + b)[|a| + n - 1] == b[n - 1];
    }
  }

  lemma FairConcat(a: seq<Expected>, b: seq<Expected>, n: nat)
    requires Disciplined(a) && Disciplined(b) && n < |a + b|
    ensures Fair(a + b, n)
  {
    var s := if (a + b)[n].action.Exhaust? then 0 else (a + b)[n].action.slot;
    if n < |a| {
      assert Fair(a, n);
      AfterPrefix(a, b, n, s);
    } else {
      assert Fair(b, n - |a|);
      AfterSuffix(a, b, n - |a|, s);
    }
  }

  lemma DisciplineConcat(a: seq<Expected>, b: seq<Expected>)
    requires Disciplined(a) && Disciplined(b)
    ensures Disciplined(a + b)
  {
    forall n | 0 <= n < |a + b| ensures Fair(a + b, n) {
      FairConcat(a, b, n);
    }
    forall s: nat ensures SlotAfter(a + b, |a + b|, s) == None {
      AfterSuffix(a, b, |b|, s);
    }
  }

  /** After n allocations of a cycle, exactly the first n slots are live. */
  lemma {:induction false} CycleFills(n: nat, s: nat)
    requires n <= 8
    ensures SlotAfter(Cycle(), n, s) == if s < n then Some(Layout(SlotSize(s), 16)) else None
  {
    if n != 0 {
      CycleFills(n - 1, s);
    }
  }

  /** After n of the frees, exactly the slots later in the free order are live. */
  lemma {:induction false} CycleDrains(n: nat, s: nat)
    requires n <= 8
    ensures SlotAfter(Cycle(), 8 + n, s) == if s < 8 && RankOf(s) >= n then Some(Layout(SlotSize(s), 16)) else None
  {
    if n == 0 {
      CycleFills(8, s);
    } else {
      CycleDrains(n - 1, s);
      assert Cycle()[8 + n - 1] == Freed(FreeAt(n - 1));
      if s < 8 && RankOf(s) == n - 1 {
        RanksDiffer(s, FreeAt(n - 1));
      }
    }
  }

  lemma CycleFair(n: nat)
    requires n < 16
    ensures Fair(Cycle(), n)
  {
    if n < 8 {
      CycleFills(n, n);
    } else {
      CycleDrains(n - 8, FreeAt(n - 8));
    }
  }

  lemma CycleDisciplined()
    ensures Disciplined(Cycle())
  {
    forall n | 0 <= n < 16 ensures Fair(Cycle(), n) {
      CycleFair(n);
    }
    forall s: nat ensures SlotAfter(Cycle(), 16, s) == None {
      CycleDrains(8, s);
    }
  }

  lemma ShortDrains(c: Fixture, s: nat)
    requires c != Retained && c != Composition
    ensures SlotAfter(Single(c), |Single(c)|, s) == None
  {
    var es := Single(c);
    assert SlotAfter(es, 0, s) == None;
    if s != 0 {
      assert SlotAfter(es, 1, s) == None;
      if |es| > 2 {
        assert SlotAfter(es, 2, s) == None;
        assert SlotAfter(es, 3, s) == None;
      }
    }
  }

  lemma ShortDisciplined(c: Fixture)
    requires c != Retained && c != Composition
    ensures Disciplined(Single(c))
  {
    var es := Single(c);
    assert Fair(es, 0);
    if |es| > 1 {
      assert Fair(es, 1);
    }
    if |es| > 2 {
      assert Fair(es, 2);
      assert Fair(es, 3);
    }
    forall s: nat ensures SlotAfter(es, |es|, s) == None {
      ShortDrains(c, s);
    }
  }

  lemma SingleDisciplined(c: Fixture)
    requires c != Composition
    ensures Disciplined(Single(c))
  {
    if c == Retained {
      CycleDisciplined();
      DisciplineConcat(Cycle(), Cycle());
    } else {
      ShortDisciplined(c);
    }
  }

  lemma {:induction false} SinglesDisciplined(n: nat)
    requires n <= 6
    ensures Disciplined(Singles(n))
  {
    if n != 0 {
      var c := FixedCase(n - 1);
      SinglesDisciplined(n - 1);
      SingleDisciplined(c);
      DisciplineConcat(Singles(n - 1), Single(c));
    }
  }

  /** Every workload follows the slot discipline. */
  lemma ScriptDisciplined(c: Fixture)
    ensures Disciplined(Script(c))
  {
    if c == Composition {
      SinglesDisciplined(6);
    } else {
      SingleDisciplined(c);
    }
  }
}
