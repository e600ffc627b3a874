/** The allocation-trace oracle: what it takes for a trial report to be accepted,
    and what an accepted report certifies after every operation. */
module Oracle {
  import opened Words
  import opened Numbers
  import opened Workload

  datatype Mode = Quiet | Work

  const PRIVATE_HEAP_BYTES: int := 33554432

  datatype Region = Region(start: u64, end: u64)
  {
    /** The extent lies inside; an extent that wraps does not. */
    predicate Contains(pointer: u64, size: u64)
    {
      pointer != 0 && pointer >= start && pointer < end &&
      pointer + size < 0x1_0000_0000_0000_0000 && pointer + size <= end
    }

    predicate Overlaps(pointer: u64, size: u64)
    {
      pointer + size < 0x1_0000_0000_0000_0000 && pointer < end && start < pointer + size
    }

    predicate Holds(a: int) { start <= a < end }
  }

  datatype Watcher = Watcher(positive: u64, exports: u64)

  datatype CaseRow = CaseRow(selected: bool, executed: bool, complete: bool)

  type Four = s: seq<u64> | |s| == 4 witness [0, 0, 0, 0]

  type Six = s: seq<u64> | |s| == 6 witness [0, 0, 0, 0, 0, 0]

  type Watchers = s: seq<Watcher> | |s| == 6 witness seq(6, _ => Watcher(0, 0))

  type CaseRows = s: seq<CaseRow> | |s| == 6 witness seq(6, _ => CaseRow(false, false, false))

  datatype Operation = Operation(name: Name, returnStatus: u64, status: u64, pointer: u64, size: u64, align: u64,
                                 privateMember: u64, depths: Four, before: HexValue, after: HexValue, calls: Six)

  datatype Report = Report(mode: Mode, fixture: Fixture, ownerBase: HexValue, declared: nat, failures: u64,
                           tool: Region, patch: Region, watchers: Watchers, cases: CaseRows,
                           operations: seq<Operation>, guest: HexValue, next: HexValue,
                           before: HexValue, after: HexValue, guestHash: HexValue, nextHash: HexValue,
                           guestBytes: seq<byte>, nextBytes: seq<byte>, guestLiteral: Text, nextLiteral: Text)

  datatype Allocation = Allocation(pointer: u64, size: u64, align: u64)
  {
    function End(): int { pointer + size }

    predicate Covers(a: int) { pointer <= a < pointer + size }
  }

  // ---- one operation ----

  function Zeros(n: nat): (s: seq<u64>)
    ensures |s| == n && forall i :: 0 <= i < n ==> s[i] == 0
  {
    if n == 0 then [] else Zeros(n - 1) + [0]
  }

  predicate PowerOfTwo(a: nat) { a == 1 || (a > 1 && a % 2 == 0 && PowerOfTwo(a / 2)) }

  predicate MultipleOf(p: nat, a: nat) { a != 0 && p % a == 0 }

  predicate InPool(r: Report, pointer: u64, size: u64)
  {
    r.tool.Contains(pointer, size) || r.patch.Contains(pointer, size)
  }

  /** The expected call, at rest, with no route entered and the break unmoved. */
  predicate Routine(r: Report, op: Operation, e: Expected)
  {
    && op.name == e.name && op.size == e.size && op.align == e.align
    && op.depths == Zeros(4)
    && op.returnStatus == op.status && op.calls == Zeros(6)
    && op.before == op.after && op.before == r.before
  }

  /** An exhausting request fails with status 2 and null; any other succeeds with
      an aligned private extent. */
  predicate OutcomeOk(r: Report, op: Operation, e: Expected)
  {
    if e.action.Exhaust? then op.returnStatus == 2 && op.status == 2 && op.pointer == 0 && op.privateMember == 0
    else
      && op.status == 0 && op.pointer != 0 && op.privateMember == 1
      && PowerOfTwo(op.align) && MultipleOf(op.pointer, op.align)
      && InPool(r, op.pointer, op.size)
  }

  predicate OpOk(r: Report, op: Operation, e: Expected) { Routine(r, op, e) && OutcomeOk(r, op, e) }

  function Granted(op: Operation): Allocation { Allocation(op.pointer, op.size, op.align) }

  predicate Apart(a: Allocation, b: Allocation) { a.End() <= b.pointer || b.End() <= a.pointer }

  type Live = s: seq<Option<Allocation>> | |s| == 8 witness seq(8, _ => None)

  /** Apart from every other live allocation; a replaced slot does not count. */
  predicate ApartFrom(live: Live, skip: Option<nat>, a: Allocation, n: nat)
    requires n <= 8
  {
    forall s :: 0 <= s < n && skip != Some(s) && live[s].Some? ==> Apart(a, live[s].value)
  }

  /** What the slot table demands of an operation. */
  predicate SlotOk(live: Live, op: Operation, e: Expected)
    requires InRange(e)
  {
    match e.action
    case Allocate(s) => live[s] == None && ApartFrom(live, None, Granted(op), 8)
    case Reallocate(s) => live[s].Some? && live[s].value.align == op.align && ApartFrom(live, Some(s), Granted(op), 8)
    case Deallocate(s) => live[s] == Some(Granted(op))
    case Exhaust => true
  }

  function SlotNext(live: Live, op: Operation, e: Expected): Live
    requires InRange(e)
  {
    match e.action
    case Allocate(s) => live[s := Some(Granted(op))]
    case Reallocate(s) => live[s := Some(Granted(op))]
    case Deallocate(s) => live[s := None]
    case Exhaust => live
  }

  method CheckApart(live: Live, skip: Option<nat>, a: Allocation) returns (ok: bool)
    ensures ok <==> ApartFrom(live, skip, a, 8)
  {
    for s := 0 to 8
      invariant ApartFrom(live, skip, a, s)
    {
      if skip == Some(s) { continue; }
      if live[s].Some? {
        var other := live[s].value;
        if a.pointer < other.End() && other.pointer < a.End() { return false; }
      }
    }
    return true;
  }

  /** One turn of the replay: the slot table moves on, or the trace is refused. */
  method ReplayOne(live: Live, op: Operation, e: Expected) returns (next: Option<Live>)
    requires InRange(e)
    ensures next == if SlotOk(live, op, e) then Some(SlotNext(live, op, e)) else None
  {
    var slot: nat, replaced: Option<nat> := 0, None;
    match e.action {
      case Exhaust =>
        return Some(live);
      case Deallocate(s) =>
        if live[s] != Some(Granted(op)) { return None; }
        return Some(live[s := None]);
      case Allocate(s) =>
        if live[s].Some? { return None; }
        slot := s;
      case Reallocate(s) =>
        if live[s].None? || live[s].value.align != op.align { return None; }
        slot, replaced := s, Some(s);
    }
    var apart := CheckApart(live, replaced, Granted(op));
    if !apart { return None; }
    return Some(live[slot := Some(Granted(op))]);
  }

  // ---- the whole trace ----

  /** What slot s holds after the first n operations, taken at their word. */
  function LiveAfter(ops: seq<Operation>, es: seq<Expected>, n: nat, s: nat): Option<Allocation>
    requires n <= |ops| && n <= |es|
  {
    if n == 0 then None
    else
      var e := es[n - 1];
      if e.action.Exhaust? || e.action.slot != s then LiveAfter(ops, es, n - 1, s)
      else if e.action.Deallocate? then None
      else Some(Granted(ops[n - 1]))
  }

  /** The live allocations are pairwise disjoint. */
  predicate LiveApart(ops: seq<Operation>, es: seq<Expected>, n: nat)
    requires n <= |ops| && n <= |es|
  {
    forall s, t :: 0 <= s < t < 8 && LiveAfter(ops, es, n, s).Some? && LiveAfter(ops, es, n, t).Some? ==>
      Apart(LiveAfter(ops, es, n, s).value, LiveAfter(ops, es, n, t).value)
  }

  /** A free names the live allocation of its slot: same pointer, same layout. */
  predicate FreeExact(ops: seq<Operation>, es: seq<Expected>, n: nat)
    requires n < |ops| && n < |es|
  {
    es[n].action.Deallocate? ==> LiveAfter(ops, es, n, es[n].action.slot) == Some(Granted(ops[n]))
  }

  /** The declarative meaning of an accepted trace. */
  ghost predicate TraceOk(r: Report, es: seq<Expected>, n: nat)
    requires n <= |r.operations| && n <= |es|
  {
    && (forall i :: 0 <= i < n ==> OpOk(r, r.operations[i], es[i]) && FreeExact(r.operations, es, i))
    && (forall i :: 0 <= i <= n ==> LiveApart(r.operations, es, i))
  }

  /** Live slots are those the workload fills, with the workload's layouts. */
  lemma {:induction false} LiveLayout(r: Report, es: seq<Expected>, n: nat, s: nat)
    requires n <= |r.operations| && n <= |es|
    requires forall i :: 0 <= i < n ==> Routine(r, r.operations[i], es[i])
    ensures var a, l := LiveAfter(r.operations, es, n, s), SlotAfter(es, n, s);
      (a.Some? <==> l.Some?) && (a.Some? ==> l.value == Layout(a.value.size, a.value.align))
  {
    if n != 0 {
      LiveLayout(r, es, n - 1, s);
    }
  }

  ghost predicate Mirrors(live: Live, ops: seq<Operation>, es: seq<Expected>, n: nat)
    requires n <= |ops| && n <= |es|
  {
    forall s :: 0 <= s < 8 ==> live[s] == LiveAfter(ops, es, n, s)
  }

  lemma MirrorsNext(live: Live, ops: seq<Operation>, es: seq<Expected>, n: nat)
    requires n < |ops| && n < |es| && InRange(es[n]) && Mirrors(live, ops, es, n)
    ensures Mirrors(SlotNext(live, ops[n], es[n]), ops, es, n + 1)
  {
    var next := SlotNext(live, ops[n], es[n]);
    forall s | 0 <= s < 8 ensures next[s] == LiveAfter(ops, es, n + 1, s) {
      assert live[s] == LiveAfter(ops, es, n, s);
    }
  }

  /** Granting a slot keeps the live allocations disjoint exactly when the new
      extent is apart from all the others. */
  lemma GrantKeepsApart(live: Live, ops: seq<Operation>, es: seq<Expected>, n: nat, slot: nat)
    requires n < |ops| && n < |es| && Mirrors(live, ops, es, n) && LiveApart(ops, es, n) && slot < 8
    requires es[n].action == Allocate(slot) || es[n].action == Reallocate(slot)
    ensures LiveApart(ops, es, n + 1) <==> ApartFrom(live, Some(slot), Granted(ops[n]), 8)
  {
    var k := n + 1;
    assert LiveAfter(ops, es, k, slot) == Some(Granted(ops[n]));
    if ApartFrom(live, Some(slot), Granted(ops[n]), 8) {
      forall s, t | 0 <= s < t < 8 && LiveAfter(ops, es, k, s).Some? && LiveAfter(ops, es, k, t).Some?
        ensures Apart(LiveAfter(ops, es, k, s).value, LiveAfter(ops, es, k, t).value)
      {
        assert s != slot ==> LiveAfter(ops, es, k, s) == live[s] == LiveAfter(ops, es, n, s);
        assert t != slot ==> LiveAfter(ops, es, k, t) == live[t] == LiveAfter(ops, es, n, t);
      }
    }
    if LiveApart(ops, es, k) {
      forall s | 0 <= s < 8 && s != slot && live[s].Some? ensures Apart(Granted(ops[n]), live[s].value) {
        assert LiveAfter(ops, es, k, s) == live[s];
      }
    }
  }

  lemma OthersKeepApart(live: Live, ops: seq<Operation>, es: seq<Expected>, n: nat)
    requires n < |ops| && n < |es| && LiveApart(ops, es, n)
    requires es[n].action.Deallocate? || es[n].action.Exhaust?
    ensures LiveApart(ops, es, n + 1)
  {
    var k := n + 1;
    forall s, t | 0 <= s < t < 8 && LiveAfter(ops, es, k, s).Some? && LiveAfter(ops, es, k, t).Some?
      ensures Apart(LiveAfter(ops, es, k, s).value, LiveAfter(ops, es, k, t).value)
    {
      assert LiveAfter(ops, es, k, s) == LiveAfter(ops, es, n, s);
      assert LiveAfter(ops, es, k, t) == LiveAfter(ops, es, n, t);
    }
  }

  /** For a disciplined workload the slot table's checks are exactly the
      declarative ones: the overwrite and not-live refusals cannot happen. */
  lemma SlotOkMeans(r: Report, live: Live, es: seq<Expected>, n: nat)
    requires n < |r.operations| && n < |es| && Disciplined(es)
    requires TraceOk(r, es, n) && Mirrors(live, r.operations, es, n)
    requires Routine(r, r.operations[n], es[n])
    ensures InRange(es[n])
    ensures SlotOk(live, r.operations[n], es[n])
      <==> FreeExact(r.operations, es, n) && LiveApart(r.operations, es, n + 1)
  {
    assert Fair(es, n);
    var ops := r.operations;
    match es[n].action {
      case Allocate(s) =>
        LiveLayout(r, es, n, s);
        GrantKeepsApart(live, ops, es, n, s);
      case Reallocate(s) =>
        LiveLayout(r, es, n, s);
        GrantKeepsApart(live, ops, es, n, s);
      case _ =>
        OthersKeepApart(live, ops, es, n);
    }
  }
}
