/** Validating a whole report, and what a certified report guarantees about
    memory. */
module Certificate {
  import opened Words
  import opened Workload
  import opened Oracle

  function Plan(r: Report): seq<Expected> { if r.mode == Work then Script(r.fixture) else [] }

  lemma PlanDisciplined(r: Report)
    ensures Disciplined(Plan(r))
    ensures |Plan(r)| == if r.mode == Work then WorkOperations(r.fixture) else 0
  {
    if r.mode == Work {
      ScriptDisciplined(r.fixture);
      ScriptLength(r.fixture);
    }
  }

  // ---- the parts of a certificate ----

  predicate PoolOk(p: Region) { p.start != 0 && p.end - p.start == PRIVATE_HEAP_BYTES }

  predicate PoolsOk(r: Report)
  {
    PoolOk(r.tool) && PoolOk(r.patch) && (r.tool.end <= r.patch.start || r.patch.end <= r.tool.start)
  }

  /** Every watcher works and saw no export entered. */
  predicate WatchersOk(w: Watchers, n: nat)
    requires n <= 6
  {
    forall i :: 0 <= i < n ==> w[i].positive != 0 && w[i].exports == 0
  }

  function RowFor(r: Report, i: nat): CaseRow
    requires i < 6
  {
    var executed := Selected(r.fixture, i) && r.mode == Work;
    CaseRow(Selected(r.fixture, i), executed, executed)
  }

  predicate CasesOk(r: Report, n: nat)
    requires n <= 6
  {
    forall i :: 0 <= i < n ==> r.cases[i] == RowFor(r, i)
  }

  predicate GuestOk(r: Report, pointer: u64, size: u64)
  {
    && pointer != 0 && pointer + size < 0x1_0000_0000_0000_0000
    && !r.tool.Overlaps(pointer, size) && !r.patch.Overlaps(pointer, size)
  }

  function Power(bits: nat): (p: nat)
    ensures p > 0
  {
    if bits == 0 then 1 else 2 * Power(bits - 1)
  }

  /** Exclusive or of the low bits, bit by bit. */
  function Xor(a: nat, b: nat, bits: nat): (r: nat)
    ensures r < Power(bits)
  {
    if bits == 0 then 0 else (a % 2 + b % 2) % 2 + 2 * Xor(a / 2, b / 2, bits - 1)
  }

  function XorByte(a: byte, b: byte): byte
  {
    assert Power(8) == 256;
    Xor(a, b, 8)
  }

  /** One step of the 64-bit FNV-1a hash. */
  function HashStep(h: u64, b: byte): u64
  {
    ((h - h % 256 + XorByte(h % 256, b)) * 1099511628211) % 0x1_0000_0000_0000_0000
  }

  function HashTo(bytes: seq<byte>, n: nat): u64
    requires n <= |bytes|
  {
    if n == 0 then 14695981039346656037 else HashStep(HashTo(bytes, n - 1), bytes[n - 1])
  }

  function PatternAt(i: nat, seed: nat): byte { (i * 29 + seed * 17 + 3) % 256 }

  predicate PatternTo(bytes: seq<byte>, seed: nat, n: nat)
    requires n <= |bytes|
  {
    forall i :: 0 <= i < n ==> bytes[i] == PatternAt(i, seed)
  }

  predicate PayloadOk(bytes: seq<byte>, seed: nat, hash: u64)
  {
    PatternTo(bytes, seed, |bytes|) && HashTo(bytes, |bytes|) == hash
  }

  predicate GuestsOk(r: Report)
  {
    && GuestOk(r, r.guest.value, 333) && GuestOk(r, r.next.value, 777)
    && (r.next.value + 777 <= r.guest.value || r.guest.value + 333 <= r.next.value)
  }

  /** Everything an accepted report promises. */
  ghost predicate Certified(r: Report)
  {
    && r.ownerBase.value != 0 && r.failures == 0
    && PoolsOk(r) && WatchersOk(r.watchers, 6) && CasesOk(r, 6)
    && r.declared == |r.operations| == |Plan(r)|
    && r.before == r.after
    && TraceOk(r, Plan(r), |Plan(r)|)
    && GuestsOk(r)
    && PayloadOk(r.guestBytes, 77, r.guestHash.value) && PayloadOk(r.nextBytes, 88, r.nextHash.value)
  }

  // ---- validating a report ----

  method CheckWatchers(w: Watchers) returns (ok: bool)
    ensures ok <==> WatchersOk(w, 6)
  {
    for i := 0 to 6
      invariant WatchersOk(w, i)
    {
      if w[i].positive == 0 || w[i].exports != 0 { return false; }
    }
    return true;
  }

  method CheckCases(r: Report) returns (ok: bool)
    ensures ok <==> CasesOk(r, 6)
  {
    for i := 0 to 6
      invariant CasesOk(r, i)
    {
      var selected := Selected(r.fixture, i);
      var executed := selected && r.mode == Work;
      if r.cases[i] != CaseRow(selected, executed, executed) { return false; }
    }
    return true;
  }

  method CheckPayload(bytes: seq<byte>, seed: nat, hash: u64) returns (ok: bool)
    ensures ok <==> PayloadOk(bytes, seed, hash)
  {
    for i := 0 to |bytes|
      invariant PatternTo(bytes, seed, i)
    {
      if bytes[i] != PatternAt(i, seed) { return false; }
    }
    var observed: u64 := 14695981039346656037;
    for i := 0 to |bytes|
      invariant observed == HashTo(bytes, i)
    {
      observed := HashStep(observed, bytes[i]);
    }
    return observed == hash;
  }

  predicate AllFree(live: Live) { forall s :: 0 <= s < 8 ==> live[s] == None }

  /** The running totals, and whether a counter would overflow. */
  predicate SumsFit(totals: Six, calls: Six)
  {
    forall i :: 0 <= i < 6 ==> calls[i] <= 0xffff_ffff_ffff_ffff - totals[i]
  }

  function Sums(totals: Six, calls: Six): Six
    requires SumsFit(totals, calls)
  {
    seq(6, i requires 0 <= i < 6 => totals[i] + calls[i])
  }

  predicate TotalsMatch(totals: Six, w: Watchers) { forall i :: 0 <= i < 6 ==> totals[i] == w[i].exports }

  lemma ZerosSum(totals: Six)
    requires totals == Zeros(6)
    ensures SumsFit(totals, Zeros(6)) && Sums(totals, Zeros(6)) == Zeros(6)
  {
  }

  lemma TraceSnoc(r: Report, es: seq<Expected>, n: nat)
    requires n < |r.operations| && n < |es|
    ensures TraceOk(r, es, n + 1) <==>
      && TraceOk(r, es, n) && OpOk(r, r.operations[n], es[n])
      && FreeExact(r.operations, es, n) && LiveApart(r.operations, es, n + 1)
  {
  }

  lemma TracePrefix(r: Report, es: seq<Expected>, m: nat, n: nat)
    requires m <= n <= |r.operations| && n <= |es|
    ensures TraceOk(r, es, n) ==> TraceOk(r, es, m)
  {
  }

  lemma Drains(r: Report, live: Live, es: seq<Expected>)
    requires |r.operations| == |es| && Disciplined(es)
    requires TraceOk(r, es, |es|) && Mirrors(live, r.operations, es, |es|)
    ensures AllFree(live)
  {
    forall s | 0 <= s < 8 ensures live[s] == None {
      LiveLayout(r, es, |es|, s);
    }
  }

  /** The replay loop accepts exactly the traces that meet the declarative
      conditions; its end-of-trace checks never refuse one that got so far. */
  method CheckTrace(r: Report, es: seq<Expected>) returns (ok: bool)
    requires |r.operations| == |es| && Disciplined(es) && WatchersOk(r.watchers, 6)
    ensures ok <==> TraceOk(r, es, |es|)
  {
    var live: Live := seq(8, _ => None);
    var totals: Six := Zeros(6);
    for n := 0 to |es|
      invariant TraceOk(r, es, n) && Mirrors(live, r.operations, es, n) && totals == Zeros(6)
    {
      var op, e := r.operations[n], es[n];
      TraceSnoc(r, es, n);
      TracePrefix(r, es, n + 1, |es|);
      if !Routine(r, op, e) || !SumsFit(totals, op.calls) || !OutcomeOk(r, op, e) {
        ZerosSum(totals);
        return false;
      }
      ZerosSum(totals);
      totals := Sums(totals, op.calls);
      SlotOkMeans(r, live, es, n);
      MirrorsNext(live, r.operations, es, n);
      var next := ReplayOne(live, op, e);
      if next.None? {
        return false;
      }
      live := next.value;
    }
    Drains(r, live, es);
    return AllFree(live) && TotalsMatch(totals, r.watchers);
  }

  /** A report is accepted exactly when it is certified. */
  method Validate(r: Report) returns (ok: bool)
    ensures ok <==> Certified(r)
  {
    if r.ownerBase.value == 0 || r.failures != 0 { return false; }
    if !PoolOk(r.tool) || !PoolOk(r.patch) { return false; }
    if !(r.tool.end <= r.patch.start || r.patch.end <= r.tool.start) { return false; }
    ok := CheckWatchers(r.watchers);
    if !ok { return false; }
    ok := CheckCases(r);
    if !ok { return false; }
    var expected, count := [], 0;
    if r.mode == Work {
      expected := ExpectedOperations(r.fixture);
      count := WorkOperations(r.fixture);
    }
    PlanDisciplined(r);
    if r.declared != count || |r.operations| != count || |expected| != count { return false; }
    if r.before != r.after { return false; }
    ok := CheckTrace(r, expected);
    if !ok { return false; }
    if !GuestOk(r, r.guest.value, 333) || !GuestOk(r, r.next.value, 777) { return false; }
    if r.guest.value < r.next.value + 777 && r.next.value < r.guest.value + 333 { return false; }
    ok := CheckPayload(r.guestBytes, 77, r.guestHash.value);
    if !ok { return false; }
    ok := CheckPayload(r.nextBytes, 88, r.nextHash.value);
  }

  // ---- what a certificate means for memory ----

  /** What slot s holds after n operations of the report. */
  function LiveAt(r: Report, n: nat, s: nat): Option<Allocation>
    requires n <= |r.operations| && n <= |Plan(r)|
  {
    LiveAfter(r.operations, Plan(r), n, s)
  }

  /** A live allocation was granted by an earlier operation. */
  lemma {:induction false} LiveGranted(ops: seq<Operation>, es: seq<Expected>, n: nat, s: nat) returns (i: nat)
    requires n <= |ops| && n <= |es| && LiveAfter(ops, es, n, s).Some?
    ensures i < n && LiveAfter(ops, es, n, s) == Some(Granted(ops[i])) && !es[i].action.Exhaust?
  {
    var e := es[n - 1];
    if e.action.Exhaust? || e.action.slot != s {
      i := LiveGranted(ops, es, n - 1, s);
    } else {
      i := n - 1;
    }
  }

  /** After every operation, every live allocation is aligned, lies in one of the
      two pools, and has the layout the workload asked for. */
  lemma LivePlaced(r: Report, n: nat, s: nat)
    requires Certified(r) && n <= |r.operations| && LiveAt(r, n, s).Some?
    ensures var a := LiveAt(r, n, s).value;
      MultipleOf(a.pointer, a.align) && InPool(r, a.pointer, a.size)
      && SlotAfter(Plan(r), n, s) == Some(Layout(a.size, a.align))
  {
    var i := LiveGranted(r.operations, Plan(r), n, s);
    assert OpOk(r, r.operations[i], Plan(r)[i]);
    LiveLayout(r, Plan(r), n, s);
  }

  /** After every operation, no address belongs to two live allocations, and none
      that is live belongs to a guest payload. */
  lemma AddressesExclusive(r: Report, n: nat, s: nat, a: int)
    requires Certified(r) && n <= |r.operations|
    requires s < 8 && LiveAt(r, n, s).Some? && LiveAt(r, n, s).value.Covers(a)
    ensures r.tool.Holds(a) || r.patch.Holds(a)
    ensures !(r.tool.Holds(a) && r.patch.Holds(a))
    ensures !(r.guest.value <= a < r.guest.value + 333) && !(r.next.value <= a < r.next.value + 777)
    ensures forall t :: 0 <= t < 8 && t != s && LiveAt(r, n, t).Some? ==> !LiveAt(r, n, t).value.Covers(a)
  {
    LivePlaced(r, n, s);
    var es := Plan(r);
    assert LiveApart(r.operations, es, n);
    forall t | 0 <= t < 8 && t != s && LiveAt(r, n, t).Some? ensures !LiveAt(r, n, t).value.Covers(a) {
      var x, y := LiveAfter(r.operations, es, n, s).value, LiveAfter(r.operations, es, n, t).value;
      assert Apart(x, y) || Apart(y, x);
    }
  }

  /** Allocations go to free slots, reallocations and frees to live ones with
      their layout, and nothing is live at the end. */
  lemma SlotsFollowed(r: Report, n: nat)
    requires Certified(r) && n < |r.operations|
    ensures var act := Plan(r)[n].action;
      && (act.Allocate? ==> LiveAt(r, n, act.slot) == None)
      && (act.Reallocate? ==>
            LiveAt(r, n, act.slot).Some? && LiveAt(r, n, act.slot).value.align == r.operations[n].align)
      && (act.Deallocate? ==> LiveAt(r, n, act.slot) == Some(Granted(r.operations[n])))
  {
    var es := Plan(r);
    PlanDisciplined(r);
    assert Fair(es, n);
    assert OpOk(r, r.operations[n], es[n]) && FreeExact(r.operations, es, n);
    if !es[n].action.Exhaust? {
      LiveLayout(r, es, n, es[n].action.slot);
    }
  }

  lemma NothingLeft(r: Report, s: nat)
    requires Certified(r)
    ensures LiveAt(r, |r.operations|, s) == None
  {
    PlanDisciplined(r);
    LiveLayout(r, Plan(r), |Plan(r)|, s);
  }
}
