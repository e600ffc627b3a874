/** Certificates exist: for every case, in either mode, some report is accepted. */
module Feasible {
  import opened Words
  import opened Numbers
  import opened Workload
  import opened Oracle
  import opened Certificate

  /** Every operation but the exhausting one asks for at most a page. */
  predicate Modest(e: Expected)
  {
    e.action.Exhaust? || (0 < e.size <= 4096 && (e.align == 16 || e.align == 4096) && e.action.slot < 8)
  }

  predicate AllModest(es: seq<Expected>) { forall i :: 0 <= i < |es| ==> Modest(es[i]) }

  lemma SingleModest(c: Fixture)
    requires c != Composition
    ensures AllModest(Single(c))
  {
    if c == Retained {
      forall i | 0 <= i < 16 ensures Modest(Cycle()[i]) {
      }
    }
  }

  lemma ModestConcat(a: seq<Expected>, b: seq<Expected>)
    requires AllModest(a) && AllModest(b)
    ensures AllModest(a + b)
  {
  }

  lemma {:induction false} SinglesModest(n: nat)
    requires n <= 6
    ensures AllModest(Singles(n))
  {
    if n != 0 {
      var c := FixedCase(n - 1);
      SinglesModest(n - 1);
      SingleModest(c);
      ModestConcat(Singles(n - 1), Single(c));
    }
  }

  lemma PlanModest(r: Report)
    ensures AllModest(Plan(r))
  {
    if r.fixture == Composition {
      SinglesModest(6);
    } else {
      SingleModest(r.fixture);
    }
  }

  function Plain(v: u64): HexValue { HexValue(v, [48, 120] + Print(v, Sixteen)) }

  /** Slot s lives in its own page of the tool pool. */
  function PageOf(s: nat): u64
    requires s < 8
  {
    0x1000_0000 + 4096 * s
  }

  function Served(e: Expected): Operation
    requires Modest(e)
  {
    if e.action.Exhaust?
    then Operation(e.name, 2, 2, 0, e.size, e.align, 0, Zeros(4), Plain(0), Plain(0), Zeros(6))
    else Operation(e.name, 0, 0, PageOf(e.action.slot), e.size, e.align, 1, Zeros(4), Plain(0), Plain(0), Zeros(6))
  }

  function ServedAll(es: seq<Expected>): (r: seq<Operation>)
    requires AllModest(es)
    ensures |r| == |es| && forall i :: 0 <= i < |es| ==> r[i] == Served(es[i])
  {
    seq(|es|, i requires 0 <= i < |es| && Modest(es[i]) => Served(es[i]))
  }

  function Pattern(n: nat, seed: nat): (r: seq<byte>)
    ensures |r| == n && PatternTo(r, seed, n)
  {
    seq(n, i requires 0 <= i => PatternAt(i, seed))
  }

  function Rows(mode: Mode, c: Fixture): CaseRows
  {
    seq(6, i requires 0 <= i < 6 =>
      var executed := Selected(c, i) && mode == Work;
      CaseRow(Selected(c, i), executed, executed))
  }

  /** A report with the given payloads and operations. */
  function Filed(mode: Mode, c: Fixture, ops: seq<Operation>, guest: seq<byte>, next: seq<byte>): Report
  {
    Report(mode, c, Plain(1), |ops|, 0, Region(0x1000_0000, 0x1200_0000), Region(0x1200_0000, 0x1400_0000),
           seq(6, _ => Watcher(1, 0)), Rows(mode, c), ops, Plain(4096), Plain(8192), Plain(0), Plain(0),
           Plain(HashTo(guest, |guest|)), Plain(HashTo(next, |next|)), guest, next,
           PrintPayload(guest), PrintPayload(next))
  }

  lemma FiledParts(mode: Mode, c: Fixture, ops: seq<Operation>, guest: seq<byte>, next: seq<byte>)
    requires PatternTo(guest, 77, |guest|) && PatternTo(next, 88, |next|)
    ensures var r := Filed(mode, c, ops, guest, next);
      && r.ownerBase.value != 0 && r.failures == 0
      && PoolsOk(r) && WatchersOk(r.watchers, 6) && CasesOk(r, 6) && GuestsOk(r)
      && PayloadOk(r.guestBytes, 77, r.guestHash.value) && PayloadOk(r.nextBytes, 88, r.nextHash.value)
  {
  }

  lemma Powers()
    ensures PowerOfTwo(16) && PowerOfTwo(4096)
  {
  }

  lemma PagesAligned(s: nat)
    requires s < 8
    ensures MultipleOf(PageOf(s), 16) && MultipleOf(PageOf(s), 4096)
  {
    assert PageOf(s) == 4096 * (0x10000 + s);
    assert PageOf(s) == 16 * (256 * (0x10000 + s));
  }

  lemma ServedOk(r: Report, e: Expected)
    requires Modest(e) && r.before == Plain(0) && r.tool == Region(0x1000_0000, 0x1200_0000)
    ensures OpOk(r, Served(e), e)
  {
    if !e.action.Exhaust? {
      Powers();
      PagesAligned(e.action.slot);
    }
  }

  /** What is live in a slot lies in the slot's page. */
  lemma {:induction false} LiveInPage(es: seq<Expected>, n: nat, s: nat)
    requires AllModest(es) && n <= |es| && s < 8
    ensures var a := LiveAfter(ServedAll(es), es, n, s);
      a.Some? ==> a.value.pointer == PageOf(s) && a.value.size <= 4096
  {
    if n != 0 {
      LiveInPage(es, n - 1, s);
      assert ServedAll(es)[n - 1] == Served(es[n - 1]) && Modest(es[n - 1]);
    }
  }

  lemma ServedApart(es: seq<Expected>, n: nat)
    requires AllModest(es) && n <= |es|
    ensures LiveApart(ServedAll(es), es, n)
  {
    var ops := ServedAll(es);
    forall s, t | 0 <= s < t < 8 && LiveAfter(ops, es, n, s).Some? && LiveAfter(ops, es, n, t).Some?
      ensures Apart(LiveAfter(ops, es, n, s).value, LiveAfter(ops, es, n, t).value)
    {
      LiveInPage(es, n, s);
      LiveInPage(es, n, t);
    }
  }

  lemma ServedFrees(r: Report, es: seq<Expected>, n: nat)
    requires AllModest(es) && Disciplined(es) && n < |es| && r.operations == ServedAll(es)
    requires forall i :: 0 <= i < |es| ==> Routine(r, r.operations[i], es[i])
    ensures FreeExact(r.operations, es, n)
  {
    if es[n].action.Deallocate? {
      assert Fair(es, n) && r.operations[n] == Served(es[n]);
      LiveLayout(r, es, n, es[n].action.slot);
      LiveInPage(es, n, es[n].action.slot);
    }
  }

  lemma ServedTrace(r: Report, es: seq<Expected>)
    requires AllModest(es) && Disciplined(es) && r.operations == ServedAll(es)
    requires r.before == Plain(0) && r.tool == Region(0x1000_0000, 0x1200_0000)
    ensures TraceOk(r, es, |es|)
  {
    forall i | 0 <= i < |es| ensures OpOk(r, r.operations[i], es[i]) {
      ServedOk(r, es[i]);
    }
    forall i | 0 <= i < |es| ensures FreeExact(r.operations, es, i) {
      ServedFrees(r, es, i);
    }
    forall i | 0 <= i <= |es| ensures LiveApart(r.operations, es, i) {
      ServedApart(es, i);
    }
  }

  /** Every case can be certified, in quiet and in work mode, with payloads of any
      length that follow the pattern. */
  lemma Certifiable(mode: Mode, c: Fixture, guest: seq<byte>, next: seq<byte>) returns (r: Report)
    requires PatternTo(guest, 77, |guest|) && PatternTo(next, 88, |next|)
    ensures Certified(r) && r.mode == mode && r.fixture == c && r.guestBytes == guest && r.nextBytes == next
  {
    var es := Plan(Filed(mode, c, [], guest, next));
    PlanModest(Filed(mode, c, [], guest, next));
    r := Filed(mode, c, ServedAll(es), guest, next);
    PlanDisciplined(r);
    FiledParts(mode, c, ServedAll(es), guest, next);
    ServedTrace(r, es);
  }

  /** So for every case the oracle accepts some report of the fixture's sizes. */
  lemma EveryCaseCertifiable(mode: Mode, c: Fixture) returns (r: Report)
    ensures Certified(r) && r.mode == mode && r.fixture == c && |r.guestBytes| == 333 && |r.nextBytes| == 777
  {
    r := Certifiable(mode, c, Pattern(333, 77), Pattern(777, 88));
  }
}
