/** The second half of reading a nextest run: each suite's tallies are reconciled
    with the final outcomes of its tests, and the outcomes are counted. */
module NextestSummary {
  import opened Words
  import opened Lists
  import opened Nextest

  datatype Run = Run(passed: nat, failed: nat, executed: nat, selected: nat, ignored: nat,
                     records: seq<Final>, flaky: seq<(string, nat)>, failures: seq<(string, string)>)

  /** The order in which a sorted map visits its keys. */
  predicate Visits<T(==)>(order: seq<T>, keys: set<T>) { NoDuplicates(order) && Distinct(order) == keys }

  function InSuite(ids: set<Id>, key: string): set<Id> { set id | id in ids && id.suite == key }

  function Count(per: map<string, nat>, key: string): nat { if key in per then per[key] else 0 }

  /** How many tests of each suite have a final outcome. */
  method CountFinals(order: seq<Id>) returns (per: map<string, nat>)
    requires NoDuplicates(order)
    ensures forall key :: Count(per, key) == |InSuite(Distinct(order), key)|
  {
    per := map[];
    for i := 0 to |order|
      invariant forall key :: Count(per, key) == |InSuite(Distinct(order[..i]), key)|
    {
      ghost var was := per;
      var key := order[i].suite;
      per := per[key := Count(per, key) + 1];
      forall k ensures Count(per, k) == |InSuite(Distinct(order[..i + 1]), k)| {
        OneMore(order, i, k);
        assert k != key ==> Count(per, k) == Count(was, k);
      }
    }
    assert order[..|order|] == order;
  }

  lemma OneMore(order: seq<Id>, i: nat, key: string)
    requires NoDuplicates(order) && i < |order|
    ensures |InSuite(Distinct(order[..i + 1]), key)|
         == |InSuite(Distinct(order[..i]), key)| + (if order[i].suite == key then 1 else 0)
  {
    assert order[..i + 1] == order[..i] + [order[i]];
    var was, now := InSuite(Distinct(order[..i]), key), InSuite(Distinct(order[..i + 1]), key);
    if order[i].suite == key {
      assert now == was + {order[i]};
      assert order[i] !in was;
    } else {
      assert now == was;
    }
  }

  /** A suite reported once must have tallied exactly the tests that finished; one
      reported in several segments may recount a test, but not lose one. */
  predicate SuiteAccepted(s: Suite, deduped: nat)
  {
    && s.started != 0 && s.finished != 0
    && if s.started == 1 && s.finished == 1 then s.finishes == s.tally && deduped == s.tally
       else deduped <= s.tally && deduped <= s.finishes
  }

  predicate Reconciles(st: State)
  {
    st.saw && forall key :: key in st.suites ==> SuiteAccepted(st.suites[key], |InSuite(st.finals.Keys, key)|)
  }

  function SelectedIn(st: State, order: seq<string>, n: nat): nat
    requires n <= |order| && forall k :: k in order ==> k in st.suites
  {
    if n == 0 then 0 else SelectedIn(st, order, n - 1) + st.suites[order[n - 1]].selected
  }

  function IgnoredIn(st: State, order: seq<string>, n: nat): nat
    requires n <= |order| && forall k :: k in order ==> k in st.suites
  {
    if n == 0 then 0 else IgnoredIn(st, order, n - 1) + st.suites[order[n - 1]].ignored
  }

  /** The suites are visited in order; the first that does not reconcile refuses
      the run. */
  method ReconcileSuites(st: State, suiteOrder: seq<string>, testOrder: seq<Id>)
    returns (r: Option<(nat, nat)>)
    requires Visits(suiteOrder, st.suites.Keys) && Visits(testOrder, st.finals.Keys)
    ensures r.Some? <==> Reconciles(st)
    ensures r.Some? ==> r.value == (SelectedIn(st, suiteOrder, |suiteOrder|), IgnoredIn(st, suiteOrder, |suiteOrder|))
  {
    InOrder(suiteOrder, st.suites.Keys);
    if !st.saw { return None; }
    var per := CountFinals(testOrder);
    var selected, ignored := 0, 0;
    for i := 0 to |suiteOrder|
      invariant selected == SelectedIn(st, suiteOrder, i) && ignored == IgnoredIn(st, suiteOrder, i)
      invariant forall j :: 0 <= j < i ==>
        SuiteAccepted(st.suites[suiteOrder[j]], |InSuite(st.finals.Keys, suiteOrder[j])|)
    {
      var key := suiteOrder[i];
      if !SuiteAccepted(st.suites[key], Count(per, key)) { return None; }
      selected, ignored := selected + st.suites[key].selected, ignored + st.suites[key].ignored;
    }
    forall key | key in st.suites ensures SuiteAccepted(st.suites[key], |InSuite(st.finals.Keys, key)|) {
      assert key in suiteOrder;
    }
    r := Some((selected, ignored));
  }

  lemma InOrder<T>(order: seq<T>, keys: set<T>)
    requires Visits(order, keys)
    ensures forall k :: k in order <==> k in keys
  {
    assert forall k :: k in order <==> k in Distinct(order);
  }

  /** A test that passed in the end, but was retried or had failed before. */
  predicate Flaky(st: State, id: Id)
  {
    id in st.finals && st.finals[id].ok && (st.finals[id].attempt > 0 || id in st.hadFailure)
  }

  function FlakyTo(st: State, order: seq<Id>, n: nat): seq<(string, nat)>
    requires n <= |order|
  {
    if n == 0 then []
    else
      var id := order[n - 1];
      FlakyTo(st, order, n - 1) + if Flaky(st, id) then [(id.name, Max(st.finals[id].attempt, 1))] else []
  }

  function FailedTo(st: State, order: seq<Id>, n: nat): seq<(string, string)>
    requires n <= |order| && forall id :: id in order ==> id in st.finals
  {
    if n == 0 then []
    else
      var id := order[n - 1];
      FailedTo(st, order, n - 1) +
        if st.finals[id].ok then [] else [(id.name, if id in st.stdout then st.stdout[id] else "")]
  }

  function RecordsTo(st: State, order: seq<Id>, n: nat): (r: seq<Final>)
    requires n <= |order| && forall id :: id in order ==> id in st.finals
    ensures |r| == n && forall i :: 0 <= i < n ==> r[i] == st.finals[order[i]]
  {
    if n == 0 then [] else RecordsTo(st, order, n - 1) + [st.finals[order[n - 1]]]
  }

  function Ending(st: State, ok: bool): set<Id> { set id | id in st.finals && st.finals[id].ok == ok }

  function EndingTo(st: State, order: seq<Id>, n: nat, ok: bool): set<Id>
    requires n <= |order| && forall id :: id in order ==> id in st.finals
  {
    if n == 0 then {}
    else EndingTo(st, order, n - 1, ok) + if st.finals[order[n - 1]].ok == ok then {order[n - 1]} else {}
  }

  lemma {:induction false} EndingMember(st: State, order: seq<Id>, n: nat, ok: bool, id: Id)
    requires n <= |order| && forall id :: id in order ==> id in st.finals
    ensures id in EndingTo(st, order, n, ok) <==> id in order[..n] && st.finals[id].ok == ok
  {
    if n != 0 {
      EndingMember(st, order, n - 1, ok, id);
      assert order[..n] == order[..n - 1] + [order[n - 1]];
    }
  }

  lemma EndingSnoc(st: State, order: seq<Id>, n: nat, ok: bool)
    requires 0 < n <= |order| && NoDuplicates(order) && forall id :: id in order ==> id in st.finals
    ensures |EndingTo(st, order, n, ok)|
         == |EndingTo(st, order, n - 1, ok)| + (if st.finals[order[n - 1]].ok == ok then 1 else 0)
  {
    var id := order[n - 1];
    assert id !in order[..n - 1];
    EndingMember(st, order, n - 1, ok, id);
  }

  lemma EndingWhole(st: State, order: seq<Id>, ok: bool)
    requires Visits(order, st.finals.Keys)
    ensures forall id :: id in order ==> id in st.finals
    ensures EndingTo(st, order, |order|, ok) == Ending(st, ok)
  {
    InOrder(order, st.finals.Keys);
    assert order[..|order|] == order;
    forall id ensures id in EndingTo(st, order, |order|, ok) <==> id in Ending(st, ok) {
      EndingMember(st, order, |order|, ok, id);
    }
  }

  function CountTo(st: State, order: seq<Id>, n: nat, ok: bool): nat
    requires n <= |order| && forall id :: id in order ==> id in st.finals
  {
    if n == 0 then 0 else CountTo(st, order, n - 1, ok) + if st.finals[order[n - 1]].ok == ok then 1 else 0
  }

  lemma {:induction false} CountEnding(st: State, order: seq<Id>, n: nat, ok: bool)
    requires n <= |order| && NoDuplicates(order) && forall id :: id in order ==> id in st.finals
    ensures CountTo(st, order, n, ok) == |EndingTo(st, order, n, ok)|
  {
    if n != 0 {
      CountEnding(st, order, n - 1, ok);
      EndingSnoc(st, order, n, ok);
    }
  }

  lemma EndingsSplit(st: State)
    ensures |Ending(st, true)| + |Ending(st, false)| == |st.finals|
  {
    assert Ending(st, true) + Ending(st, false) == st.finals.Keys;
    assert Ending(st, true) !! Ending(st, false);
  }

  /** The published run, or None when it is refused. */
  function Summary(st: State, suiteOrder: seq<string>, testOrder: seq<Id>): (r: Option<Run>)
    requires Visits(suiteOrder, st.suites.Keys) && Visits(testOrder, st.finals.Keys)
  {
    InOrder(suiteOrder, st.suites.Keys);
    InOrder(testOrder, st.finals.Keys);
    if !Reconciles(st) then None
    else
      Some(Run(|Ending(st, true)|, |Ending(st, false)|, |st.finals|,
               SelectedIn(st, suiteOrder, |suiteOrder|), IgnoredIn(st, suiteOrder, |suiteOrder|),
               RecordsTo(st, testOrder, |testOrder|), FlakyTo(st, testOrder, |testOrder|),
               FailedTo(st, testOrder, |testOrder|)))
  }

  lemma CountWhole(st: State, order: seq<Id>, ok: bool)
    requires Visits(order, st.finals.Keys) && forall id :: id in order ==> id in st.finals
    ensures CountTo(st, order, |order|, ok) == |Ending(st, ok)|
  {
    CountEnding(st, order, |order|, ok);
    EndingWhole(st, order, ok);
  }

  /** Every final outcome is counted once, as passed or as failed. */
  method CountOutcomes(st: State, order: seq<Id>)
    returns (passed: nat, failed: nat, records: seq<Final>, flaky: seq<(string, nat)>, failures: seq<(string, string)>)
    requires Visits(order, st.finals.Keys) && forall id :: id in order ==> id in st.finals
    ensures passed == |Ending(st, true)| && failed == |Ending(st, false)|
    ensures records == RecordsTo(st, order, |order|)
    ensures flaky == FlakyTo(st, order, |order|) && failures == FailedTo(st, order, |order|)
  {
    passed, failed, records, flaky, failures := 0, 0, [], [], [];
    for i := 0 to |order|
      invariant passed == CountTo(st, order, i, true) && failed == CountTo(st, order, i, false)
      invariant records == RecordsTo(st, order, i)
      invariant flaky == FlakyTo(st, order, i) && failures == FailedTo(st, order, i)
    {
      var id := order[i];
      var record := st.finals[id];
      if record.ok {
        passed := passed + 1;
        if record.attempt > 0 || id in st.hadFailure {
          flaky := flaky + [(id.name, Max(record.attempt, 1))];
        }
      } else {
        failed := failed + 1;
        failures := failures + [(id.name, if id in st.stdout then st.stdout[id] else "")];
      }
      records := records + [record];
    }
    CountWhole(st, order, true);
    CountWhole(st, order, false);
  }

  /** The whole second half: refused unless the suites reconcile. */
  method Summarise(st: State, suiteOrder: seq<string>, testOrder: seq<Id>) returns (r: Option<Run>)
    requires Visits(suiteOrder, st.suites.Keys) && Visits(testOrder, st.finals.Keys)
    ensures r == Summary(st, suiteOrder, testOrder)
  {
    var sums := ReconcileSuites(st, suiteOrder, testOrder);
    if sums.None? { return None; }
    InOrder(testOrder, st.finals.Keys);
    var passed, failed, records, flaky, failures := CountOutcomes(st, testOrder);
    EndingsSplit(st);
    r := Some(Run(passed, failed, passed + failed, sums.value.0, sums.value.1, records, flaky, failures));
  }

  // ---- what a run says about its stream ----

  /** Reading a stream: refused for a malformed event, or when it does not reconcile. */
  function Parse(es: seq<Event>, suiteOrder: seq<string>, testOrder: seq<Id>): Option<Run>
    requires Visits(suiteOrder, Fold(es).suites.Keys) && Visits(testOrder, Fold(es).finals.Keys)
  {
    if Malformed in es then None else Summary(Fold(es), suiteOrder, testOrder)
  }

  /** Interleaving does not matter: the other stream is refused alike or gives the
      same run. */
  lemma InterleavedRuns(es: seq<Event>, fs: seq<Event>, suiteOrder: seq<string>, testOrder: seq<Id>)
    requires Interleaves(es, fs)
    requires Visits(suiteOrder, Fold(es).suites.Keys) && Visits(testOrder, Fold(es).finals.Keys)
    ensures Fold(fs) == Fold(es)
    ensures Parse(fs, suiteOrder, testOrder) == Parse(es, suiteOrder, testOrder)
  {
    InterleavingsAgree(es, fs);
    assert Malformed in es <==> Malformed in multiset(es);
    assert Malformed in fs <==> Malformed in multiset(fs);
  }

  /** The tests that finished at least once. */
  function TestsIn(es: seq<Event>): set<Id> { set e | e in es && e.Done? :: e.id }

  lemma FinalsAreTests(es: seq<Event>)
    ensures Fold(es).finals.Keys == TestsIn(es)
  {
    forall id ensures id in Fold(es).finals <==> id in TestsIn(es) {
      FinalIsLast(es, id);
      var t := Finishes(es, id);
      if t != [] {
        FinishesMembers(es, id, t[0]);
      }
      if id in TestsIn(es) {
        var e :| e in es && e.Done? && e.id == id;
        FinishesMembers(es, id, e);
      }
    }
  }

  /** Every distinct test that finished is executed once, and passed or failed. */
  lemma ExecutedOnce(es: seq<Event>, suiteOrder: seq<string>, testOrder: seq<Id>)
    requires Visits(suiteOrder, Fold(es).suites.Keys) && Visits(testOrder, Fold(es).finals.Keys)
    ensures var r := Parse(es, suiteOrder, testOrder);
      r.Some? ==> r.value.executed == |TestsIn(es)| == |r.value.records| == r.value.passed + r.value.failed
  {
    FinalsAreTests(es);
    EndingsSplit(Fold(es));
    DistinctExact(testOrder);
  }

  /** A test is flaky exactly when its last finish passed and it was a retry or came
      after a failure. */
  lemma FlakyMeans(es: seq<Event>, id: Id)
    ensures var t := Finishes(es, id);
      Flaky(Fold(es), id) <==>
        t != [] && t[|t| - 1].ok && (t[|t| - 1].attempt > 0 || SomeFailed(t[..|t| - 1]))
  {
    FinalIsLast(es, id);
    var t := Finishes(es, id);
    if t != [] {
      SomeFailedSnoc(t[..|t| - 1], t[|t| - 1]);
      assert t[..|t| - 1] + [t[|t| - 1]] == t;
    }
  }

  /** The listed flaky tests are exactly the flaky ones. */
  lemma {:induction false} FlakyListed(st: State, order: seq<Id>, n: nat, name: string, run: nat)
    requires n <= |order|
    ensures (name, run) in FlakyTo(st, order, n) <==>
      exists i :: 0 <= i < n && Flaky(st, order[i]) &&
        order[i].name == name && run == Max(st.finals[order[i]].attempt, 1)
  {
    if n != 0 {
      FlakyListed(st, order, n - 1, name, run);
    }
  }

  /** The finishes of one suite's tests. */
  function DoneIn(es: seq<Event>, key: string): seq<Id>
  {
    if es == [] then []
    else
      var e := es[|es| - 1];
      DoneIn(es[..|es| - 1], key) + if e.Done? && e.id.suite == key then [e.id] else []
  }

  lemma {:induction false} SuiteFinishes(es: seq<Event>, key: string)
    ensures Entry(Fold(es).suites, key).finishes == |DoneIn(es, key)|
    ensures InSuite(Fold(es).finals.Keys, key) == Distinct(DoneIn(es, key))
  {
    if es != [] {
      var init, e := es[..|es| - 1], es[|es| - 1];
      SuiteFinishes(init, key);
      var was, now := Fold(init).finals.Keys, Fold(es).finals.Keys;
      if e.Done? && e.id.suite == key {
        assert InSuite(now, key) == InSuite(was, key) + {e.id};
        assert Distinct(DoneIn(es, key)) == Distinct(DoneIn(init, key)) + {e.id};
      } else {
        assert InSuite(now, key) == InSuite(was, key);
        assert DoneIn(es, key) == DoneIn(init, key);
      }
    }
  }

  /** A suite reported in one segment is accepted only if each of its tests finished
      exactly once, and its own tally says so. */
  lemma OneSegmentExact(es: seq<Event>, key: string)
    requires Reconciles(Fold(es)) && key in Fold(es).suites
    requires Fold(es).suites[key].started == 1 && Fold(es).suites[key].finished == 1
    ensures NoDuplicates(DoneIn(es, key)) && |DoneIn(es, key)| == Fold(es).suites[key].tally
  {
    SuiteFinishes(es, key);
    DistinctCount(DoneIn(es, key));
  }

  /** The second half of the re-segmented check cannot fail: a suite never has more
      final outcomes than finishes. */
  lemma FinishesSuffice(es: seq<Event>, key: string)
    ensures |InSuite(Fold(es).finals.Keys, key)| <= Entry(Fold(es).suites, key).finishes
  {
    SuiteFinishes(es, key);
    DistinctCount(DoneIn(es, key));
  }
}
