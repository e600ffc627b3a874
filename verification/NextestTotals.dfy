/** What a nextest run's totals and failure texts are, said of the event stream
    alone. */
module NextestTotals {
  import opened Words
  import opened Lists
  import opened Nextest
  import opened NextestSummary

  // ---- what one suite's events say ----

  /** The test counts that the suite's segments announced, in order. */
  function Announced(es: seq<Event>, key: string): seq<nat>
  {
    if es == [] then []
    else
      var e := es[|es| - 1];
      Announced(es[..|es| - 1], key) + if e.Started? && e.suite == key then [e.count] else []
  }

  /** The reports that ended the suite's segments, in order. */
  function Reports(es: seq<Event>, key: string): (r: seq<Event>)
    ensures forall i :: 0 <= i < |r| ==> r[i].Finished? && r[i].suite == key
  {
    if es == [] then []
    else
      var e := es[|es| - 1];
      Reports(es[..|es| - 1], key) + if e.Finished? && e.suite == key then [e] else []
  }

  /** m is the largest of the numbers, or 0 if there are none. */
  predicate Greatest(s: seq<nat>, m: nat)
  {
    (forall i :: 0 <= i < |s| ==> s[i] <= m) && (m in s || (s == [] && m == 0))
  }

  function IgnoredOf(r: seq<Event>): (s: seq<nat>)
    requires forall i :: 0 <= i < |r| ==> r[i].Finished?
    ensures |s| == |r| && forall i :: 0 <= i < |r| ==> s[i] == r[i].ignored
  {
    if r == [] then [] else IgnoredOf(r[..|r| - 1]) + [r[|r| - 1].ignored]
  }

  function OutcomesOf(r: seq<Event>): nat
    requires forall i :: 0 <= i < |r| ==> r[i].Finished?
  {
    if r == [] then 0 else OutcomesOf(r[..|r| - 1]) + r[|r| - 1].passed + r[|r| - 1].failed
  }

  lemma GreatestSnoc(s: seq<nat>, m: nat, n: nat)
    requires Greatest(s, m)
    ensures Greatest(s + [n], Max(m, n))
  {
    var t := s + [n];
    assert t[|s|] == n;
    if m in s {
      assert m in t;
    }
  }

  /** A suite's entry, from its announced counts, its reports and its finishes. */
  ghost predicate Sums(s: Suite, announced: seq<nat>, reports: seq<Event>, finishes: nat)
    requires forall i :: 0 <= i < |reports| ==> reports[i].Finished?
  {
    && s.started == |announced| && Greatest(announced, s.selected)
    && s.finished == |reports| && Greatest(IgnoredOf(reports), s.ignored) && s.tally == OutcomesOf(reports)
    && s.finishes == finishes
  }

  ghost predicate EntryIs(s: Suite, es: seq<Event>, key: string)
  {
    Sums(s, Announced(es, key), Reports(es, key), |DoneIn(es, key)|)
  }

  /** What the state keeps of a suite: how many segments started and ended, the
      largest announced count, the largest ignored count, the sum of the reported
      outcomes and the number of finishes. */
  lemma {:induction false} SuiteMeans(es: seq<Event>, key: string)
    ensures EntryIs(Entry(Fold(es).suites, key), es, key)
    ensures key in Fold(es).suites <==> exists i :: 0 <= i < |es| && KeyOf(es[i]) == Some(key)
  {
    if es != [] {
      var init, e := es[..|es| - 1], es[|es| - 1];
      SuiteMeans(init, key);
      SuiteNext(init, e, key);
      assert es == init + [e];
      KeySnoc(init, e, key);
    }
  }

  lemma KeySnoc(init: seq<Event>, e: Event, key: string)
    ensures (exists i :: 0 <= i < |init + [e]| && KeyOf((init + [e])[i]) == Some(key)) <==>
      (exists i :: 0 <= i < |init| && KeyOf(init[i]) == Some(key)) || KeyOf(e) == Some(key)
  {
    var es := init + [e];
    assert es[|init|] == e;
    forall i | 0 <= i < |init| ensures es[i] == init[i] {
    }
    if i :| 0 <= i < |init| && KeyOf(init[i]) == Some(key) {
      assert KeyOf(es[i]) == Some(key);
    }
  }

  lemma StartedNext(s: Suite, announced: seq<nat>, reports: seq<Event>, finishes: nat, e: Event)
    requires e.Started? && forall i :: 0 <= i < |reports| ==> reports[i].Finished?
    requires Sums(s, announced, reports, finishes)
    ensures Sums(Touch(s, e), announced + [e.count], reports, finishes)
  {
    GreatestSnoc(announced, s.selected, e.count);
  }

  lemma FinishedNext(s: Suite, announced: seq<nat>, reports: seq<Event>, finishes: nat, e: Event)
    requires e.Finished? && forall i :: 0 <= i < |reports| ==> reports[i].Finished?
    requires Sums(s, announced, reports, finishes)
    ensures Sums(Touch(s, e), announced, reports + [e], finishes)
  {
    var r := reports + [e];
    assert r[..|r| - 1] == reports && r[|r| - 1] == e;
    GreatestSnoc(IgnoredOf(reports), s.ignored, e.ignored);
  }

  lemma Snocs(init: seq<Event>, e: Event, key: string)
    ensures Announced(init + [e], key) == Announced(init, key) + if e.Started? && e.suite == key then [e.count] else []
    ensures Reports(init + [e], key) == Reports(init, key) + if e.Finished? && e.suite == key then [e] else []
    ensures DoneIn(init + [e], key) == DoneIn(init, key) + if e.Done? && e.id.suite == key then [e.id] else []
    ensures Fold(init + [e]) == Step(Fold(init), e)
  {
    var es := init + [e];
    assert es[..|es| - 1] == init && es[|es| - 1] == e;
  }

  /** One more event, as far as it concerns this suite. */
  lemma SumsNext(was: Suite, a: seq<nat>, r: seq<Event>, d: seq<Id>, e: Event, key: string)
    requires (forall i :: 0 <= i < |r| ==> r[i].Finished?) && Sums(was, a, r, |d|)
    ensures Sums(if KeyOf(e) == Some(key) then Touch(was, e) else was,
                 a + (if e.Started? && e.suite == key then [e.count] else []),
                 r + (if e.Finished? && e.suite == key then [e] else []),
                 |d + (if e.Done? && e.id.suite == key then [e.id] else [])|)
  {
    assert a + [] == a && r + [] == r && d + [] == d;
    if KeyOf(e) == Some(key) {
      match e
      case Started(_, _) => StartedNext(was, a, r, |d|, e);
      case Finished(_, _, _, _) => FinishedNext(was, a, r, |d|, e);
      case Done(_, _, _, _, _) =>
    }
  }

  lemma EntryNext(st: State, e: Event, key: string)
    ensures Entry(Step(st, e).suites, key) ==
      if KeyOf(e) == Some(key) then Touch(Entry(st.suites, key), e) else Entry(st.suites, key)
  {
  }

  lemma SuiteNext(init: seq<Event>, e: Event, key: string)
    requires EntryIs(Entry(Fold(init).suites, key), init, key)
    ensures EntryIs(Entry(Fold(init + [e]).suites, key), init + [e], key)
  {
    Snocs(init, e, key);
    EntryNext(Fold(init), e, key);
    SumsNext(Entry(Fold(init).suites, key), Announced(init, key), Reports(init, key), DoneIn(init, key), e, key);
  }

  // ---- which streams are accepted ----

  /** What a suite's events must say: it started and ended, and a suite of one segment
      reported exactly its finishes, one for each of its tests; one of several
      segments reported at least its tests. */
  predicate SuiteAgrees(es: seq<Event>, key: string)
  {
    var done, outcomes := DoneIn(es, key), OutcomesOf(Reports(es, key));
    && Announced(es, key) != [] && Reports(es, key) != []
    && if |Announced(es, key)| == 1 && |Reports(es, key)| == 1
       then |done| == outcomes && |Distinct(done)| == outcomes
       else |Distinct(done)| <= outcomes
  }

  predicate Mentions(es: seq<Event>, key: string)
  {
    exists i :: 0 <= i < |es| && KeyOf(es[i]) == Some(key)
  }

  lemma {:induction false} SawMeans(es: seq<Event>)
    ensures Fold(es).saw <==> exists i :: 0 <= i < |es| && KeyOf(es[i]).Some?
  {
    if es != [] {
      var init, e := es[..|es| - 1], es[|es| - 1];
      SawMeans(init);
      assert forall i :: 0 <= i < |init| ==> es[i] == init[i];
    }
  }

  lemma AgreesMeans(es: seq<Event>, key: string)
    requires key in Fold(es).suites
    ensures SuiteAccepted(Fold(es).suites[key], |InSuite(Fold(es).finals.Keys, key)|) <==> SuiteAgrees(es, key)
  {
    SuiteMeans(es, key);
    SuiteFinishes(es, key);
    DistinctCount(DoneIn(es, key));
  }

  /** A stream is accepted exactly when no event is malformed, there is an event of
      some suite, and the events of every suite agree. */
  lemma AcceptedExactly(es: seq<Event>, suiteOrder: seq<string>, testOrder: seq<Id>)
    requires Visits(suiteOrder, Fold(es).suites.Keys) && Visits(testOrder, Fold(es).finals.Keys)
    ensures Parse(es, suiteOrder, testOrder).Some? <==>
      && Malformed !in es && (exists i :: 0 <= i < |es| && KeyOf(es[i]).Some?)
      && forall key :: Mentions(es, key) ==> SuiteAgrees(es, key)
  {
    SawMeans(es);
    forall key ensures key in Fold(es).suites <==> Mentions(es, key) {
      SuiteMeans(es, key);
    }
    forall key | key in Fold(es).suites
      ensures SuiteAccepted(Fold(es).suites[key], |InSuite(Fold(es).finals.Keys, key)|) <==> SuiteAgrees(es, key)
    {
      AgreesMeans(es, key);
    }
  }

  // ---- the totals ----

  function Total(s: seq<nat>): nat { if s == [] then 0 else Total(s[..|s| - 1]) + s[|s| - 1] }

  /** The sums that are published, suite by suite. */
  lemma {:induction false} Addends(st: State, order: seq<string>, n: nat)
    returns (selected: seq<nat>, ignored: seq<nat>)
    requires n <= |order| && forall k :: k in order ==> k in st.suites
    ensures |selected| == |ignored| == n
    ensures forall i :: 0 <= i < n ==>
      selected[i] == st.suites[order[i]].selected && ignored[i] == st.suites[order[i]].ignored
    ensures Total(selected) == SelectedIn(st, order, n) && Total(ignored) == IgnoredIn(st, order, n)
  {
    selected, ignored := [], [];
    if n != 0 {
      var a, b := Addends(st, order, n - 1);
      var s := st.suites[order[n - 1]];
      selected, ignored := a + [s.selected], b + [s.ignored];
      assert selected[..n - 1] == a && ignored[..n - 1] == b;
    }
  }

  /** An accepted run selects and ignores, over all its suites, the largest count
      that each announced and the largest that each ignored. */
  lemma RunTotals(es: seq<Event>, suiteOrder: seq<string>, testOrder: seq<Id>)
    returns (selected: seq<nat>, ignored: seq<nat>)
    requires Visits(suiteOrder, Fold(es).suites.Keys) && Visits(testOrder, Fold(es).finals.Keys)
    requires Parse(es, suiteOrder, testOrder).Some?
    ensures |selected| == |ignored| == |suiteOrder|
    ensures forall i :: 0 <= i < |suiteOrder| ==>
      && Greatest(Announced(es, suiteOrder[i]), selected[i])
      && Greatest(IgnoredOf(Reports(es, suiteOrder[i])), ignored[i])
    ensures var run := Parse(es, suiteOrder, testOrder).value;
      run.selected == Total(selected) && run.ignored == Total(ignored)
  {
    InOrder(suiteOrder, Fold(es).suites.Keys);
    selected, ignored := Addends(Fold(es), suiteOrder, |suiteOrder|);
    forall i | 0 <= i < |suiteOrder|
      ensures Greatest(Announced(es, suiteOrder[i]), selected[i])
      ensures Greatest(IgnoredOf(Reports(es, suiteOrder[i])), ignored[i])
    {
      SuiteMeans(es, suiteOrder[i]);
    }
  }

  // ---- failure texts ----

  /** The output of the last finish that carried any; empty if none did. */
  predicate LastText(t: seq<Event>, text: string)
    requires forall i :: 0 <= i < |t| ==> t[i].Done?
  {
    || (text == "" && forall i :: 0 <= i < |t| ==> t[i].stdout == None)
    || exists i :: 0 <= i < |t| && t[i].stdout == Some(text) && forall j :: i < j < |t| ==> t[j].stdout == None
  }

  function TextOf(st: State, id: Id): string { if id in st.stdout then st.stdout[id] else "" }

  lemma TextNext(t: seq<Event>, e: Event, text: string)
    requires e.Done? && forall i :: 0 <= i < |t| ==> t[i].Done?
    requires e.stdout == None ==> LastText(t, text)
    requires e.stdout.Some? ==> e.stdout.value == text
    ensures LastText(t + [e], text)
  {
    var u := t + [e];
    if e.stdout.Some? {
      assert u[|t|].stdout == Some(text);
    } else if i :| 0 <= i < |t| && t[i].stdout == Some(text) && forall j :: i < j < |t| ==> t[j].stdout == None {
      assert u[i].stdout == Some(text);
      assert forall j :: i < j < |u| ==> u[j].stdout == None;
    }
  }

  /** The text kept for a test is the output of the last of its finishes that carried
      one. */
  lemma {:induction false} TextIsLast(es: seq<Event>, id: Id)
    ensures LastText(Finishes(es, id), TextOf(Fold(es), id))
    ensures id !in Fold(es).stdout ==> forall i :: 0 <= i < |Finishes(es, id)| ==> Finishes(es, id)[i].stdout == None
  {
    if es != [] {
      var init, e := es[..|es| - 1], es[|es| - 1];
      TextIsLast(init, id);
      if e.Done? && e.id == id {
        TextNext(Finishes(init, id), e, TextOf(Fold(es), id));
      } else {
        assert Finishes(es, id) == Finishes(init, id);
      }
    }
  }

  /** The failures listed are the tests whose last finish failed, each with its text,
      and there are as many as failed. */
  lemma {:induction false} FailuresListed(st: State, order: seq<Id>, n: nat)
    requires n <= |order| && forall id :: id in order ==> id in st.finals
    ensures |FailedTo(st, order, n)| == CountTo(st, order, n, false)
    ensures forall f :: f in FailedTo(st, order, n) <==>
      exists i :: 0 <= i < n && !st.finals[order[i]].ok && f == (order[i].name, TextOf(st, order[i]))
  {
    if n != 0 {
      FailuresListed(st, order, n - 1);
    }
  }

  lemma TextUnique(t: seq<Event>, a: string, b: string)
    requires forall i :: 0 <= i < |t| ==> t[i].Done?
    requires LastText(t, a) && LastText(t, b)
    ensures a == b
  {
  }

  /** The test ended in failure, and this is its text. */
  predicate FailedWith(es: seq<Event>, id: Id, text: string)
  {
    var t := Finishes(es, id);
    t != [] && !t[|t| - 1].ok && LastText(t, text)
  }

  /** The same, as the state has it. */
  predicate EndsFailed(st: State, id: Id, text: string)
  {
    id in st.finals && !st.finals[id].ok && text == TextOf(st, id)
  }

  lemma FailedWithMeans(es: seq<Event>, id: Id, text: string)
    ensures FailedWith(es, id, text) <==> EndsFailed(Fold(es), id, text)
  {
    FinalIsLast(es, id);
    TextIsLast(es, id);
    if FailedWith(es, id, text) {
      TextUnique(Finishes(es, id), text, TextOf(Fold(es), id));
    }
  }

  lemma FailuresAre(st: State, order: seq<Id>, name: string, text: string)
    requires Visits(order, st.finals.Keys) && forall id :: id in order ==> id in st.finals
    ensures (name, text) in FailedTo(st, order, |order|) <==>
      exists id: Id :: id.name == name && EndsFailed(st, id, text)
  {
    FailuresListed(st, order, |order|);
    InOrder(order, st.finals.Keys);
    if (name, text) in FailedTo(st, order, |order|) {
      var i :| 0 <= i < |order| && !st.finals[order[i]].ok && (name, text) == (order[i].name, TextOf(st, order[i]));
      assert EndsFailed(st, order[i], text);
    }
    if id: Id :| id.name == name && EndsFailed(st, id, text) {
      var i :| 0 <= i < |order| && order[i] == id;
      assert (name, text) == (order[i].name, TextOf(st, order[i]));
    }
  }

  /** An accepted run lists exactly the tests whose last finish failed, each with the
      output of the last of its finishes that carried one, and as many as failed. */
  lemma RunFailures(es: seq<Event>, suiteOrder: seq<string>, testOrder: seq<Id>, name: string, text: string)
    requires Visits(suiteOrder, Fold(es).suites.Keys) && Visits(testOrder, Fold(es).finals.Keys)
    requires Parse(es, suiteOrder, testOrder).Some?
    ensures var run := Parse(es, suiteOrder, testOrder).value;
      && |run.failures| == run.failed
      && ((name, text) in run.failures <==> exists id: Id :: id.name == name && FailedWith(es, id, text))
  {
    var st := Fold(es);
    InOrder(testOrder, st.finals.Keys);
    CountWhole(st, testOrder, false);
    FailuresListed(st, testOrder, |testOrder|);
    FailuresAre(st, testOrder, name, text);
    forall id: Id ensures FailedWith(es, id, text) <==> EndsFailed(st, id, text) {
      FailedWithMeans(es, id, text);
    }
  }

  // ---- order ----

  predicate Increasing(ix: seq<nat>, n: nat)
  {
    (forall i, j :: 0 <= i < j < |ix| ==> ix[i] < ix[j]) && (forall i :: 0 <= i < |ix| ==> ix[i] < n)
  }

  /** The flaky tests and the failures are listed in the order of the tests. */
  lemma {:induction false} ListedInOrder(st: State, order: seq<Id>, n: nat) returns (flaky: seq<nat>, failed: seq<nat>)
    requires n <= |order| && forall id :: id in order ==> id in st.finals
    ensures Increasing(flaky, n) && Increasing(failed, n)
    ensures |FlakyTo(st, order, n)| == |flaky| && |FailedTo(st, order, n)| == |failed|
    ensures forall k :: 0 <= k < |flaky| ==>
      FlakyTo(st, order, n)[k] == (order[flaky[k]].name, Max(st.finals[order[flaky[k]]].attempt, 1))
    ensures forall k :: 0 <= k < |failed| ==>
      FailedTo(st, order, n)[k] == (order[failed[k]].name, TextOf(st, order[failed[k]]))
  {
    flaky, failed := [], [];
    if n != 0 {
      flaky, failed := ListedInOrder(st, order, n - 1);
      if Flaky(st, order[n - 1]) {
        flaky := flaky + [n - 1];
      }
      if !st.finals[order[n - 1]].ok {
        failed := failed + [n - 1];
      }
    }
  }
}
