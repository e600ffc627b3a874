/** Reading a nextest event stream: per-suite tallies, the last outcome of every
    test, and what makes a test flaky. Suites report concurrently, so the order
    of events across tests must not matter. */
module Nextest {
  import opened Words

  datatype Id = Id(suite: string, name: string)

  /** The events that matter; a line that does not parse as one is Other, and an
      event with missing or ill-typed fields is Malformed. */
  datatype Event =
    | Started(suite: string, count: nat)
    | Finished(suite: string, passed: nat, failed: nat, ignored: nat)
    | Done(id: Id, attempt: nat, ok: bool, wall: nat, stdout: Option<string>)
    | Malformed
    | Other

  datatype Suite = Suite(selected: nat, ignored: nat, started: nat, finished: nat, tally: nat, finishes: nat)

  datatype Final = Final(attempt: nat, ok: bool, wall: nat)

  datatype State = State(suites: map<string, Suite>, finals: map<Id, Final>, stdout: map<Id, string>,
                         hadFailure: set<Id>, saw: bool)

  const EMPTY_SUITE: Suite := Suite(0, 0, 0, 0, 0, 0)
  const INITIAL: State := State(map[], map[], map[], {}, false)

  function Max(a: nat, b: nat): nat { if a < b then b else a }

  function Entry(suites: map<string, Suite>, key: string): Suite
  {
    if key in suites then suites[key] else EMPTY_SUITE
  }

  /** The suite an event belongs to. */
  function KeyOf(e: Event): Option<string>
  {
    match e
    case Started(k, _) => Some(k)
    case Finished(k, _, _, _) => Some(k)
    case Done(id, _, _, _, _) => Some(id.suite)
    case _ => None
  }

  /** What an event does to its suite's tallies. */
  function Touch(s: Suite, e: Event): Suite
  {
    match e
    case Started(_, n) => s.(started := s.started + 1, selected := Max(s.selected, n))
    case Finished(_, p, f, i) => s.(finished := s.finished + 1, tally := s.tally + p + f, ignored := Max(s.ignored, i))
    case Done(_, _, _, _, _) => s.(finishes := s.finishes + 1)
    case _ => s
  }

  function TouchIn(suites: map<string, Suite>, e: Event): map<string, Suite>
  {
    match KeyOf(e)
    case None => suites
    case Some(k) => suites[k := Touch(Entry(suites, k), e)]
  }

  /** A later finish of a test replaces the earlier one. */
  function FinalsIn(finals: map<Id, Final>, e: Event): map<Id, Final>
  {
    if e.Done? then finals[e.id := Final(e.attempt, e.ok, e.wall)] else finals
  }

  function StdoutIn(stdout: map<Id, string>, e: Event): map<Id, string>
  {
    if e.Done? && e.stdout.Some? then stdout[e.id := e.stdout.value] else stdout
  }

  function FailuresIn(failures: set<Id>, e: Event): set<Id>
  {
    if e.Done? && !e.ok then failures + {e.id} else failures
  }

  function Step(st: State, e: Event): State
  {
    State(TouchIn(st.suites, e), FinalsIn(st.finals, e), StdoutIn(st.stdout, e), FailuresIn(st.hadFailure, e),
          st.saw || KeyOf(e).Some?)
  }

  function Fold(es: seq<Event>): State
  {
    if es == [] then INITIAL else Step(Fold(es[..|es| - 1]), es[|es| - 1])
  }

  /** The reading loop. A malformed event ends it with a refusal; otherwise the
      maps and counters are those of the whole stream. */
  method ReadEvents(es: seq<Event>) returns (r: Option<State>)
    ensures r.Some? <==> Malformed !in es
    ensures r.Some? ==> r.value == Fold(es)
  {
    var st := INITIAL;
    for i := 0 to |es|
      invariant st == Fold(es[..i]) && Malformed !in es[..i]
    {
      assert es[..i + 1][..i] == es[..i] && es[..i + 1] == es[..i] + [es[i]];
      if es[i] == Malformed { return None; }
      st := Step(st, es[i]);
    }
    assert es[..|es|] == es;
    r := Some(st);
  }

  // ---- interleavings ----

  /** Events that may be swapped: not two finishes of the same test. */
  predicate Independent(x: Event, y: Event) { !(x.Done? && y.Done? && x.id == y.id) }

  lemma TouchesCommute(s: Suite, x: Event, y: Event)
    ensures Touch(Touch(s, x), y) == Touch(Touch(s, y), x)
  {
  }

  lemma OtherSuites(suites: map<string, Suite>, x: Event, y: Event, a: string, b: string)
    requires KeyOf(x) == Some(a) && KeyOf(y) == Some(b) && a != b
    ensures TouchIn(TouchIn(suites, x), y) == TouchIn(TouchIn(suites, y), x)
  {
    var s, t := Touch(Entry(suites, a), x), Touch(Entry(suites, b), y);
    assert TouchIn(TouchIn(suites, x), y) == suites[a := s][b := t];
    assert TouchIn(TouchIn(suites, y), x) == suites[b := t][a := s];
  }

  lemma SameSuite(suites: map<string, Suite>, x: Event, y: Event, a: string)
    requires KeyOf(x) == Some(a) && KeyOf(y) == Some(a)
    ensures TouchIn(TouchIn(suites, x), y) == TouchIn(TouchIn(suites, y), x)
  {
    var s := Entry(suites, a);
    TouchesCommute(s, x, y);
    assert TouchIn(TouchIn(suites, x), y) == suites[a := Touch(Touch(s, x), y)];
    assert TouchIn(TouchIn(suites, y), x) == suites[a := Touch(Touch(s, y), x)];
  }

  lemma SuitesCommute(suites: map<string, Suite>, x: Event, y: Event)
    ensures TouchIn(TouchIn(suites, x), y) == TouchIn(TouchIn(suites, y), x)
  {
    if KeyOf(x).Some? && KeyOf(y).Some? {
      if KeyOf(x) == KeyOf(y) {
        SameSuite(suites, x, y, KeyOf(x).value);
      } else {
        OtherSuites(suites, x, y, KeyOf(x).value, KeyOf(y).value);
      }
    }
  }

  lemma StepsCommute(st: State, x: Event, y: Event)
    requires Independent(x, y)
    ensures Step(Step(st, x), y) == Step(Step(st, y), x)
  {
    SuitesCommute(st.suites, x, y);
    FinalsCommute(st.finals, x, y);
    StdoutCommutes(st.stdout, x, y);
    assert FailuresIn(FailuresIn(st.hadFailure, x), y) == FailuresIn(FailuresIn(st.hadFailure, y), x);
  }

  lemma FinalsCommute(finals: map<Id, Final>, x: Event, y: Event)
    requires Independent(x, y)
    ensures FinalsIn(FinalsIn(finals, x), y) == FinalsIn(FinalsIn(finals, y), x)
  {
    assert FinalsIn(FinalsIn(finals, x), y) == FinalsIn(FinalsIn(finals, y), x);
  }

  lemma StdoutCommutes(stdout: map<Id, string>, x: Event, y: Event)
    requires Independent(x, y)
    ensures StdoutIn(StdoutIn(stdout, x), y) == StdoutIn(StdoutIn(stdout, y), x)
  {
    assert StdoutIn(StdoutIn(stdout, x), y) == StdoutIn(StdoutIn(stdout, y), x);
  }

  /** Fold with x moved past independent events. */
  lemma {:induction false} FoldMove(a: seq<Event>, x: Event, b: seq<Event>)
    requires forall y :: y in b ==> Independent(x, y)
    ensures Fold(a + [x] + b) == Step(Fold(a + b), x)
  {
    if b == [] {
      assert a + [x] + b == a + [x] && a + b == a && (a + [x])[..|a|] == a;
    } else {
      var c, y := b[..|b| - 1], b[|b| - 1];
      FoldMove(a, x, c);
      assert (a + [x] + b)[..|a + [x] + b| - 1] == a + [x] + c;
      assert (a + b)[..|a + b| - 1] == a + c;
      StepsCommute(Fold(a + c), x, y);
    }
  }

  /** The finishes of one test, in order. */
  function Finishes(es: seq<Event>, id: Id): (r: seq<Event>)
    ensures forall i :: 0 <= i < |r| ==> r[i].Done? && r[i].id == id
  {
    if es == [] then []
    else
      var e := es[|es| - 1];
      Finishes(es[..|es| - 1], id) + (if e.Done? && e.id == id then [e] else [])
  }

  lemma {:induction false} FinishesConcat(a: seq<Event>, b: seq<Event>, id: Id)
    ensures Finishes(a + b, id) == Finishes(a, id) + Finishes(b, id)
  {
    if b == [] {
      assert a + b == a;
    } else {
      FinishesConcat(a, b[..|b| - 1], id);
      assert (a + b)[..|a + b| - 1] == a + b[..|b| - 1];
    }
  }

  lemma {:induction false} FinishesMembers(es: seq<Event>, id: Id, e: Event)
    ensures e in Finishes(es, id) <==> e in es && e.Done? && e.id == id
  {
    if es != [] {
      FinishesMembers(es[..|es| - 1], id, e);
      assert es == es[..|es| - 1] + [es[|es| - 1]];
    }
  }

  /** The same events, with the finishes of each test in the same order. */
  ghost predicate Interleaves(es: seq<Event>, fs: seq<Event>)
  {
    multiset(es) == multiset(fs) && forall id :: Finishes(es, id) == Finishes(fs, id)
  }

  /** The last position of x. */
  function LastOf(fs: seq<Event>, x: Event): (j: nat)
    requires x in fs
    ensures j < |fs| && fs[j] == x && x !in fs[j + 1..]
  {
    if fs[|fs| - 1] == x then |fs| - 1
    else
      assert fs == fs[..|fs| - 1] + [fs[|fs| - 1]];
      var j := LastOf(fs[..|fs| - 1], x);
      assert fs[j + 1..] == fs[..|fs| - 1][j + 1..] + [fs[|fs| - 1]];
      j
  }

  /** After the last x comes no other finish of the same test, if x is the last
      finish of that test. */
  lemma TailIndependent(fs: seq<Event>, j: nat, x: Event)
    requires j < |fs| && fs[j] == x && x !in fs[j + 1..]
    requires x.Done? ==> Finishes(fs, x.id) != [] && Finishes(fs, x.id)[|Finishes(fs, x.id)| - 1] == x
    ensures forall y :: y in fs[j + 1..] ==> Independent(x, y)
  {
    var a, b := fs[..j + 1], fs[j + 1..];
    assert fs == a + b;
    if x.Done? {
      FinishesConcat(a, b, x.id);
      var t := Finishes(b, x.id);
      if t != [] {
        assert Finishes(fs, x.id)[|Finishes(fs, x.id)| - 1] == t[|t| - 1];
        FinishesMembers(b, x.id, t[|t| - 1]);
      }
      forall y | y in b ensures Independent(x, y) {
        FinishesMembers(b, x.id, y);
      }
    }
  }

  lemma RemoveFinish(init: seq<Event>, a: seq<Event>, b: seq<Event>, x: Event, id: Id)
    requires Finishes(init + [x], id) == Finishes(a + [x] + b, id)
    requires forall y :: y in b ==> Independent(x, y)
    ensures Finishes(init, id) == Finishes(a + b, id)
  {
    FinishesConcat(a + [x], b, id);
    FinishesConcat(a, [x], id);
    FinishesConcat(a, b, id);
    FinishesConcat(init, [x], id);
    FinishesOne(x, id);
    if x.Done? && x.id == id {
      var t := Finishes(b, id);
      if t != [] {
        FinishesMembers(b, id, t[0]);
      }
      assert Finishes(init, id) + [x] == Finishes(a, id) + [x];
      assert Finishes(init, id) == (Finishes(init, id) + [x])[..|Finishes(init, id)|];
      assert Finishes(a, id) == (Finishes(a, id) + [x])[..|Finishes(a, id)|];
      assert Finishes(a, id) + [] == Finishes(a, id);
    } else {
      assert Finishes(init, id) + [] == Finishes(init, id);
      assert Finishes(a, id) + [] == Finishes(a, id);
    }
  }

  lemma RemoveOne<T>(init: seq<T>, a: seq<T>, b: seq<T>, x: T)
    requires multiset(init + [x]) == multiset(a + [x] + b)
    ensures multiset(init) == multiset(a + b)
  {
    assert multiset(init) == multiset(init + [x]) - multiset{x};
    assert multiset(a + b) == multiset(a + [x] + b) - multiset{x};
  }

  /** Taking x out of both streams, at its last place, keeps them interleavings. */
  lemma RemoveLast(init: seq<Event>, a: seq<Event>, b: seq<Event>, x: Event)
    requires Interleaves(init + [x], a + [x] + b)
    requires forall y :: y in b ==> Independent(x, y)
    ensures Interleaves(init, a + b)
  {
    RemoveOne(init, a, b, x);
    forall id ensures Finishes(init, id) == Finishes(a + b, id) {
      RemoveFinish(init, a, b, x, id);
    }
  }

  lemma FinishesOne(x: Event, id: Id)
    ensures Finishes([x], id) == if x.Done? && x.id == id then [x] else []
  {
    assert [x][..0] == [];
  }

  /** Where the last event of one stream sits in the other: only events it may be
      swapped with come after it. */
  lemma Locate(init: seq<Event>, x: Event, fs: seq<Event>) returns (a: seq<Event>, b: seq<Event>)
    requires Interleaves(init + [x], fs)
    ensures fs == a + [x] + b
    ensures forall y :: y in b ==> Independent(x, y)
  {
    assert x in multiset(init + [x]);
    var j := LastOf(fs, x);
    a, b := fs[..j], fs[j + 1..];
    LastFinish(init, x);
    TailIndependent(fs, j, x);
  }

  /** Interleaving does not matter: two streams with the same events, and the
      finishes of each test in the same order, are read into the same state. */
  lemma {:induction false} InterleavingsAgree(es: seq<Event>, fs: seq<Event>)
    requires Interleaves(es, fs)
    ensures Fold(es) == Fold(fs)
    decreases |es|
  {
    if es == [] {
      assert |fs| == |multiset(fs)| == 0;
    } else {
      var x, init := es[|es| - 1], es[..|es| - 1];
      assert es == init + [x];
      var a, b := Locate(init, x, fs);
      RemoveLast(init, a, b, x);
      InterleavingsAgree(init, a + b);
      FoldMove(a, x, b);
    }
  }

  lemma LastFinish(init: seq<Event>, x: Event)
    ensures x.Done? ==> var t := Finishes(init + [x], x.id); t != [] && t[|t| - 1] == x
  {
    assert (init + [x])[..|init|] == init;
  }

  // ---- what the state says about the stream ----

  /** Some finish among t failed. */
  predicate SomeFailed(t: seq<Event>)
  {
    exists i :: 0 <= i < |t| && t[i].Done? && !t[i].ok
  }

  lemma SomeFailedSnoc(t: seq<Event>, e: Event)
    requires e.Done?
    ensures SomeFailed(t + [e]) <==> SomeFailed(t) || !e.ok
  {
    var u := t + [e];
    assert u[|t|] == e;
    if SomeFailed(t) {
      var i :| 0 <= i < |t| && t[i].Done? && !t[i].ok;
      assert u[i] == t[i];
    }
  }

  /** What the state keeps of a test: the attempt, outcome and time of its last
      finish, and whether any of its finishes failed. */
  lemma {:induction false} FinalIsLast(es: seq<Event>, id: Id)
    ensures var st, t := Fold(es), Finishes(es, id);
      && (id in st.finals <==> t != [])
      && (t != [] ==> st.finals[id] == Final(t[|t| - 1].attempt, t[|t| - 1].ok, t[|t| - 1].wall))
      && (id in st.hadFailure <==> SomeFailed(t))
  {
    if es != [] {
      var init, e := es[..|es| - 1], es[|es| - 1];
      FinalIsLast(init, id);
      if e.Done? && e.id == id {
        SomeFailedSnoc(Finishes(init, id), e);
      } else {
        assert Finishes(es, id) == Finishes(init, id);
      }
    }
  }
}
