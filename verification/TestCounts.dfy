/** Accounting for one counted test run: the execution log, batch retries of the
    tests that failed, and agreement with the discovery listings. */
module TestCounts {
  import opened Words
  import opened Lists

  datatype ExecutionCounts = ExecutionCounts(executed: u64, passed: u64, ignored: u64, failed: u64)

  datatype DiscoveryCounts = DiscoveryCounts(selected: u64, ignored: u64)

  datatype Published = Published(executed: u64, passed: u64, filtered: u64)

  datatype Result<T> = Ok(value: T) | Err

  const MAX_LEDGER: int := 0x7fff_ffff_ffff_ffff

  // ---- the execution log ----

  /** The outcome word of a line; Unknown is any other word. */
  datatype Outcome = Passed | Failed | Ignored | Unknown

  datatype LogLine = LogLine(outcome: Outcome, name: string)

  /** How many of the first n lines have this outcome. */
  function CountTo(log: seq<LogLine>, n: nat, outcome: Outcome): nat
    requires n <= |log|
  {
    if n == 0 then 0 else CountTo(log, n - 1, outcome) + (if log[n - 1].outcome == outcome then 1 else 0)
  }

  function CountOf(log: seq<LogLine>, outcome: Outcome): nat { CountTo(log, |log|, outcome) }

  /** The names of the tests that failed in the first n lines, one per failure. */
  function FailedTo(log: seq<LogLine>, n: nat): (r: seq<string>)
    requires n <= |log|
    ensures |r| == CountTo(log, n, Failed)
  {
    if n == 0 then [] else FailedTo(log, n - 1) + (if log[n - 1].outcome == Failed then [log[n - 1].name] else [])
  }

  function FailedNames(log: seq<LogLine>): (r: seq<string>)
    ensures |r| == CountOf(log, Failed)
  {
    FailedTo(log, |log|)
  }

  /** What the counters stand for after n lines: every line is one of the three. */
  predicate TalliesTo(c: ExecutionCounts, log: seq<LogLine>, n: nat)
    requires n <= |log|
  {
    && c.passed == CountTo(log, n, Passed) && c.failed == CountTo(log, n, Failed)
    && c.ignored == CountTo(log, n, Ignored)
    && c.executed == c.passed + c.failed && c.executed + c.ignored == n
  }

  predicate Tallies(c: ExecutionCounts, log: seq<LogLine>) { TalliesTo(c, log, |log|) }

  /** One record moves its counters; an unknown outcome or an overflow is refused. */
  function CountRecord(c: ExecutionCounts, outcome: Outcome): Result<ExecutionCounts>
  {
    match outcome
    case Passed =>
      if c.executed == MAX64 || c.passed == MAX64 then Err
      else Ok(ExecutionCounts(c.executed + 1, c.passed + 1, c.ignored, c.failed))
    case Failed =>
      if c.executed == MAX64 || c.failed == MAX64 then Err
      else Ok(ExecutionCounts(c.executed + 1, c.passed, c.ignored, c.failed + 1))
    case Ignored =>
      if c.ignored == MAX64 then Err
      else Ok(ExecutionCounts(c.executed, c.passed, c.ignored + 1, c.failed))
    case Unknown => Err
  }

  /** Line i has an unknown outcome, or the counter it would move is full. */
  predicate Refuses(log: seq<LogLine>, i: nat)
    requires i < |log|
  {
    match log[i].outcome
    case Unknown => true
    case Ignored => CountTo(log, i, Ignored) == MAX64
    case _ => CountTo(log, i, Passed) + CountTo(log, i, Failed) == MAX64
  }

  lemma TallyNext(c: ExecutionCounts, log: seq<LogLine>, i: nat)
    requires i < |log| && TalliesTo(c, log, i)
    ensures var r := CountRecord(c, log[i].outcome);
      (r.Ok? ==> TalliesTo(r.value, log, i + 1)) && (r.Err? <==> Refuses(log, i))
  {
  }

  predicate FirstRefused(log: seq<LogLine>, i: nat)
    requires i < |log|
  {
    Refuses(log, i) && forall k :: 0 <= k < i ==> !Refuses(log, k)
  }

  /** Read the log: the counters tally it, and the failed names are kept. */
  method CountLog(log: seq<LogLine>) returns (r: Result<ExecutionCounts>, failed: seq<string>)
    ensures r.Ok? ==> Tallies(r.value, log) && failed == FailedNames(log)
    ensures r.Ok? ==> forall i :: 0 <= i < |log| ==> !Refuses(log, i)
    ensures r.Err? ==> exists i :: 0 <= i < |log| && FirstRefused(log, i)
  {
    var c := ExecutionCounts(0, 0, 0, 0);
    failed := [];
    for i := 0 to |log|
      invariant TalliesTo(c, log, i)
      invariant failed == FailedTo(log, i)
      invariant forall k :: 0 <= k < i ==> !Refuses(log, k)
    {
      TallyNext(c, log, i);
      r := CountRecord(c, log[i].outcome);
      if r.Err? {
        assert FirstRefused(log, i);
        return;
      }
      c := r.value;
      if log[i].outcome == Failed { failed := failed + [log[i].name]; }
    }
    r := Ok(c);
  }

  // ---- retries ----

  predicate HasSpace(name: string) { ' ' in name }

  /** Unicode white space, as `trim` knows it. */
  predicate White(c: char)
  {
    var n := c as int;
    || 0x9 <= n <= 0xd || n == 0x20 || n == 0x85 || n == 0xa0 || n == 0x1680 || 0x2000 <= n <= 0x200a
    || n == 0x2028 || n == 0x2029 || n == 0x202f || n == 0x205f || n == 0x3000
  }

  function TrimStart(s: string): (r: string)
    ensures r == [] || !White(r[0])
  {
    if s == [] || !White(s[0]) then s else TrimStart(s[1..])
  }

  function TrimEnd(s: string): (r: string)
    ensures r <= s && (r == [] || !White(r[|r| - 1]))
  {
    if s == [] || !White(s[|s| - 1]) then s else TrimEnd(s[..|s| - 1])
  }

  function Trim(s: string): string { TrimEnd(TrimStart(s)) }

  /** A printed result line `test NAME ... ok`, white space around it aside. */
  function PassedName(printed: string): Option<string>
  {
    var line := Trim(printed);
    if |line| >= 12 && line[..5] == "test " && line[|line| - 7..] == " ... ok"
    then Some(line[5..|line| - 7]) else None
  }

  /** Some line says the test passed. */
  predicate Reported(lines: seq<string>, name: string)
  {
    exists i :: 0 <= i < |lines| && PassedName(lines[i]) == Some(name)
  }

  lemma ReportedSnoc(lines: seq<string>)
    requires lines != []
    ensures forall n :: Reported(lines, n) <==>
      Reported(lines[..|lines| - 1], n) || PassedName(lines[|lines| - 1]) == Some(n)
  {
    var init := lines[..|lines| - 1];
    forall n ensures Reported(lines, n) <==> Reported(init, n) || PassedName(lines[|lines| - 1]) == Some(n) {
      if Reported(init, n) {
        var i :| 0 <= i < |init| && PassedName(init[i]) == Some(n);
        assert lines[i] == init[i];
      }
      if Reported(lines, n) {
        var i :| 0 <= i < |lines| && PassedName(lines[i]) == Some(n);
        assert i < |init| ==> init[i] == lines[i];
      }
    }
  }

  /** The names a batch reports as passed: asked for, free of spaces, once each. */
  function BatchPassed(lines: seq<string>, failed: seq<string>): (r: seq<string>)
    ensures forall n :: n in r <==> n in failed && !HasSpace(n) && Reported(lines, n)
    ensures forall i, j :: 0 <= i < j < |r| ==> r[i] != r[j]
  {
    if lines == [] then []
    else
      var before := BatchPassed(lines[..|lines| - 1], failed);
      ReportedSnoc(lines);
      var n := PassedName(lines[|lines| - 1]);
      if n.Some? && n.value in failed && !HasSpace(n.value) && n.value !in before
      then before + [n.value] else before
  }

  function Without(failed: seq<string>, passed: seq<string>): (r: seq<string>)
    ensures forall n :: n in r <==> n in failed && n !in passed
  {
    if failed == [] then []
    else
      var init, last := failed[..|failed| - 1], failed[|failed| - 1];
      assert failed == init + [last];
      Without(init, passed) + (if last in passed then [] else [last])
  }

  function SaturatingSub(a: u64, b: u64): u64 { if a < b then 0 else a - b }
  function SaturatingAdd(a: u64, b: u64): u64 { if a + b > MAX64 then MAX64 else a + b }

  /** The counters after n names passed on retry, one at a time. */
  function Credit(c: ExecutionCounts, n: nat): ExecutionCounts
  {
    if n == 0 then c
    else
      var d := Credit(c, n - 1);
      d.(failed := SaturatingSub(d.failed, 1), passed := SaturatingAdd(d.passed, 1))
  }

  datatype Run = Run(counts: ExecutionCounts, failed: seq<string>, code: int)

  function Retry(run: Run, lines: seq<string>): Run
  {
    var passed := BatchPassed(lines, run.failed);
    var left := Without(run.failed, passed);
    Run(Credit(run.counts, |passed|), left, if left == [] then 0 else run.code)
  }

  /** Batches stop once nothing is left to retry. */
  function Retries(run: Run, batches: seq<seq<string>>): Run
    decreases |batches|
  {
    if batches == [] || run.failed == [] then run
    else Retries(Retry(run, batches[0]), batches[1..])
  }

  /** A run's books: every executed test is passed or failed, and there are at
      least as many failures on the counter as names left to retry. */
  predicate Balanced(run: Run)
  {
    run.counts.passed + run.counts.failed == run.counts.executed && |run.failed| <= run.counts.failed
  }

  lemma {:induction false} CreditExact(c: ExecutionCounts, n: nat)
    requires n <= c.failed && c.passed + c.failed == c.executed
    ensures Credit(c, n) == c.(failed := c.failed - n, passed := c.passed + n)
  {
    if n > 0 {
      CreditExact(c, n - 1);
    }
  }

  /** Distinct names taken from a list: removing all their occurrences removes
      at least one each. */
  lemma {:induction false} WithoutShrinks(failed: seq<string>, passed: seq<string>)
    requires forall n :: n in passed ==> n in failed
    requires forall i, j :: 0 <= i < j < |passed| ==> passed[i] != passed[j]
    ensures |Without(failed, passed)| + |passed| <= |failed|
  {
    if failed == [] {
      assert passed != [] ==> passed[0] in passed;
    } else {
      var init, last := failed[..|failed| - 1], failed[|failed| - 1];
      assert failed == init + [last];
      if last in passed {
        var k :| 0 <= k < |passed| && passed[k] == last;
        if last in init {
          WithoutShrinks(init, passed);
        } else {
          var rest := passed[..k] + passed[k + 1..];
          assert forall n :: n in rest ==> n in passed && n != last;
          WithoutShrinks(init, rest);
          WithoutSame(init, passed, rest, last);
        }
      } else {
        assert forall n :: n in passed ==> n in init;
        WithoutShrinks(init, passed);
      }
    }
  }

  lemma {:induction false} WithoutSame(s: seq<string>, p: seq<string>, q: seq<string>, x: string)
    requires x !in s && forall n :: n != x ==> (n in p <==> n in q)
    ensures Without(s, p) == Without(s, q)
  {
    if s != [] {
      var init, last := s[..|s| - 1], s[|s| - 1];
      assert s == init + [last];
      WithoutSame(init, p, q, x);
    }
  }

  /** One batch keeps the books balanced, and no counter saturates. */
  lemma RetryBalanced(run: Run, lines: seq<string>)
    requires Balanced(run)
    ensures var n, r := |BatchPassed(lines, run.failed)|, Retry(run, lines);
      && Balanced(r) && n <= run.counts.failed
      && r.counts == run.counts.(failed := run.counts.failed - n, passed := run.counts.passed + n)
  {
    var passed := BatchPassed(lines, run.failed);
    WithoutShrinks(run.failed, passed);
    CreditExact(run.counts, |passed|);
  }

  /** The retry loop: at most |batches| attempts, counters updated name by name. The
      flaky total is what left the failed counter. */
  method RetryLoop(run: Run, batches: seq<seq<string>>) returns (r: Run, flaky: nat)
    ensures r == Retries(run, batches)
    ensures Balanced(run) ==> flaky == run.counts.failed - r.counts.failed
  {
    r, flaky := run, 0;
    for attempt := 0 to |batches|
      invariant Retries(run, batches) == Retries(r, batches[attempt..])
      invariant Balanced(run) ==> Balanced(r) && flaky == run.counts.failed - r.counts.failed
    {
      if r.failed == [] { break; }
      var passed := BatchPassed(batches[attempt], r.failed);
      if Balanced(r) {
        RetryBalanced(r, batches[attempt]);
      }
      flaky := flaky + |passed|;
      var c := r.counts;
      for i := 0 to |passed|
        invariant c == Credit(r.counts, i)
      {
        c := c.(failed := SaturatingSub(c.failed, 1), passed := SaturatingAdd(c.passed, 1));
      }
      var left := Without(r.failed, passed);
      assert batches[attempt..][1..] == batches[attempt + 1..];
      r := Run(c, left, if left == [] then 0 else r.code);
    }
  }

  /** Retries conserve tests: through any batches the executed count is fixed and
      every executed test is counted as passed or failed. */
  lemma {:induction false} RetriesConserve(run: Run, batches: seq<seq<string>>)
    requires Balanced(run)
    ensures var r := Retries(run, batches);
      Balanced(r) && r.counts.executed == run.counts.executed && r.counts.ignored == run.counts.ignored
    decreases |batches|
  {
    if batches != [] && run.failed != [] {
      RetryBalanced(run, batches[0]);
      RetriesConserve(Retry(run, batches[0]), batches[1..]);
    }
  }

  // ---- names that fail in several binaries ----

  /** Each distinct name that passes is credited once, however often it failed:
      what stays on the counter beyond the remaining names is fixed. */
  lemma {:induction false} RetriesCredit(run: Run, batches: seq<seq<string>>)
    requires Balanced(run)
    ensures var r := Retries(run, batches);
      r.counts.failed - |Distinct(r.failed)| == run.counts.failed - |Distinct(run.failed)|
    decreases |batches|
  {
    if batches != [] && run.failed != [] {
      var passed := BatchPassed(batches[0], run.failed);
      var next := Retry(run, batches[0]);
      RetryBalanced(run, batches[0]);
      RetriesCredit(next, batches[1..]);
      assert Distinct(next.failed) == Distinct(run.failed) - Distinct(passed);
      DistinctExact(passed);
      assert Distinct(passed) <= Distinct(run.failed);
    }
  }

  /** When retries clear every failed name, failures stay on the counter exactly
      when some name had failed more than once. */
  lemma ClearedExactly(run: Run, batches: seq<seq<string>>)
    requires Balanced(run) && run.counts.failed == |run.failed|
    requires Retries(run, batches).failed == []
    ensures Retries(run, batches).counts.failed == 0 <==> NoDuplicates(run.failed)
  {
    RetriesCredit(run, batches);
    DistinctCount(run.failed);
    assert Distinct<string>([]) == {};
  }

  // ---- publication ----

  function FromChannels(e: ExecutionCounts, selected: DiscoveryCounts, unfiltered: DiscoveryCounts): Result<Published>
  {
    if e.executed + e.ignored > MAX64 then Err
    else if e.executed + e.ignored != selected.selected then Err
    else if e.ignored != selected.ignored then Err
    else if e.passed > e.executed then Err
    else if e.passed + e.failed > MAX64 then Err
    else if e.passed + e.failed != e.executed then Err
    else if unfiltered.selected < selected.selected then Err
    else Ok(Published(e.executed, e.passed, unfiltered.selected - selected.selected))
  }

  function Validate(p: Published): Result<Published>
  {
    if p.passed > p.executed || p.executed > MAX_LEDGER || p.passed > MAX_LEDGER || p.filtered > MAX_LEDGER then Err
    else Ok(p)
  }

  /** What follows the retries: a success code needs an empty failure counter,
      and the channels must agree. */
  function Publish(run: Run, selected: DiscoveryCounts, unfiltered: DiscoveryCounts): Result<Published>
  {
    if run.code == 0 && run.counts.failed != 0 then Err
    else
      match FromChannels(run.counts, selected, unfiltered)
      case Err => Err
      case Ok(p) => Validate(p)
  }

  /** The channels agree exactly when the books balance and discovery accounts for
      every test: executed, ignored and filtered tests are all there are. */
  lemma ChannelsAgree(e: ExecutionCounts, selected: DiscoveryCounts, unfiltered: DiscoveryCounts)
    ensures FromChannels(e, selected, unfiltered).Ok? <==>
      && e.passed + e.failed == e.executed && e.executed + e.ignored == selected.selected
      && e.ignored == selected.ignored && selected.selected <= unfiltered.selected
    ensures FromChannels(e, selected, unfiltered).Ok? ==>
      var p := FromChannels(e, selected, unfiltered).value;
      p.executed == e.executed && p.passed == e.passed && p.executed + e.ignored + p.filtered == unfiltered.selected
  {
  }

  /** Every published count of a run: from any log and any retries, the published
      executed, ignored and filtered tests make up the unfiltered listing, the
      executed count is the log's, and a run published with code 0 passed them
      all. */
  lemma PublishedConserves(log: seq<LogLine>, c: ExecutionCounts, code: int, batches: seq<seq<string>>,
                           selected: DiscoveryCounts, unfiltered: DiscoveryCounts)
    requires Tallies(c, log)
    ensures var run := Retries(Run(c, FailedNames(log), code), batches);
      var p := Publish(run, selected, unfiltered);
      p.Ok? ==>
        && p.value.executed == CountOf(log, Passed) + CountOf(log, Failed)
        && p.value.executed + CountOf(log, Ignored) + p.value.filtered == unfiltered.selected
        && p.value.passed + run.counts.failed == p.value.executed
        && (run.code == 0 ==> p.value.passed == p.value.executed)
  {
    var start := Run(c, FailedNames(log), code);
    RetriesConserve(start, batches);
    ChannelsAgree(Retries(start, batches).counts, selected, unfiltered);
  }

  lemma PassedLine(n: string)
    ensures PassedName("test " + n + " ... ok") == Some(n)
  {
    var line := "test " + n + " ... ok";
    assert line[0] == 't' && line[|line| - 1] == 'k';
    assert Trim(line) == line;
    assert line[..5] == "test " && line[|line| - 7..] == " ... ok" && line[5..|line| - 7] == n;
  }

  lemma OneLineBatch(line: string, failed: seq<string>, n: string)
    requires PassedName(line) == Some(n) && n in failed && !HasSpace(n)
    ensures BatchPassed([line], failed) == [n]
  {
    assert [line][..0] == [] && BatchPassed([], failed) == [];
  }

  /** A test that failed in two binaries and passes on retry: both entries leave
      the list, one failure stays on the counter, and the run is refused. */
  lemma DuplicateWitness(n: string)
    requires n != [] && !HasSpace(n)
    ensures var run := Run(ExecutionCounts(2, 0, 0, 2), [n, n], 101);
      var r := Retry(run, ["test " + n + " ... ok"]);
      Balanced(run) && r == Run(ExecutionCounts(2, 1, 0, 1), [], 0)
      && Publish(r, DiscoveryCounts(2, 0), DiscoveryCounts(2, 0)).Err?
  {
    var line, names := "test " + n + " ... ok", [n];
    PassedLine(n);
    OneLineBatch(line, [n, n], n);
    assert [n, n][..1] == names && names[..0] == [];
    assert Without([], [n]) == [] && Without([n], [n]) == [] && Without([n, n], [n]) == [];
    assert Credit(ExecutionCounts(2, 0, 0, 2), 0) == ExecutionCounts(2, 0, 0, 2);
    assert Credit(ExecutionCounts(2, 0, 0, 2), 1) == ExecutionCounts(2, 1, 0, 1);
  }
}
