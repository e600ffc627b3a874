/** What retries and publication come to, said of the log, the printed lines and
    the counters alone. */
module CountMeaning {
  import opened Words
  import opened TestCounts

  // ---- printed lines ----

  predicate AllWhite(s: string) { forall i :: 0 <= i < |s| ==> White(s[i]) }

  lemma {:induction false} TrimStartParts(s: string) returns (a: string)
    ensures s == a + TrimStart(s) && AllWhite(a)
  {
    if s == [] || !White(s[0]) {
      a := [];
    } else {
      var b := TrimStartParts(s[1..]);
      a := [s[0]] + b;
      assert s == [s[0]] + s[1..];
    }
  }

  lemma {:induction false} TrimEndParts(s: string) returns (b: string)
    ensures s == TrimEnd(s) + b && AllWhite(b)
  {
    if s == [] || !White(s[|s| - 1]) {
      b := [];
    } else {
      var c := TrimEndParts(s[..|s| - 1]);
      b := c + [s[|s| - 1]];
      assert s == s[..|s| - 1] + [s[|s| - 1]];
    }
  }

  lemma {:induction false} TrimStartDrops(a: string, m: string)
    requires AllWhite(a) && m != [] && !White(m[0])
    ensures TrimStart(a + m) == m
  {
    if a == [] {
      assert a + m == m;
    } else {
      assert (a + m)[1..] == a[1..] + m;
      TrimStartDrops(a[1..], m);
    }
  }

  lemma {:induction false} TrimEndDrops(m: string, b: string)
    requires AllWhite(b) && m != [] && !White(m[|m| - 1])
    ensures TrimEnd(m + b) == m
  {
    if b == [] {
      assert m + b == m;
    } else {
      assert (m + b)[..|m + b| - 1] == m + b[..|b| - 1];
      TrimEndDrops(m, b[..|b| - 1]);
    }
  }

  /** The result line of a test that passed. */
  function PassLine(name: string): string { "test " + name + " ... ok" }

  /** A line with white space around it that says the test passed. */
  ghost predicate SaysPassed(line: string, name: string)
  {
    exists a: string, b: string :: AllWhite(a) && AllWhite(b) && line == a + PassLine(name) + b
  }

  /** Trimming drops exactly the white space around a text that has none at its ends. */
  lemma TrimDrops(a: string, m: string, b: string)
    requires AllWhite(a) && AllWhite(b) && m != [] && !White(m[0]) && !White(m[|m| - 1])
    ensures Trim(a + m + b) == m
  {
    assert a + m + b == a + (m + b) && (m + b)[0] == m[0];
    TrimStartDrops(a, m + b);
    TrimEndDrops(m, b);
  }

  lemma TrimParts(s: string) returns (a: string, b: string)
    ensures s == a + Trim(s) + b && AllWhite(a) && AllWhite(b)
  {
    a := TrimStartParts(s);
    b := TrimEndParts(TrimStart(s));
    assert a + (Trim(s) + b) == a + Trim(s) + b;
  }

  /** A text is the line of one test at most. */
  lemma PassLineParts(m: string, name: string)
    ensures m == PassLine(name) <==>
      |m| >= 12 && m[..5] == "test " && m[|m| - 7..] == " ... ok" && m[5..|m| - 7] == name
  {
    if |m| >= 12 {
      assert m == m[..5] + m[5..|m| - 7] + m[|m| - 7..];
    }
    if m == PassLine(name) {
      assert m[..5] == "test " && m[|m| - 7..] == " ... ok" && m[5..|m| - 7] == name;
    }
  }

  /** A line is read as a pass of a test exactly when it says so. */
  lemma PassedExactly(line: string, name: string)
    ensures PassedName(line) == Some(name) <==> SaysPassed(line, name)
  {
    if PassedName(line) == Some(name) {
      PassLineParts(Trim(line), name);
      var a, b := TrimParts(line);
    }
    if a: string, b: string :| AllWhite(a) && AllWhite(b) && line == a + PassLine(name) + b {
      var m := PassLine(name);
      assert m[0] == 't' && m[|m| - 1] == 'k';
      TrimDrops(a, m, b);
      PassLineParts(m, name);
    }
  }

  // ---- retries ----

  /** Some batch reports the test as passed. */
  predicate PassesIn(batches: seq<seq<string>>, name: string)
  {
    ' ' !in name && exists k :: 0 <= k < |batches| && Reported(batches[k], name)
  }

  lemma PassesHead(batches: seq<seq<string>>, name: string)
    requires batches != []
    ensures PassesIn(batches, name) <==> ' ' !in name && (Reported(batches[0], name) || PassesIn(batches[1..], name))
  {
    if PassesIn(batches[1..], name) {
      var k :| 0 <= k < |batches[1..]| && Reported(batches[1..][k], name);
      assert Reported(batches[k + 1], name);
    }
    if PassesIn(batches, name) {
      var k :| 0 <= k < |batches| && Reported(batches[k], name);
      assert k > 0 ==> Reported(batches[1..][k - 1], name);
    }
  }

  /** The names that no batch reports as passed, in order and as often as given. */
  function Unpassed(names: seq<string>, batches: seq<seq<string>>): seq<string>
  {
    if names == [] then []
    else if PassesIn(batches, names[0]) then Unpassed(names[1..], batches)
    else [names[0]] + Unpassed(names[1..], batches)
  }

  lemma {:induction false} UnpassedConcat(a: seq<string>, b: seq<string>, batches: seq<seq<string>>)
    ensures Unpassed(a + b, batches) == Unpassed(a, batches) + Unpassed(b, batches)
  {
    if a == [] {
      assert a + b == b;
    } else {
      assert (a + b)[1..] == a[1..] + b;
      UnpassedConcat(a[1..], b, batches);
    }
  }

  lemma UnpassedOne(name: string, batches: seq<seq<string>>)
    ensures Unpassed([name], batches) == if PassesIn(batches, name) then [] else [name]
  {
    assert [name][1..] == [];
  }

  /** Dropping what the first batch passed, and then what the others do, is dropping
      what any of them does. */
  lemma {:induction false} UnpassedNext(names: seq<string>, failed: seq<string>, batches: seq<seq<string>>)
    requires batches != [] && forall n :: n in names ==> n in failed
    ensures Unpassed(Without(names, BatchPassed(batches[0], failed)), batches[1..]) == Unpassed(names, batches)
  {
    if names != [] {
      var init, last := names[..|names| - 1], names[|names| - 1];
      var passed := BatchPassed(batches[0], failed);
      assert names == init + [last];
      UnpassedNext(init, failed, batches);
      UnpassedConcat(init, [last], batches);
      UnpassedOne(last, batches);
      UnpassedConcat(Without(init, passed), if last in passed then [] else [last], batches[1..]);
      UnpassedOne(last, batches[1..]);
      PassesHead(batches, last);
    }
  }

  lemma {:induction false} UnpassedNone(names: seq<string>)
    ensures Unpassed(names, []) == names
  {
    if names != [] {
      UnpassedNone(names[1..]);
    }
  }

  /** The names left after the retries are those that failed and that no batch
      reports as passed, in their order. */
  lemma {:induction false} LeftExactly(run: Run, batches: seq<seq<string>>)
    ensures Retries(run, batches).failed == Unpassed(run.failed, batches)
    decreases |batches|
  {
    if batches == [] {
      UnpassedNone(run.failed);
    } else if run.failed != [] {
      LeftExactly(Retry(run, batches[0]), batches[1..]);
      UnpassedNext(run.failed, run.failed, batches);
    }
  }

  // ---- the log ----

  /** The names of the lines that say failed, in order. */
  function Failures(log: seq<LogLine>): seq<string>
  {
    if log == [] then [] else (if log[0].outcome == Failed then [log[0].name] else []) + Failures(log[1..])
  }

  lemma {:induction false} FailuresSnoc(log: seq<LogLine>, l: LogLine)
    ensures Failures(log + [l]) == Failures(log) + if l.outcome == Failed then [l.name] else []
  {
    if log == [] {
      assert log + [l] == [l] && [l][1..] == [];
    } else {
      var all, rest := log + [l], log[1..];
      assert all[0] == log[0] && all[1..] == rest + [l];
      FailuresSnoc(rest, l);
      var head := if log[0].outcome == Failed then [log[0].name] else [];
      var last := if l.outcome == Failed then [l.name] else [];
      assert Failures(all) == head + (Failures(rest) + last) == head + Failures(rest) + last;
    }
  }

  /** The failed names kept for the retries are those of the failed lines. */
  lemma {:induction false} FailedAre(log: seq<LogLine>, n: nat)
    requires n <= |log|
    ensures FailedTo(log, n) == Failures(log[..n])
  {
    if n > 0 {
      FailedAre(log, n - 1);
      assert log[..n] == log[..n - 1] + [log[n - 1]];
      FailuresSnoc(log[..n - 1], log[n - 1]);
    }
  }

  /** The exit code becomes 0 exactly when there were failed names and none is left;
      otherwise it is the first run's. */
  lemma {:induction false} CodeExactly(run: Run, batches: seq<seq<string>>)
    ensures var r := Retries(run, batches);
      r.code == if run.failed != [] && r.failed == [] then 0 else run.code
    decreases |batches|
  {
    if batches != [] && run.failed != [] {
      CodeExactly(Retry(run, batches[0]), batches[1..]);
    }
  }

  // ---- publication ----

  /** A run is published exactly when a code of 0 comes without failures, every
      executed test is passed or failed, discovery lists what was executed or
      ignored, and the published counts fit the ledger; they are then the run's. */
  lemma PublishExactly(run: Run, selected: DiscoveryCounts, unfiltered: DiscoveryCounts)
    ensures var c := run.counts;
      Publish(run, selected, unfiltered) ==
        if && (run.code == 0 ==> c.failed == 0)
           && c.passed + c.failed == c.executed && c.executed + c.ignored == selected.selected
           && c.ignored == selected.ignored && selected.selected <= unfiltered.selected
           && c.executed < 0x8000_0000_0000_0000
           && unfiltered.selected - selected.selected < 0x8000_0000_0000_0000
        then Ok(Published(c.executed, c.passed, unfiltered.selected - selected.selected))
        else Err
  {
  }
}
