/** Pairing a quiet control with a work trial, and the matrix of all seven pairs. */
module Matrix {
  import opened Words
  import opened Numbers
  import opened Workload
  import opened Oracle
  import opened Certificate

  datatype Launch = Launch(program: string, arguments: seq<string>, currentDir: string,
                           environment: seq<(string, string)>, policy: seq<byte>)

  /** A captured run: the input it was given (None for a closed stdin), whether its
      capture ran to the end and was cut short, its duration in nanoseconds, how
      much it printed, whether it exited with success, and its report if the output
      parses. */
  datatype Trial = Trial(launch: Launch, input: Option<seq<byte>>, complete: bool, truncated: bool, elapsed: nat,
                         stdout: nat, stderr: nat, success: bool, parsed: Option<Report>)

  const WALL_LIMIT: nat := 120_000_000_000
  const OUTPUT_LIMIT: nat := 16_777_216

  datatype Pair = Pair(fixture: Fixture, launch: Launch, quiet: Report, work: Report)

  datatype Counts = Counts(quiet: nat, work: nat, rows: nat, operations: nat, addresses: nat)

  /** The fields the two reports must share, compared as they were printed. */
  predicate SameEvidence(q: Report, w: Report)
  {
    && q.ownerBase == w.ownerBase && q.tool == w.tool && q.patch == w.patch
    && q.guest == w.guest && q.next == w.next && q.before == w.before && q.after == w.after
    && q.guestLiteral == w.guestLiteral && q.nextLiteral == w.nextLiteral
    && q.guestBytes == w.guestBytes && q.nextBytes == w.nextBytes
    && q.guestHash == w.guestHash && q.nextHash == w.nextHash
  }

  /** The same fields, compared as numbers and bytes. */
  predicate SameValues(q: Report, w: Report)
  {
    && q.ownerBase.value == w.ownerBase.value && q.tool == w.tool && q.patch == w.patch
    && q.guest.value == w.guest.value && q.next.value == w.next.value
    && q.before.value == w.before.value && q.after.value == w.after.value
    && q.guestBytes == w.guestBytes && q.nextBytes == w.nextBytes
    && q.guestHash.value == w.guestHash.value && q.nextHash.value == w.nextHash.value
  }

  predicate Read(h: HexValue) { Hex(h.literal) == Some(h) }

  /** The report's fields came out of the field parsers. */
  predicate Parsed(r: Report)
  {
    && Read(r.ownerBase) && Read(r.guest) && Read(r.next) && Read(r.before) && Read(r.after)
    && Read(r.guestHash) && Read(r.nextHash)
    && PayloadHex(r.guestLiteral, 333) == Some(r.guestBytes) && PayloadHex(r.nextLiteral, 777) == Some(r.nextBytes)
  }

  lemma SameRead(a: HexValue, b: HexValue)
    requires Read(a) && Read(b)
    ensures a == b <==> a.value == b.value
  {
    LiteralsAreNumbers(a.literal, b.literal);
  }

  /** For parsed reports the literal comparison is the numeric one. */
  lemma EvidenceIsNumeric(q: Report, w: Report)
    requires Parsed(q) && Parsed(w)
    ensures SameEvidence(q, w) <==> SameValues(q, w)
  {
    SameRead(q.ownerBase, w.ownerBase);
    SameRead(q.guest, w.guest);
    SameRead(q.next, w.next);
    SameRead(q.before, w.before);
    SameRead(q.after, w.after);
    SameRead(q.guestHash, w.guestHash);
    SameRead(q.nextHash, w.nextHash);
    if q.guestBytes == w.guestBytes {
      PayloadInjective(q.guestLiteral, w.guestLiteral, 333);
    }
    if q.nextBytes == w.nextBytes {
      PayloadInjective(q.nextLiteral, w.nextLiteral, 777);
    }
  }

  /** The parser stamps a report with the key it was asked for. */
  predicate Keyed(t: Trial, mode: Mode, fixture: Fixture)
  {
    t.parsed.Some? ==> t.parsed.value.mode == mode && t.parsed.value.fixture == fixture
  }

  function Selector(c: Fixture): byte
  {
    match c
    case Small => 83
    case Zeroed => 90
    case GrowShrink => 71
    case Overaligned => 79
    case Retained => 82
    case Exhaustion => 69
    case Composition => 65
  }

  /** The two bytes that select a mode and a case. */
  function InputFor(mode: Mode, c: Fixture): seq<byte> { [if mode == Quiet then 81 else 87, Selector(c)] }

  /** The letter of a case: its initial, and A for all of them. */
  function Letter(c: Fixture): char
  {
    match c
    case Small => 'S'
    case Zeroed => 'Z'
    case GrowShrink => 'G'
    case Overaligned => 'O'
    case Retained => 'R'
    case Exhaustion => 'E'
    case Composition => 'A'
  }

  /** The input spells Q or W and the letter of the case. */
  lemma InputSpells(mode: Mode, c: Fixture)
    ensures InputFor(mode, c) == [(if mode == Quiet then 'Q' else 'W') as int, Letter(c) as int]
  {
  }

  /** No two selections share their input. */
  lemma InputsDiffer(m: Mode, c: Fixture, n: Mode, d: Fixture)
    requires InputFor(m, c) == InputFor(n, d)
    ensures m == n && c == d
  {
    assert InputFor(m, c)[0] == InputFor(n, d)[0] && InputFor(m, c)[1] == InputFor(n, d)[1];
  }

  /** The run was given the right input and succeeded within its bounds. */
  predicate Finished(t: Trial, mode: Mode, c: Fixture)
  {
    && t.input == Some(InputFor(mode, c)) && t.complete && !t.truncated && t.elapsed <= WALL_LIMIT
    && t.stdout + t.stderr <= OUTPUT_LIMIT && t.success
  }

  /** What a captured run was given says which mode and case it can be evidence for. */
  lemma InputDetermines(t: Trial, m: Mode, c: Fixture, n: Mode, d: Fixture)
    requires Finished(t, m, c) && Finished(t, n, d)
    ensures m == n && c == d
  {
    InputsDiffer(m, c, n, d);
  }

  ghost predicate Valid(t: Trial, mode: Mode, c: Fixture)
  {
    Finished(t, mode, c) && t.parsed.Some? && Certified(t.parsed.value)
  }

  method ValidateTrial(t: Trial, mode: Mode, c: Fixture) returns (ok: bool)
    ensures ok <==> Valid(t, mode, c)
  {
    if !Finished(t, mode, c) || t.parsed.None? { return false; }
    ok := Validate(t.parsed.value);
  }

  /** What a pair carries once made: two certified reports of the same case, on the
      same launch, with the same addresses and bytes. */
  ghost predicate Sound(p: Pair)
  {
    && p.quiet.mode == Quiet && p.work.mode == Work && p.quiet.fixture == p.work.fixture == p.fixture
    && Certified(p.quiet) && Certified(p.work) && SameEvidence(p.quiet, p.work)
  }

  method ComparePair(quiet: Trial, work: Trial, fixture: Fixture) returns (p: Option<Pair>)
    requires Keyed(quiet, Quiet, fixture) && Keyed(work, Work, fixture)
    ensures p.Some? <==>
      && quiet.launch == work.launch && Valid(quiet, Quiet, fixture) && Valid(work, Work, fixture)
      && SameEvidence(quiet.parsed.value, work.parsed.value)
    ensures p.Some? ==> Sound(p.value)
    ensures p.Some? ==> p.value == Pair(fixture, quiet.launch, quiet.parsed.value, work.parsed.value)
  {
    if quiet.launch != work.launch { return None; }
    var ok := ValidateTrial(quiet, Quiet, fixture);
    if !ok { return None; }
    ok := ValidateTrial(work, Work, fixture);
    if !ok { return None; }
    var q, w := quiet.parsed.value, work.parsed.value;
    if !SameEvidence(q, w) { return None; }
    return Some(Pair(fixture, quiet.launch, q, w));
  }

  /** Whatever the work run has live, at any time, avoids the memory the quiet run
      gave its guest payloads. */
  lemma WorkAvoidsQuiet(p: Pair, n: nat, s: nat, a: int)
    requires Sound(p) && n <= |p.work.operations|
    requires s < 8 && LiveAt(p.work, n, s).Some? && LiveAt(p.work, n, s).value.Covers(a)
    ensures p.quiet.tool.Holds(a) || p.quiet.patch.Holds(a)
    ensures !(p.quiet.guest.value <= a < p.quiet.guest.value + 333)
    ensures !(p.quiet.next.value <= a < p.quiet.next.value + 777)
  {
    AddressesExclusive(p.work, n, s, a);
  }

  // ---- the matrix ----

  function RowsIn(rows: CaseRows, n: nat): nat
    requires n <= 6
  {
    if n == 0 then 0 else RowsIn(rows, n - 1) + if rows[n - 1].executed && rows[n - 1].complete then 1 else 0
  }

  function CaseCount(c: Fixture): nat { if c == Composition then 6 else 1 }

  /** How many of the first n cases a fixture selects. */
  function SelectedIn(c: Fixture, n: nat): nat
    requires n <= 6
  {
    if n == 0 then 0 else SelectedIn(c, n - 1) + if Selected(c, n - 1) then 1 else 0
  }

  lemma {:induction false} RowsSelected(r: Report, n: nat)
    requires n <= 6 && CasesOk(r, 6) && r.mode == Work
    ensures RowsIn(r.cases, n) == SelectedIn(r.fixture, n)
  {
    if n != 0 {
      RowsSelected(r, n - 1);
    }
  }

  lemma SelectedCount(c: Fixture)
    ensures SelectedIn(c, 6) == CaseCount(c)
  {
    assert SelectedIn(c, 1) == if Selected(c, 0) then 1 else 0;
    assert SelectedIn(c, 2) == SelectedIn(c, 1) + if Selected(c, 1) then 1 else 0;
    assert SelectedIn(c, 3) == SelectedIn(c, 2) + if Selected(c, 2) then 1 else 0;
    assert SelectedIn(c, 4) == SelectedIn(c, 3) + if Selected(c, 3) then 1 else 0;
    assert SelectedIn(c, 5) == SelectedIn(c, 4) + if Selected(c, 4) then 1 else 0;
    assert SelectedIn(c, 6) == SelectedIn(c, 5) + if Selected(c, 5) then 1 else 0;
  }

  /** The evidence one sound pair adds. */
  lemma PairCounts(p: Pair)
    requires Sound(p)
    ensures RowsIn(p.work.cases, |p.work.cases|) == CaseCount(p.fixture)
    ensures |p.work.operations| == WorkOperations(p.fixture)
  {
    RowsSelected(p.work, 6);
    SelectedCount(p.fixture);
    PlanDisciplined(p.work);
  }

  /** The right case, on the same launch as the first pair. */
  predicate Placed(pairs: seq<Pair>, i: nat)
    requires i < |pairs| == 7
  {
    pairs[i].fixture == FixedCase(i) && pairs[i].launch == pairs[0].launch
  }

  /** The fixed cases in order, all on one launch. */
  predicate InOrder(pairs: seq<Pair>, n: nat)
    requires n <= |pairs| == 7
  {
    forall i :: 0 <= i < n ==> Placed(pairs, i)
  }

  /** The evidence a pair adds is that of its case. */
  predicate Evidenced(p: Pair)
  {
    RowsIn(p.work.cases, |p.work.cases|) == CaseCount(p.fixture) && |p.work.operations| == WorkOperations(p.fixture)
  }

  function RowSum(pairs: seq<Pair>, n: nat): nat
    requires n <= |pairs|
  {
    if n == 0 then 0 else RowSum(pairs, n - 1) + RowsIn(pairs[n - 1].work.cases, |pairs[n - 1].work.cases|)
  }

  function OperationSum(pairs: seq<Pair>, n: nat): nat
    requires n <= |pairs|
  {
    if n == 0 then 0 else OperationSum(pairs, n - 1) + |pairs[n - 1].work.operations|
  }

  lemma SumNext(pairs: seq<Pair>, n: nat, c: Fixture)
    requires n < |pairs| == 7 && Evidenced(pairs[n]) && Placed(pairs, n) && FixedCase(n) == c
    ensures RowSum(pairs, n + 1) == RowSum(pairs, n) + CaseCount(c)
    ensures OperationSum(pairs, n + 1) == OperationSum(pairs, n) + WorkOperations(c)
  {
  }

  lemma MatrixTotals(pairs: seq<Pair>)
    requires |pairs| == 7 && InOrder(pairs, 7) && forall i :: 0 <= i < 7 ==> Evidenced(pairs[i])
    ensures RowSum(pairs, |pairs|) == 12 && OperationSum(pairs, |pairs|) == 86
  {
    SumNext(pairs, 0, Small);
    SumNext(pairs, 1, Zeroed);
    SumNext(pairs, 2, GrowShrink);
    SumNext(pairs, 3, Overaligned);
    SumNext(pairs, 4, Retained);
    SumNext(pairs, 5, Exhaustion);
    SumNext(pairs, 6, Composition);
  }

  method CountPairs(pairs: seq<Pair>) returns (r: Option<Counts>)
    requires |pairs| == 7
    ensures r == if InOrder(pairs, |pairs|)
                 then Some(Counts(7, 7, RowSum(pairs, |pairs|), OperationSum(pairs, |pairs|), 7)) else None
  {
    var counts := Counts(0, 0, 0, 0, 0);
    for i := 0 to |pairs|
      invariant InOrder(pairs, i)
      invariant counts == Counts(i, i, RowSum(pairs, i), OperationSum(pairs, i), i)
    {
      if !Placed(pairs, i) { return None; }
      counts := Counts(counts.quiet + 1, counts.work + 1,
                       counts.rows + RowsIn(pairs[i].work.cases, |pairs[i].work.cases|),
                       counts.operations + |pairs[i].work.operations|, counts.addresses + 1);
    }
    return Some(counts);
  }

  method CountEvidenced(pairs: seq<Pair>) returns (r: Option<Counts>)
    requires forall i :: 0 <= i < |pairs| ==> Evidenced(pairs[i])
    ensures r.Some? <==> |pairs| == 7 && InOrder(pairs, 7)
    ensures r.Some? ==> r.value == Counts(7, 7, 12, 86, 7)
  {
    if |pairs| != 7 { return None; }
    r := CountPairs(pairs);
    if r.Some? {
      MatrixTotals(pairs);
    }
    if r != Some(Counts(7, 7, 12, 86, 7)) { return None; }
  }

  /** The matrix is accepted exactly when the seven sound pairs are in order on one
      launch, and then it always counts the same evidence: its last check never
      refuses. */
  method ValidateMatrix(pairs: seq<Pair>) returns (r: Option<Counts>)
    requires forall i :: 0 <= i < |pairs| ==> Sound(pairs[i])
    ensures r.Some? <==> |pairs| == 7 && InOrder(pairs, 7)
    ensures r.Some? ==> r.value == Counts(7, 7, 12, 86, 7)
  {
    forall i | 0 <= i < |pairs| ensures Evidenced(pairs[i]) {
      PairCounts(pairs[i]);
    }
    r := CountEvidenced(pairs);
  }
}
