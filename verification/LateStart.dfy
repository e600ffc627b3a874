/** Comparing a backend's record of a program's system calls with the native
    one, exactly or allowing for a tool that starts after the program does. */
module LateStart {
  import opened Words

  datatype Record = Record(exit: string, threads: seq<seq<string>>)

  datatype Difference =
    | AtCall(thread: nat, index: nat, native: Option<string>, backend: Option<string>)
    | NoAlignedStart(thread: nat, index: nat, backend: Option<string>)
    | ThreadCounts(natives: nat, backends: nat)
    | ExitCodes(nativeExit: string, backendExit: string)

  function Get(s: seq<string>, i: nat): Option<string> { if i < |s| then Some(s[i]) else None }

  // ---- exact comparison ----

  /** The first index at or after i where two threads differ, their end included. */
  function DiffersFrom(a: seq<string>, b: seq<string>, i: nat): (r: Option<nat>)
    requires i <= |a| && i <= |b|
    ensures r.None? ==> a[i..] == b[i..]
    ensures r.Some? ==> i <= r.value <= |a| && r.value <= |b| && a[i..r.value] == b[i..r.value]
    ensures r.Some? ==> Get(a, r.value) != Get(b, r.value)
    decreases |a| - i
  {
    if i == |a| || i == |b| then (if |a| != |b| then Some(i) else None)
    else if a[i] != b[i] then Some(i)
    else DiffersFrom(a, b, i + 1)
  }

  function ThreadsDiffer(native: seq<seq<string>>, backend: seq<seq<string>>, t: nat): Option<Difference>
    requires t <= |native| && t <= |backend|
    decreases |native| - t
  {
    if t == |native| || t == |backend| then None
    else
      match DiffersFrom(native[t], backend[t], 0)
      case Some(i) => Some(AtCall(t, i, Get(native[t], i), Get(backend[t], i)))
      case None => ThreadsDiffer(native, backend, t + 1)
  }

  /** The threads that both have, then the number of threads, then the exit. */
  function Ends(native: Record, backend: Record): Option<Difference>
  {
    if |native.threads| != |backend.threads| then Some(ThreadCounts(|native.threads|, |backend.threads|))
    else if native.exit != backend.exit then Some(ExitCodes(native.exit, backend.exit))
    else None
  }

  function FirstDifference(native: Record, backend: Record): Option<Difference>
  {
    var d := ThreadsDiffer(native.threads, backend.threads, 0);
    if d.Some? then d else Ends(native, backend)
  }

  lemma {:induction false} ThreadsDifferMeaning(native: seq<seq<string>>, backend: seq<seq<string>>, t: nat)
    requires t <= |native| && t <= |backend|
    ensures var d := ThreadsDiffer(native, backend, t);
      d.None? <==> forall k :: t <= k < |native| && k < |backend| ==> native[k] == backend[k]
    ensures var d := ThreadsDiffer(native, backend, t);
      d.Some? ==>
        && d.value.AtCall? && t <= d.value.thread < |native| && d.value.thread < |backend|
        && (forall k :: t <= k < d.value.thread ==> native[k] == backend[k])
        && DiffersFrom(native[d.value.thread], backend[d.value.thread], 0) == Some(d.value.index)
    decreases |native| - t
  {
    if t < |native| && t < |backend| {
      assert native[t][0..] == native[t] && backend[t][0..] == backend[t];
      if DiffersFrom(native[t], backend[t], 0).None? {
        ThreadsDifferMeaning(native, backend, t + 1);
      } else {
        var i := DiffersFrom(native[t], backend[t], 0).value;
        assert native[t] != backend[t] by { assert Get(native[t], i) != Get(backend[t], i); }
      }
    }
  }

  /** No difference is reported exactly when the records are equal. */
  lemma ExactMeaning(native: Record, backend: Record)
    ensures FirstDifference(native, backend).None? <==> native == backend
  {
    ThreadsDifferMeaning(native.threads, backend.threads, 0);
  }

  // ---- alignment ----

  const ALIGNMENT_CALLS: nat := 8

  /** The part of a call before its first '='. */
  function CallName(call: string): (name: string)
    ensures name <= call && '=' !in name
    ensures name == call || call[|name|] == '='
  {
    if call == [] || call[0] == '=' then []
    else [call[0]] + CallName(call[1..])
  }

  /** The names of w calls from j appear at k in the native thread. */
  predicate NamesAt(expected: seq<string>, k: nat, got: seq<string>, j: nat, w: nat)
    requires k + w <= |expected| && j + w <= |got|
  {
    var a, b := expected[k..k + w], got[j..j + w];
    forall o :: 0 <= o < w ==> CallName(a[o]) == CallName(b[o])
  }

  /** The first place at or after k where a run of w names fits. */
  function FindRun(expected: seq<string>, k: nat, got: seq<string>, j: nat, w: nat): (r: Option<nat>)
    requires j + w <= |got|
    ensures r.Some? ==> k <= r.value && r.value + w <= |expected| && NamesAt(expected, r.value, got, j, w)
    ensures forall m :: k <= m < (if r.Some? then r.value else |expected|) && m + w <= |expected| ==>
      !NamesAt(expected, m, got, j, w)
    decreases |expected| - k
  {
    if k + w > |expected| then None
    else if NamesAt(expected, k, got, j, w) then Some(k)
    else FindRun(expected, k + 1, got, j, w)
  }

  /** The longest run of w down to two names that fits, at its first place. */
  function FindLongest(expected: seq<string>, i: nat, got: seq<string>, j: nat, w: nat): Option<nat>
    requires j + w <= |got|
  {
    if w < 2 then None
    else
      match FindRun(expected, i, got, j, w)
      case Some(k) => Some(k)
      case None => FindLongest(expected, i, got, j, w - 1)
  }

  /** The last place from i on where one call of this name stands. */
  function FindLast(expected: seq<string>, i: nat, n: nat, name: string): (r: Option<nat>)
    requires i <= n <= |expected|
    ensures r.Some? ==> i <= r.value < n && CallName(expected[r.value]) == name
    ensures forall m :: (if r.Some? then r.value + 1 else i) <= m < n ==> CallName(expected[m]) != name
    decreases n - i
  {
    if n == i then None
    else if CallName(expected[n - 1]) == name then Some(n - 1)
    else FindLast(expected, i, n - 1, name)
  }

  function Window(got: seq<string>, j: nat): (w: nat)
    requires j <= |got|
    ensures j + w <= |got| && w <= ALIGNMENT_CALLS
  {
    if |got| - j < ALIGNMENT_CALLS then |got| - j else ALIGNMENT_CALLS
  }

  /** Where the native thread resumes, if anywhere. */
  function Align(expected: seq<string>, i: nat, got: seq<string>, j: nat): (r: Option<nat>)
    requires i <= |expected| && j <= |got|
    ensures r.Some? ==> i <= r.value < |expected|
  {
    var run := FindLongest(expected, i, got, j, Window(got, j));
    if run.Some? then LongestPlace(expected, i, got, j, Window(got, j)); run
    else if |got| - j == 1 then FindLast(expected, i, |expected|, CallName(got[j]))
    else None
  }

  /** The search slices the native thread without looking at its length when it
      starts at 0: a window longer than the thread is out of range. */
  predicate SliceFails(expected: seq<string>, i: nat, got: seq<string>, j: nat)
    requires j <= |got|
  {
    i == 0 && Window(got, j) >= 2 && |expected| < Window(got, j)
  }

  lemma {:induction false} LongestPlace(expected: seq<string>, i: nat, got: seq<string>, j: nat, w: nat)
    requires j + w <= |got|
    ensures var r := FindLongest(expected, i, got, j, w);
      r.Some? ==> i <= r.value < |expected|
  {
    if w >= 2 && FindRun(expected, i, got, j, w).None? {
      LongestPlace(expected, i, got, j, w - 1);
    }
  }

  /** The alignment is the best one: no longer run of names fits anywhere at or
      after i, and this one fits nowhere earlier. */
  lemma {:induction false} AlignBest(expected: seq<string>, i: nat, got: seq<string>, j: nat, w: nat) returns (v: nat)
    requires j + w <= |got| && FindLongest(expected, i, got, j, w).Some?
    ensures 2 <= v <= w
    ensures var k := FindLongest(expected, i, got, j, w).value;
      && k + v <= |expected| && NamesAt(expected, k, got, j, v)
      && (forall m :: i <= m < k && m + v <= |expected| ==> !NamesAt(expected, m, got, j, v))
      && (forall u, m :: v < u <= w && i <= m && m + u <= |expected| ==> !NamesAt(expected, m, got, j, u))
  {
    if FindRun(expected, i, got, j, w).Some? {
      v := w;
    } else {
      v := AlignBest(expected, i, got, j, w - 1);
    }
  }

  // ---- late-start comparison ----

  datatype Verdict = Same | Differs(difference: Difference) | Panics

  /** One thread, from native call i and backend call j. */
  function LateThread(expected: seq<string>, got: seq<string>, t: nat, i: nat, j: nat, align: bool): Verdict
    requires i <= |expected| && j <= |got|
    decreases |got| - j
  {
    if align && SliceFails(expected, i, got, j) then Panics
    else
      var found := if align then Align(expected, i, got, j) else Some(i);
      if found.None? && j < |got| then Differs(NoAlignedStart(t, i, Get(got, j)))
      else
        var k := if found.Some? then found.value else i;
        if k == |expected| && j == |got| then Same
        else if k < |expected| && j < |got| && expected[k] == got[j] then
          LateThread(expected, got, t, k + 1, j + 1, expected[k] == "execve=ok")
        else Differs(AtCall(t, k, Get(expected, k), Get(got, j)))
  }

  function LateThreads(native: seq<seq<string>>, backend: seq<seq<string>>, t: nat): Verdict
    requires t <= |native| && t <= |backend|
    decreases |native| - t
  {
    if t == |native| || t == |backend| then Same
    else
      var v := LateThread(native[t], backend[t], t, 0, 0, t == 0);
      if v.Same? then LateThreads(native, backend, t + 1) else v
  }

  function LateDifference(native: Record, backend: Record): Verdict
  {
    var v := LateThreads(native.threads, backend.threads, 0);
    if !v.Same? then v
    else match Ends(native, backend) case None => Same case Some(d) => Differs(d)
  }

  /** The comparison as it runs: two cursors and the align flag per thread. */
  method CompareThread(expected: seq<string>, got: seq<string>, t: nat) returns (v: Verdict)
    ensures v == LateThread(expected, got, t, 0, 0, t == 0)
  {
    var i, j := 0, 0;
    var align := t == 0;
    while true
      invariant i <= |expected| && j <= |got|
      invariant LateThread(expected, got, t, 0, 0, t == 0) == LateThread(expected, got, t, i, j, align)
      decreases |got| - j
    {
      if align {
        if SliceFails(expected, i, got, j) { return Panics; }
        match Align(expected, i, got, j) {
          case Some(k) => i := k;
          case None => if j < |got| { return Differs(NoAlignedStart(t, i, Get(got, j))); }
        }
      }
      if i == |expected| && j == |got| { return Same; }
      if i < |expected| && j < |got| && expected[i] == got[j] {
        align := expected[i] == "execve=ok";
        i, j := i + 1, j + 1;
      } else {
        return Differs(AtCall(t, i, Get(expected, i), Get(got, j)));
      }
    }
  }

  /** All threads in order, then the counts and the exit codes. */
  method CompareLate(native: Record, backend: Record) returns (v: Verdict)
    ensures v == LateDifference(native, backend)
  {
    var n := if |native.threads| < |backend.threads| then |native.threads| else |backend.threads|;
    for t := 0 to n
      invariant LateThreads(native.threads, backend.threads, 0) == LateThreads(native.threads, backend.threads, t)
    {
      v := CompareThread(native.threads[t], backend.threads[t], t);
      if !v.Same? { return; }
    }
    v := match Ends(native, backend) case None => Same case Some(d) => Differs(d);
  }

  // ---- what a verdict means ----

  /** The backend's calls are the native ones with contiguous blocks dropped only
      where it may skip: at the start if `may`, and right after each matched
      successful execve. Both end together. */
  ghost predicate Embeds(expected: seq<string>, got: seq<string>, may: bool)
    decreases |got|
  {
    if got == [] then expected == []
    else exists k :: 0 <= k < |expected| && EmbedsAt(expected, k, got, may)
  }

  ghost predicate EmbedsAt(expected: seq<string>, k: nat, got: seq<string>, may: bool)
    requires k < |expected| && got != []
    decreases |got|, 0
  {
    (k > 0 ==> may) && expected[k] == got[0] && Embeds(expected[k + 1..], got[1..], got[0] == "execve=ok")
  }

  lemma {:induction false} ThreadSound(expected: seq<string>, got: seq<string>, t: nat, i: nat, j: nat, align: bool)
    requires i <= |expected| && j <= |got| && LateThread(expected, got, t, i, j, align).Same?
    ensures Embeds(expected[i..], got[j..], align)
    decreases |got| - j
  {
    var found := if align then Align(expected, i, got, j) else Some(i);
    var k := if found.Some? then found.value else i;
    if j < |got| {
      ThreadSound(expected, got, t, k + 1, j + 1, expected[k] == "execve=ok");
      var e, g := expected[i..], got[j..];
      assert e[k - i] == g[0] && e[k - i + 1..] == expected[k + 1..] && g[1..] == got[j + 1..];
      assert EmbedsAt(e, k - i, g, align);
    } else if found.Some? {
      NothingLeft(expected, i, got, j, align);
    }
  }

  /** With no backend call left there is nothing to align. */
  lemma NothingLeft(expected: seq<string>, i: nat, got: seq<string>, j: nat, align: bool)
    requires i <= |expected| && j == |got|
    ensures Align(expected, i, got, j) == None
  {
  }

  lemma {:induction false} ThreadsSound(native: seq<seq<string>>, backend: seq<seq<string>>, t: nat, u: nat)
    requires t <= u < |native| && u < |backend| && LateThreads(native, backend, t).Same?
    ensures Embeds(native[u], backend[u], u == 0)
    decreases u - t
  {
    if t == u {
      ThreadSound(native[t], backend[t], t, 0, 0, t == 0);
      assert native[t][0..] == native[t] && backend[t][0..] == backend[t];
    } else {
      ThreadsSound(native, backend, t + 1, u);
    }
  }

  /** Soundness: when the comparison finds no difference, the records have the
      same exit and thread count, and every backend thread is the native one with
      calls dropped only at the start of the first thread or right after a matched
      successful execve. */
  lemma LateSound(native: Record, backend: Record)
    requires LateDifference(native, backend).Same?
    ensures native.exit == backend.exit && |native.threads| == |backend.threads|
    ensures forall u :: 0 <= u < |native.threads| ==> Embeds(native.threads[u], backend.threads[u], u == 0)
  {
    forall u | 0 <= u < |native.threads| ensures Embeds(native.threads[u], backend.threads[u], u == 0) {
      ThreadsSound(native.threads, backend.threads, 0, u);
    }
  }

  /** A reported call is a real difference: the native call at that index, or its
      end, against a different backend call at some later cursor, or its end. */
  lemma {:induction false} DifferenceIsReal(expected: seq<string>, got: seq<string>, t: nat, i: nat, j: nat,
                                            align: bool)
    returns (at: nat)
    requires i <= |expected| && j <= |got|
    ensures var v := LateThread(expected, got, t, i, j, align);
      v.Differs? && v.difference.AtCall? ==>
        && v.difference.thread == t && v.difference.native == Get(expected, v.difference.index)
        && v.difference.native != v.difference.backend
        && i <= v.difference.index <= |expected| && j <= at <= |got| && v.difference.backend == Get(got, at)
    decreases |got| - j
  {
    at := j;
    var found := if align then Align(expected, i, got, j) else Some(i);
    var k := if found.Some? then found.value else i;
    if k < |expected| && j < |got| && expected[k] == got[j] {
      at := DifferenceIsReal(expected, got, t, k + 1, j + 1, expected[k] == "execve=ok");
    }
  }

  /** On identical remainders the alignment stays where it is. */
  lemma AlignStays(s: seq<string>, i: nat)
    requires i < |s|
    ensures Align(s, i, s, i) == Some(i) && !SliceFails(s, i, s, i)
  {
    var w := Window(s, i);
    if w >= 2 {
      assert NamesAt(s, i, s, i, w);
      assert FindRun(s, i, s, i, w) == Some(i);
    }
  }

  lemma {:induction false} ThreadRelaxes(s: seq<string>, t: nat, i: nat, align: bool)
    requires i <= |s|
    ensures LateThread(s, s, t, i, i, align).Same?
    decreases |s| - i
  {
    if i < |s| {
      AlignStays(s, i);
      ThreadRelaxes(s, t, i + 1, s[i] == "execve=ok");
    } else {
      NothingLeft(s, i, s, i, align);
    }
  }

  lemma {:induction false} ThreadsRelax(s: seq<seq<string>>, t: nat)
    requires t <= |s|
    ensures LateThreads(s, s, t).Same?
    decreases |s| - t
  {
    if t < |s| {
      ThreadRelaxes(s[t], t, 0, t == 0);
      ThreadsRelax(s, t + 1);
    }
  }

  /** Relaxation: whatever compares equal exactly compares equal late. */
  lemma LateRelaxes(native: Record, backend: Record)
    requires FirstDifference(native, backend).None?
    ensures LateDifference(native, backend).Same?
  {
    ExactMeaning(native, backend);
    ThreadsRelax(native.threads, 0);
  }

  /** Past the first call of a thread no slice is out of range. */
  lemma {:induction false} LaterNeverPanics(expected: seq<string>, got: seq<string>, t: nat, i: nat, j: nat,
                                            align: bool)
    requires i <= |expected| && j <= |got| && (align ==> !SliceFails(expected, i, got, j))
    ensures !LateThread(expected, got, t, i, j, align).Panics?
    decreases |got| - j
  {
    var found := if align then Align(expected, i, got, j) else Some(i);
    var k := if found.Some? then found.value else i;
    if k < |expected| && j < |got| && expected[k] == got[j] {
      LaterNeverPanics(expected, got, t, k + 1, j + 1, expected[k] == "execve=ok");
    }
  }

  lemma {:induction false} OtherThreadsNeverPanic(native: seq<seq<string>>, backend: seq<seq<string>>, t: nat)
    requires 0 < t <= |native| && t <= |backend|
    ensures !LateThreads(native, backend, t).Panics?
    decreases |native| - t
  {
    if t < |native| && t < |backend| {
      LaterNeverPanics(native[t], backend[t], t, 0, 0, false);
      OtherThreadsNeverPanic(native, backend, t + 1);
    }
  }

  /** The comparison is not total: it panics exactly when the first native thread
      is shorter than the window taken from the first backend thread, which is
      the smaller of eight and that thread's length, and at least two. */
  lemma PanicsExactly(native: Record, backend: Record)
    ensures LateDifference(native, backend).Panics? <==>
      && |native.threads| > 0 && |backend.threads| > 0
      && |backend.threads[0]| >= 2
      && |native.threads[0]| < (if |backend.threads[0]| < 8 then |backend.threads[0]| else 8)
  {
    var n, b := native.threads, backend.threads;
    if |n| > 0 && |b| > 0 {
      if SliceFails(n[0], 0, b[0], 0) {
        assert LateThread(n[0], b[0], 0, 0, 0, true).Panics?;
      } else {
        LaterNeverPanics(n[0], b[0], 0, 0, 0, true);
        OtherThreadsNeverPanic(n, b, 1);
      }
    }
  }

  /** The shortest such pair: one native call against two. */
  lemma PanicWitness()
    ensures LateDifference(Record("0", [["exit_group=ok"]]), Record("0", [["brk=ok", "exit_group=ok"]])).Panics?
  {
    PanicsExactly(Record("0", [["exit_group=ok"]]), Record("0", [["brk=ok", "exit_group=ok"]]));
  }
}
