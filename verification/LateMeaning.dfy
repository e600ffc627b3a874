/** What the late-start comparison computes, said of call names and calls alone:
    where it aligns, when it finds no difference, and what it reports. */
module LateMeaning {
  import opened Words
  import opened LateStart

  // ---- where the native thread resumes ----

  /** The next v names of the backend stand at k, which is at or after i. */
  predicate FitsAt(expected: seq<string>, i: nat, got: seq<string>, j: nat, v: nat, k: nat)
  {
    && i <= k && k + v <= |expected| && j + v <= |got|
    && forall m :: k <= m < k + v ==> CallName(expected[m]) == CallName(got[j + (m - k)])
  }

  lemma FitsMeans(expected: seq<string>, i: nat, got: seq<string>, j: nat, v: nat, k: nat)
    ensures FitsAt(expected, i, got, j, v, k) <==>
      i <= k && k + v <= |expected| && j + v <= |got| && NamesAt(expected, k, got, j, v)
  {
    if k + v <= |expected| && j + v <= |got| {
      var a, b := expected[k..k + v], got[j..j + v];
      assert forall o :: 0 <= o < v ==> a[o] == expected[k + o] && b[o] == got[j + o];
      assert forall m :: k <= m < k + v ==> expected[m] == a[m - k] && got[j + (m - k)] == b[m - k];
    }
  }

  ghost predicate FitsAnywhere(expected: seq<string>, i: nat, got: seq<string>, j: nat, v: nat)
  {
    exists k: nat :: FitsAt(expected, i, got, j, v, k)
  }

  /** At least two and at most eight of the calls that are left. */
  predicate Tried(got: seq<string>, j: nat, v: nat) { 2 <= v <= 8 && j + v <= |got| }

  /** The longest run of names that fits anywhere has length v. */
  ghost predicate Longest(expected: seq<string>, i: nat, got: seq<string>, j: nat, v: nat)
  {
    && Tried(got, j, v) && FitsAnywhere(expected, i, got, j, v)
    && forall u: nat :: v < u && Tried(got, j, u) ==> !FitsAnywhere(expected, i, got, j, u)
  }

  /** k is the first place of the longest run. */
  ghost predicate FirstOfLongest(expected: seq<string>, i: nat, got: seq<string>, j: nat, v: nat, k: nat)
  {
    && Longest(expected, i, got, j, v) && FitsAt(expected, i, got, j, v, k)
    && forall m: nat :: m < k ==> !FitsAt(expected, i, got, j, v, m)
  }

  /** One call is left, and k is the last place of its name. */
  predicate LastOfName(expected: seq<string>, i: nat, got: seq<string>, j: nat, k: nat)
  {
    && j + 1 == |got| && i <= k < |expected| && CallName(expected[k]) == CallName(got[j])
    && forall m :: k < m < |expected| ==> CallName(expected[m]) != CallName(got[j])
  }

  /** Where a late backend is placed. */
  ghost predicate Place(expected: seq<string>, i: nat, got: seq<string>, j: nat, k: nat)
  {
    || (exists v: nat :: FirstOfLongest(expected, i, got, j, v, k))
    || LastOfName(expected, i, got, j, k)
  }

  /** The search for the longest run fails exactly when no run fits. */
  lemma {:induction false} NoRun(expected: seq<string>, i: nat, got: seq<string>, j: nat, w: nat)
    requires j + w <= |got| && FindLongest(expected, i, got, j, w).None?
    ensures forall v: nat :: 2 <= v <= w ==> !FitsAnywhere(expected, i, got, j, v)
  {
    if w >= 2 {
      NoRun(expected, i, got, j, w - 1);
      forall k: nat ensures !FitsAt(expected, i, got, j, w, k) {
        FitsMeans(expected, i, got, j, w, k);
      }
    }
  }

  lemma RunIsFirst(expected: seq<string>, i: nat, got: seq<string>, j: nat)
    returns (v: nat)
    requires j <= |got| && FindLongest(expected, i, got, j, Window(got, j)).Some?
    ensures FirstOfLongest(expected, i, got, j, v, FindLongest(expected, i, got, j, Window(got, j)).value)
  {
    var w := Window(got, j);
    v := AlignBest(expected, i, got, j, w);
    var k := FindLongest(expected, i, got, j, w).value;
    LongestPlace(expected, i, got, j, w);
    FitsMeans(expected, i, got, j, v, k);
    forall m: nat | m < k ensures !FitsAt(expected, i, got, j, v, m) {
      FitsMeans(expected, i, got, j, v, m);
    }
    forall u: nat | v < u && Tried(got, j, u) ensures !FitsAnywhere(expected, i, got, j, u) {
      forall m: nat ensures !FitsAt(expected, i, got, j, u, m) {
        FitsMeans(expected, i, got, j, u, m);
      }
    }
  }

  lemma FirstUnique(expected: seq<string>, i: nat, got: seq<string>, j: nat, v: nat, k: nat, u: nat, m: nat)
    requires FirstOfLongest(expected, i, got, j, v, k) && FirstOfLongest(expected, i, got, j, u, m)
    ensures v == u && k == m
  {
  }

  /** The alignment is the place: it is found exactly where there is one. */
  lemma AlignExactly(expected: seq<string>, i: nat, got: seq<string>, j: nat, k: nat)
    requires i <= |expected| && j <= |got|
    ensures Align(expected, i, got, j) == Some(k) <==> Place(expected, i, got, j, k)
  {
    var run := FindLongest(expected, i, got, j, Window(got, j));
    if run.Some? {
      var v := RunIsFirst(expected, i, got, j);
      if u: nat :| FirstOfLongest(expected, i, got, j, u, k) {
        FirstUnique(expected, i, got, j, v, run.value, u, k);
      }
    } else {
      NoRun(expected, i, got, j, Window(got, j));
      assert forall v: nat :: Tried(got, j, v) ==> v <= Window(got, j);
    }
  }

  // ---- when there is no difference ----

  /** The native calls go on at k: at their place if alignment is due, else at i. */
  ghost predicate ResumesAt(expected: seq<string>, got: seq<string>, i: nat, j: nat, align: bool, k: nat)
  {
    if align then Place(expected, i, got, j, k) else k == i
  }

  /** The backend's calls from j are the native ones from i, moved forward to their
      place wherever alignment is due: at the start if `align`, and after each
      matched successful execve. Both end together. */
  ghost predicate Follows(expected: seq<string>, got: seq<string>, i: nat, j: nat, align: bool)
    requires j <= |got|
    decreases |got| - j, 1
  {
    if j == |got| then i == |expected|
    else exists k: nat :: k < |expected| && FollowsAt(expected, got, i, j, align, k)
  }

  ghost predicate FollowsAt(expected: seq<string>, got: seq<string>, i: nat, j: nat, align: bool, k: nat)
    requires j < |got| && k < |expected|
    decreases |got| - j, 0
  {
    && ResumesAt(expected, got, i, j, align, k)
    && expected[k] == got[j] && Follows(expected, got, k + 1, j + 1, got[j] == "execve=ok")
  }

  lemma FoundExactly(expected: seq<string>, got: seq<string>, i: nat, j: nat, align: bool)
    requires i <= |expected| && j <= |got|
    ensures var found := if align then Align(expected, i, got, j) else Some(i);
      forall k: nat :: ResumesAt(expected, got, i, j, align, k) <==> found == Some(k)
  {
    var found := if align then Align(expected, i, got, j) else Some(i);
    forall k: nat ensures ResumesAt(expected, got, i, j, align, k) <==> found == Some(k) {
      AlignExactly(expected, i, got, j, k);
    }
  }

  /** There is only one way to go on. */
  lemma FollowsOnly(expected: seq<string>, got: seq<string>, i: nat, j: nat, align: bool, found: Option<nat>)
    requires j < |got| && forall k: nat :: ResumesAt(expected, got, i, j, align, k) <==> found == Some(k)
    ensures Follows(expected, got, i, j, align) <==>
      && found.Some? && found.value < |expected| && expected[found.value] == got[j]
      && Follows(expected, got, found.value + 1, j + 1, got[j] == "execve=ok")
  {
    if found.Some? && found.value < |expected| {
      assert ResumesAt(expected, got, i, j, align, found.value);
      assert Follows(expected, got, i, j, align) <==> FollowsAt(expected, got, i, j, align, found.value);
    }
  }

  lemma FollowsStep(expected: seq<string>, got: seq<string>, i: nat, j: nat, align: bool, found: Option<nat>)
    requires i <= |expected| && j < |got| && found == if align then Align(expected, i, got, j) else Some(i)
    ensures Follows(expected, got, i, j, align) <==>
      && found.Some? && found.value < |expected| && expected[found.value] == got[j]
      && Follows(expected, got, found.value + 1, j + 1, got[j] == "execve=ok")
  {
    FoundExactly(expected, got, i, j, align);
    FollowsOnly(expected, got, i, j, align, found);
  }

  lemma LateStep(expected: seq<string>, got: seq<string>, t: nat, i: nat, j: nat, align: bool, found: Option<nat>)
    requires i <= |expected| && j < |got| && (align ==> !SliceFails(expected, i, got, j))
    requires found == if align then Align(expected, i, got, j) else Some(i)
    ensures LateThread(expected, got, t, i, j, align).Same? <==>
      && found.Some? && found.value < |expected| && expected[found.value] == got[j]
      && LateThread(expected, got, t, found.value + 1, j + 1, got[j] == "execve=ok").Same?
  {
  }

  /** One thread compares equal exactly when it follows. */
  lemma {:induction false} ThreadExactly(expected: seq<string>, got: seq<string>, t: nat, i: nat, j: nat, align: bool)
    requires i <= |expected| && j <= |got| && (align ==> !SliceFails(expected, i, got, j))
    ensures LateThread(expected, got, t, i, j, align).Same? <==> Follows(expected, got, i, j, align)
    decreases |got| - j
  {
    if j == |got| {
      NothingLeft(expected, i, got, j, align);
    } else {
      var found := if align then Align(expected, i, got, j) else Some(i);
      LateStep(expected, got, t, i, j, align, found);
      FollowsStep(expected, got, i, j, align, found);
      if found.Some? && found.value < |expected| {
        ThreadExactly(expected, got, t, found.value + 1, j + 1, got[j] == "execve=ok");
      }
    }
  }

  /** The first native thread is too short for the first window. */
  predicate TooShort(native: Record, backend: Record)
  {
    && |native.threads| > 0 && |backend.threads| > 0 && |backend.threads[0]| >= 2
    && |native.threads[0]| < 8 && |native.threads[0]| < |backend.threads[0]|
  }

  lemma {:induction false} ThreadsExactly(native: seq<seq<string>>, backend: seq<seq<string>>, t: nat)
    requires t <= |native| && t <= |backend|
    requires t == 0 && |native| > 0 && |backend| > 0 ==> !SliceFails(native[0], 0, backend[0], 0)
    ensures LateThreads(native, backend, t).Same? <==>
      forall u :: t <= u < |native| && u < |backend| ==> Follows(native[u], backend[u], 0, 0, u == 0)
    decreases |native| - t
  {
    if t < |native| && t < |backend| {
      ThreadExactly(native[t], backend[t], t, 0, 0, t == 0);
      ThreadsExactly(native, backend, t + 1);
    }
  }

  /** The comparison finds no difference exactly when exits and thread counts agree,
      every backend thread follows its native one, and thread 0 is long enough. */
  lemma LateExactly(native: Record, backend: Record)
    ensures LateDifference(native, backend).Same? <==>
      && native.exit == backend.exit && |native.threads| == |backend.threads| && !TooShort(native, backend)
      && forall u :: 0 <= u < |native.threads| ==> Follows(native.threads[u], backend.threads[u], 0, 0, u == 0)
  {
    PanicsExactly(native, backend);
    if !TooShort(native, backend) {
      ThreadsExactly(native.threads, backend.threads, 0);
    }
  }

  // ---- completeness ----

  /** Where the rest of both is the same, the place is here. */
  lemma PlaceHere(expected: seq<string>, i: nat, got: seq<string>, j: nat)
    requires i <= |expected| && j < |got| && expected[i..] == got[j..]
    ensures i < |expected| && expected[i] == got[j] && Place(expected, i, got, j, i)
  {
    var n := |got| - j;
    assert |expected[i..]| == |got[j..]| == n;
    assert expected[i] == expected[i..][0] && got[j] == got[j..][0];
    if n == 1 {
      assert LastOfName(expected, i, got, j, i);
    } else {
      var v := if n < 8 then n else 8;
      assert forall m :: i <= m < i + v ==> expected[m] == expected[i..][m - i] && got[j + (m - i)] == got[j..][m - i];
      assert FitsAt(expected, i, got, j, v, i);
      assert FirstOfLongest(expected, i, got, j, v, i);
    }
  }

  lemma {:induction false} EqualFollows(expected: seq<string>, got: seq<string>, i: nat, j: nat, align: bool)
    requires i <= |expected| && j <= |got| && expected[i..] == got[j..]
    ensures Follows(expected, got, i, j, align)
    decreases |got| - j
  {
    if j == |got| {
      assert |expected[i..]| == 0;
    } else {
      PlaceHere(expected, i, got, j);
      assert expected[i + 1..] == expected[i..][1..] && got[j + 1..] == got[j..][1..];
      EqualFollows(expected, got, i + 1, j + 1, got[j] == "execve=ok");
      assert FollowsAt(expected, got, i, j, align, i);
    }
  }

  /** Completeness of one alignment: if the native calls from the place on are the
      backend's remaining calls, there is no difference. It covers the start of
      thread 0, and every position after a matched successful execve. */
  lemma PlacedIsSame(expected: seq<string>, got: seq<string>, t: nat, i: nat, j: nat, k: nat)
    requires i <= |expected| && j < |got| && Place(expected, i, got, j, k)
    requires k <= |expected| && expected[k..] == got[j..]
    ensures LateThread(expected, got, t, i, j, true).Same?
  {
    assert |expected[k..]| == |got[j..]|;
    PlaceHere(expected, k, got, j);
    assert expected[k + 1..] == expected[k..][1..] && got[j + 1..] == got[j..][1..];
    EqualFollows(expected, got, k + 1, j + 1, got[j] == "execve=ok");
    assert FollowsAt(expected, got, i, j, true, k);
    ThreadExactly(expected, got, t, i, j, true);
  }

  /** Completeness for records: a backend whose tool starts late in thread 0, at its
      place, and sees everything after it, compares equal. */
  lemma LateComplete(native: Record, backend: Record, k: nat)
    requires native.exit == backend.exit && |native.threads| == |backend.threads| > 0
    requires forall u :: 0 < u < |native.threads| ==> native.threads[u] == backend.threads[u]
    requires backend.threads[0] != [] && Place(native.threads[0], 0, backend.threads[0], 0, k)
    requires k <= |native.threads[0]| && native.threads[0][k..] == backend.threads[0]
    ensures LateDifference(native, backend).Same?
  {
    var n, b := native.threads, backend.threads;
    assert b[0][0..] == b[0] && |n[0][k..]| == |b[0]|;
    PlacedIsSame(n[0], b[0], 0, 0, 0, k);
    ThreadExactly(n[0], b[0], 0, 0, 0, true);
    forall u | 0 < u < |n| ensures Follows(n[u], b[u], 0, 0, false) {
      EqualFollows(n[u], b[u], 0, 0, false);
    }
    LateExactly(native, backend);
  }

  // ---- what is reported ----

  /** There is no place. */
  ghost predicate Nowhere(expected: seq<string>, i: nat, got: seq<string>, j: nat)
  {
    forall k: nat :: !Place(expected, i, got, j, k)
  }

  lemma NoPlace(expected: seq<string>, i: nat, got: seq<string>, j: nat)
    requires i <= |expected| && j <= |got| && Align(expected, i, got, j).None?
    ensures Nowhere(expected, i, got, j)
  {
    forall k: nat ensures !Place(expected, i, got, j, k) {
      AlignExactly(expected, i, got, j, k);
    }
  }

  /** A start that could not be aligned: some backend call, at or after j, for which
      there is no place from the reported native call on. */
  lemma {:induction false} NoStartIsReal(expected: seq<string>, got: seq<string>, t: nat, i: nat, j: nat, align: bool)
    returns (at: nat)
    requires i <= |expected| && j <= |got|
    ensures var v := LateThread(expected, got, t, i, j, align);
      v.Differs? && v.difference.NoAlignedStart? ==>
        && v.difference.thread == t && i <= v.difference.index <= |expected|
        && j <= at < |got| && v.difference.backend == Some(got[at])
        && Nowhere(expected, v.difference.index, got, at)
    decreases |got| - j
  {
    at := j;
    if !(align && SliceFails(expected, i, got, j)) {
      var found := if align then Align(expected, i, got, j) else Some(i);
      var k := if found.Some? then found.value else i;
      if found.None? {
        NoPlace(expected, i, got, j);
      } else if k < |expected| && j < |got| && expected[k] == got[j] {
        at := NoStartIsReal(expected, got, t, k + 1, j + 1, expected[k] == "execve=ok");
      }
    }
  }

  /** The exact comparison reports the first difference there is: the first call at
      which the first differing thread differs, else the thread counts, else the
      exits. */
  lemma FirstIsFirst(native: Record, backend: Record)
    requires FirstDifference(native, backend).Some?
    ensures match FirstDifference(native, backend).value
      case AtCall(t, i, a, b) =>
        && t < |native.threads| && t < |backend.threads|
        && (forall u :: 0 <= u < t ==> native.threads[u] == backend.threads[u])
        && i <= |native.threads[t]| && i <= |backend.threads[t]|
        && native.threads[t][..i] == backend.threads[t][..i]
        && a == Get(native.threads[t], i) && b == Get(backend.threads[t], i) && a != b
      case ThreadCounts(n, m) =>
        && n == |native.threads| && m == |backend.threads| && n != m
        && forall u :: 0 <= u < n && u < m ==> native.threads[u] == backend.threads[u]
      case ExitCodes(x, y) =>
        x == native.exit && y == backend.exit && x != y && native.threads == backend.threads
      case NoAlignedStart(_, _, _) => false
  {
    ThreadsDifferMeaning(native.threads, backend.threads, 0);
    ThreadsDifferCalls(native.threads, backend.threads, 0);
  }

  lemma {:induction false} ThreadsDifferCalls(native: seq<seq<string>>, backend: seq<seq<string>>, t: nat)
    requires t <= |native| && t <= |backend|
    ensures var d := ThreadsDiffer(native, backend, t);
      d.Some? && d.value.AtCall? && d.value.thread < |native| && d.value.thread < |backend| ==>
        && d.value.native == Get(native[d.value.thread], d.value.index)
        && d.value.backend == Get(backend[d.value.thread], d.value.index)
    decreases |native| - t
  {
    if t < |native| && t < |backend| {
      ThreadsDifferCalls(native, backend, t + 1);
    }
  }
}
