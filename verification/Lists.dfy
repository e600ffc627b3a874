/** How many distinct elements a sequence has. */
module Lists {

  function Distinct<T(==)>(s: seq<T>): set<T> { set n | n in s }

  predicate NoDuplicates<T(==)>(s: seq<T>) { forall i, j :: 0 <= i < j < |s| ==> s[i] != s[j] }

  lemma DistinctSnoc<T>(s: seq<T>)
    requires s != []
    ensures Distinct(s) == Distinct(s[..|s| - 1]) + {s[|s| - 1]}
    ensures s[|s| - 1] in Distinct(s[..|s| - 1]) <==> s[|s| - 1] in s[..|s| - 1]
  {
    assert s == s[..|s| - 1] + [s[|s| - 1]];
  }

  lemma {:induction false} DistinctAtMost<T>(s: seq<T>)
    ensures |Distinct(s)| <= |s|
  {
    if s != [] {
      DistinctAtMost(s[..|s| - 1]);
      DistinctSnoc(s);
    }
  }

  lemma {:induction false} DistinctExact<T>(s: seq<T>)
    requires NoDuplicates(s)
    ensures |Distinct(s)| == |s|
  {
    if s != [] {
      var init, last := s[..|s| - 1], s[|s| - 1];
      DistinctExact(init);
      DistinctSnoc(s);
      assert last !in init;
    }
  }

  lemma {:induction false} DistinctFewer<T>(s: seq<T>, i: nat, j: nat)
    requires i < j < |s| && s[i] == s[j]
    ensures |Distinct(s)| < |s|
  {
    var init, last := s[..|s| - 1], s[|s| - 1];
    DistinctSnoc(s);
    if j == |s| - 1 {
      assert init[i] == last;
      assert Distinct(s) == Distinct(init);
      DistinctAtMost(init);
    } else {
      DistinctFewer(init, i, j);
    }
  }

  lemma DistinctCount<T>(s: seq<T>)
    ensures |Distinct(s)| <= |s| && (|Distinct(s)| == |s| <==> NoDuplicates(s))
  {
    if NoDuplicates(s) {
      DistinctExact(s);
    } else {
      var i, j :| 0 <= i < j < |s| && s[i] == s[j];
      DistinctFewer(s, i, j);
    }
  }
}
