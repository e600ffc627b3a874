/** The tracker's record of owned address ranges: a list of extents, read as a
    partial map from addresses to a protection word and a flag word. */
module Extents {
  import opened Words

  datatype Attr = Attr(prot: u64, flags: u64)

  datatype Extent = Extent(lo: u64, hi: u64, prot: u64, flags: u64)

  datatype CodeExtent = CodeExtent(lo: u64, hi: u64)

  function AttrOf(e: Extent): Attr { Attr(e.prot, e.flags) }

  predicate Within(a: int, e: Extent) { e.lo <= a < e.hi }

  /** The simple specification: what the list says about one address. */
  function Lookup(s: seq<Extent>, a: int): Option<Attr>
  {
    if s == [] then None
    else if Within(a, s[0]) then Some(AttrOf(s[0]))
    else Lookup(s[1..], a)
  }

  /** Every address of [lo, hi) is tracked. */
  predicate CoveredBy(s: seq<Extent>, lo: u64, hi: u64)
  {
    forall a: int :: lo <= a < hi ==> Lookup(s, a).Some?
  }

  /** Two touching extents that carry the same words. */
  predicate Mergeable(e: Extent, f: Extent)
  {
    e.hi == f.lo && e.prot == f.prot && e.flags == f.flags
  }

  /** Page aligned and never both writable and executable. */
  ghost predicate Clean(e: Extent)
  {
    Aligned(e.lo) && Aligned(e.hi) && !WriteExec(e.prot)
  }

  ghost predicate AllClean(s: seq<Extent>) { forall i :: 0 <= i < |s| ==> Clean(s[i]) }

  predicate Nonempty(s: seq<Extent>) { forall i :: 0 <= i < |s| ==> s[i].lo < s[i].hi }

  /** Nonempty extents in increasing order without overlap. */
  predicate Sorted(s: seq<Extent>)
  {
    && Nonempty(s)
    && (forall i, j :: 0 <= i < j < |s| ==> s[i].hi <= s[j].lo)
  }

  predicate Separated(s: seq<Extent>)
  {
    forall i :: 0 < i < |s| ==> !Mergeable(s[i - 1], s[i])
  }

  /** Sorted, disjoint, page aligned, nonempty, W^X, and fully coalesced. */
  ghost predicate Canonical(s: seq<Extent>) { Sorted(s) && Separated(s) && AllClean(s) }

  /** The executable extents, in order. */
  function CodeOf(s: seq<Extent>): (r: seq<CodeExtent>)
    ensures |r| <= |s|
  {
    if s == [] then []
    else
      var e := s[|s| - 1];
      CodeOf(s[..|s| - 1]) + (if Executable(e.prot) then [CodeExtent(e.lo, e.hi)] else [])
  }

  lemma LookupConcat(s: seq<Extent>, t: seq<Extent>, a: int)
    ensures Lookup(s + t, a) == if Lookup(s, a).Some? then Lookup(s, a) else Lookup(t, a)
  {
    if s == [] {
      assert s + t == t;
    } else {
      assert (s + t)[1..] == s[1..] + t;
      LookupConcat(s[1..], t, a);
    }
  }

  lemma {:induction false} LookupNone(s: seq<Extent>, a: int)
    requires forall i :: 0 <= i < |s| ==> !Within(a, s[i])
    ensures Lookup(s, a) == None
  {
    if s != [] {
      LookupNone(s[1..], a);
    }
  }

  lemma {:induction false} LookupSome(s: seq<Extent>, a: int) returns (i: nat)
    requires Lookup(s, a).Some?
    ensures i < |s| && Within(a, s[i]) && Lookup(s, a) == Some(AttrOf(s[i]))
  {
    if Within(a, s[0]) {
      i := 0;
    } else {
      var k := LookupSome(s[1..], a);
      i := k + 1;
    }
  }

  /** In a sorted list the extent that holds an address decides the lookup. */
  lemma {:induction false} LookupAt(s: seq<Extent>, i: nat, a: int)
    requires Sorted(s) && i < |s| && Within(a, s[i])
    ensures Lookup(s, a) == Some(AttrOf(s[i]))
  {
    var k := LookupWithin(s, i, a);
    assert k == i;
  }

  lemma {:induction false} LookupWithin(s: seq<Extent>, i: nat, a: int) returns (k: nat)
    requires i < |s| && Within(a, s[i])
    ensures k < |s| && Within(a, s[k]) && Lookup(s, a) == Some(AttrOf(s[k]))
  {
    if Within(a, s[0]) {
      k := 0;
    } else {
      var m := LookupWithin(s[1..], i - 1, a);
      k := m + 1;
    }
  }

  /** Every address of the same page has the same lookup. */
  lemma PageUniform(s: seq<Extent>, a: u64)
    requires Sorted(s) && AllClean(s)
    ensures Lookup(s, a) == Lookup(s, Floor(a))
  {
    var d := Floor(a);
    if Lookup(s, a).Some? {
      var i := LookupSome(s, a);
      assert Clean(s[i]);
      assert s[i].lo <= d by { AlignedBelow(s[i].lo, a); }
      LookupAt(s, i, d);
    } else if Lookup(s, d).Some? {
      var i := LookupSome(s, d);
      assert Clean(s[i]);
      assert a < s[i].hi by { AlignedAbove(d, s[i].hi, a); }
      LookupAt(s, i, a);
    }
  }

  lemma AlignedBelow(b: int, a: u64)
    requires Aligned(b) && 0 <= b <= a
    ensures b <= Floor(a)
  {
    var i: int :| b == PageAt(i);
    var j: int :| Floor(a) == PageAt(j);
  }

  lemma AlignedAbove(d: int, b: int, a: int)
    requires Aligned(d) && Aligned(b) && d < b && d <= a < d + PAGE
    ensures a < b
  {
    var i: int :| d == PageAt(i);
    var j: int :| b == PageAt(j);
  }

  /** The tracker is canonical: two coalesced lists that say the same about
      every address are the same list, entry for entry. */
  lemma {:induction false} SortedUnique(s: seq<Extent>, t: seq<Extent>)
    requires Sorted(s) && Separated(s) && Sorted(t) && Separated(t)
    requires forall a: int :: Lookup(s, a) == Lookup(t, a)
    ensures s == t
  {
    if s == [] || t == [] {
      assert s != [] ==> Lookup(s, s[0].lo) == Lookup(t, s[0].lo);
      assert t != [] ==> Lookup(s, t[0].lo) == Lookup(t, t[0].lo);
    } else {
      HeadStart(s, t);
      HeadStart(t, s);
      assert AttrOf(s[0]) == AttrOf(t[0]) by {
        assert Lookup(s, s[0].lo) == Lookup(t, s[0].lo);
      }
      HeadEnd(s, t);
      HeadEnd(t, s);
      assert s[0] == t[0];
      forall a: int ensures Lookup(s[1..], a) == Lookup(t[1..], a) {
        TailLookup(s, a);
        TailLookup(t, a);
      }
      TailSeparated(s);
      TailSeparated(t);
      SortedUnique(s[1..], t[1..]);
      assert s == [s[0]] + s[1..] && t == [t[0]] + t[1..];
    }
  }

  lemma HeadStart(s: seq<Extent>, t: seq<Extent>)
    requires Sorted(s) && Separated(s) && Sorted(t) && Separated(t) && s != [] && t != []
    requires forall a: int :: Lookup(s, a) == Lookup(t, a)
    ensures t[0].lo <= s[0].lo
  {
    assert Lookup(s, s[0].lo).Some?;
    var i := LookupSome(t, s[0].lo);
    assert i > 0 ==> t[0].hi <= t[i].lo;
  }

  lemma HeadEnd(s: seq<Extent>, t: seq<Extent>)
    requires Sorted(s) && Separated(s) && Sorted(t) && Separated(t) && s != [] && t != []
    requires s[0].lo == t[0].lo && AttrOf(s[0]) == AttrOf(t[0])
    requires forall a: int :: Lookup(s, a) == Lookup(t, a)
    ensures t[0].hi <= s[0].hi
  {
    if s[0].hi < t[0].hi {
      var a := s[0].hi;
      LookupAt(t, 0, a);
      assert Lookup(s, a) == Some(AttrOf(t[0]));
      var i := LookupSome(s, a);
      assert false;
    }
  }

  lemma TailSeparated(s: seq<Extent>)
    requires Sorted(s) && Separated(s) && s != []
    ensures Sorted(s[1..]) && Separated(s[1..])
  {
    forall i | 0 < i < |s[1..]| ensures !Mergeable(s[1..][i - 1], s[1..][i]) {
      assert !Mergeable(s[(i + 1) - 1], s[i + 1]);
    }
  }

  /** Looking past the head of a sorted list. */
  lemma TailLookup(s: seq<Extent>, a: int)
    requires Sorted(s) && s != []
    ensures Lookup(s[1..], a) == if Within(a, s[0]) then None else Lookup(s, a)
  {
    if Within(a, s[0]) {
      forall i | 0 <= i < |s[1..]| ensures !Within(a, s[1..][i]) {
        assert s[0].hi <= s[i + 1].lo;
      }
      LookupNone(s[1..], a);
    }
  }

  /** Membership in the code list: exactly the executable extents. */
  lemma {:induction false} CodeOfMembers(s: seq<Extent>, c: CodeExtent)
    ensures c in CodeOf(s) <==>
      exists i :: 0 <= i < |s| && Executable(s[i].prot) && CodeExtent(s[i].lo, s[i].hi) == c
  {
    if s != [] {
      var t := s[..|s| - 1];
      CodeOfMembers(t, c);
      if c in CodeOf(t) {
        var i :| 0 <= i < |t| && Executable(t[i].prot) && CodeExtent(t[i].lo, t[i].hi) == c;
        assert s[i] == t[i];
      }
      if i :| 0 <= i < |s| && Executable(s[i].prot) && CodeExtent(s[i].lo, s[i].hi) == c {
        if i < |t| { assert t[i] == s[i]; }
      }
    }
  }
}
