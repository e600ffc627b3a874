/** What one tracker update means: the unique coalesced list that overrides (or
    erases) one page range of the tracked address map, if it fits. */
module TrackSpec {
  import opened Words
  import opened Extents

  const CAPACITY: nat := 64
  /** Erases instead of recording. */
  const DROP_MAP: u64 := 0xffff_ffff_ffff_ffff

  predicate Overlaps(lo: int, hi: int, a: int, b: int) { lo < b && a < hi }

  /** The request the tracker accepts: a nonempty page range that does not wrap. */
  predicate Requestable(lo: u64, bytes: u64)
  {
    lo % 4096 == 0 && bytes != 0 && bytes % 4096 == 0 && lo <= MAX64 - bytes
  }

  predicate Recordable(prot: u64) { prot == DROP_MAP || !WriteExec(prot) }

  /** What is left of one extent outside [lo, hi). */
  function Pieces(m: Extent, lo: u64, hi: u64): (p: seq<Extent>)
    ensures |p| <= 2
  {
    if !Overlaps(lo, hi, m.lo, m.hi) then
      [m]
    else
      (if m.lo < lo then [m.(hi := lo)] else []) + (if m.hi > hi then [m.(lo := hi)] else [])
  }

  /** How many entries carving [lo, hi) out of the list leaves. */
  function PieceCount(s: seq<Extent>, lo: u64, hi: u64): nat
  {
    if s == [] then 0 else PieceCount(s[..|s| - 1], lo, hi) + |Pieces(s[|s| - 1], lo, hi)|
  }

  /** The scratch list, before sorting and coalescing, must fit. */
  predicate Fits(s: seq<Extent>, lo: u64, hi: u64, prot: u64)
  {
    PieceCount(s, lo, hi) + (if prot == DROP_MAP then 0 else 1) <= CAPACITY
  }

  /** What one update does to one address. */
  function Overridden(before: Option<Attr>, lo: int, hi: int, prot: u64, flags: u64, a: int): Option<Attr>
  {
    if !(lo <= a < hi) then before
    else if prot == DROP_MAP then None
    else Some(Attr(prot, flags))
  }

  /** `r` is what a successful update of `s` must be. */
  ghost predicate Updated(s: seq<Extent>, r: seq<Extent>, lo: int, hi: int, prot: u64, flags: u64)
  {
    && Canonical(r) && |r| <= CAPACITY
    && forall a: int :: Lookup(r, a) == Overridden(Lookup(s, a), lo, hi, prot, flags, a)
  }

  ghost predicate Updatable(s: seq<Extent>, lo: int, hi: int, prot: u64, flags: u64)
  {
    exists r :: Updated(s, r, lo, hi, prot, flags)
  }

  ghost function Choose(s: seq<Extent>, lo: int, hi: int, prot: u64, flags: u64): (r: seq<Extent>)
    requires Updatable(s, lo, hi, prot, flags)
    ensures Updated(s, r, lo, hi, prot, flags)
  {
    var r :| Updated(s, r, lo, hi, prot, flags);
    r
  }

  /** The update as a function: None is a refusal. */
  ghost function Track(s: seq<Extent>, lo: u64, bytes: u64, prot: u64, flags: u64): (o: Option<seq<Extent>>)
    ensures o.Some? ==> Updated(s, o.value, lo, lo + bytes, prot, flags)
  {
    if Requestable(lo, bytes) && Recordable(prot) && Fits(s, lo, lo + bytes, prot)
       && Updatable(s, lo, lo + bytes, prot, flags) then
      Some(Choose(s, lo, lo + bytes, prot, flags))
    else
      None
  }

  /** Only one list is a correct update. */
  lemma UpdateUnique(s: seq<Extent>, r: seq<Extent>, t: seq<Extent>, lo: int, hi: int, prot: u64, flags: u64)
    requires Updated(s, r, lo, hi, prot, flags) && Updated(s, t, lo, hi, prot, flags)
    ensures r == t
  {
    forall a: int ensures Lookup(r, a) == Lookup(t, a) {
    }
    SortedUnique(r, t);
  }

  /** Histories do not matter: whatever led to two trackers, if their maps
      agree then so do their live entries and their code entries. */
  lemma HistoryIndependent(s: seq<Extent>, t: seq<Extent>)
    requires Canonical(s) && Canonical(t)
    requires forall a: int :: Lookup(s, a) == Lookup(t, a)
    ensures s == t && CodeOf(s) == CodeOf(t)
  {
    SortedUnique(s, t);
  }
}
