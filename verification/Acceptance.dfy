/** Which images are accepted, said of the numbers in their headers alone. */
module Acceptance {
  import opened Words
  import opened Loader
  import opened Image
  import opened ImageAccess

  /** Segment p, of a file of this size: its file part no longer than its memory and
      inside the file, both below 1 GiB, its address and offset alike within a page,
      not empty, and not both writable (2) and executable (1). */
  predicate SegmentFits(p: Phdr, size: nat)
  {
    && 0 < p.memsz && p.filesz <= p.memsz && p.vaddr + p.memsz <= 0x4000_0000
    && p.offset <= 0x4000_0000 && p.offset + p.filesz <= size
    && p.vaddr % 4096 == p.offset % 4096
    && !(p.flags % 2 == 1 && p.flags / 2 % 2 == 1)
  }

  lemma SegmentMeans(p: Phdr, size: nat)
    ensures SegmentOk(p, size) <==> SegmentFits(p, size)
  {
    WriteBit(p.flags);
    var test := SegmentTest(p, size);
  }

  /** The first and the last page of a segment. */
  function FirstPage(p: Phdr): int { p.vaddr / 4096 }

  function LastPage(p: Phdr): int { (p.vaddr + p.memsz - 1) / 4096 }

  lemma SegmentPages(p: Phdr, size: nat)
    requires SegmentOk(p, size)
    ensures SegLo(p) == 4096 * FirstPage(p) && SegHi(p) == 4096 * (LastPage(p) + 1)
  {
    var lo, hi := 4096 * FirstPage(p), 4096 * (LastPage(p) + 1);
    assert lo == PageAt(FirstPage(p)) && hi == PageAt(LastPage(p) + 1);
    FloorUnique(p.vaddr, lo);
    CeilUnique(p.vaddr + p.memsz, hi);
  }

  /** The segments fit and their pages ascend without overlap. */
  predicate SegmentsFit(ph: seq<Phdr>, size: nat)
  {
    && (forall i :: 0 <= i < |ph| && ph[i].load ==> SegmentFits(ph[i], size))
    && (forall i, j :: 0 <= i < j < |ph| && ph[i].load && ph[j].load ==> LastPage(ph[i]) < FirstPage(ph[j]))
  }

  lemma AscendingMeans(ph: seq<Phdr>, size: nat)
    ensures Ascending(ph, size) <==> SegmentsFit(ph, size)
  {
    forall i | 0 <= i < |ph| ensures SegmentOk(ph[i], size) <==> SegmentFits(ph[i], size) {
      SegmentMeans(ph[i], size);
    }
    forall i | 0 <= i < |ph| && SegmentOk(ph[i], size)
      ensures SegLo(ph[i]) == 4096 * FirstPage(ph[i]) && SegHi(ph[i]) == 4096 * (LastPage(ph[i]) + 1)
    {
      SegmentPages(ph[i], size);
    }
  }

  /** An executable segment's file part holds the entry point. */
  predicate StartsIn(p: Phdr, entry: u64)
  {
    p.load && p.flags % 2 == 1 && p.vaddr <= entry < p.vaddr + p.filesz
  }

  /** A readable segment's file part holds the table of n headers. */
  predicate TablesIn(p: Phdr, phoff: u64, n: nat)
  {
    p.load && p.flags / 4 % 2 == 1 && p.offset <= phoff && phoff + 56 * n <= p.offset + p.filesz
  }

  /** The header of a 64-bit little-endian shared object for x86-64, with one to 32
      program headers of 56 bytes in the first 64 KiB and inside the file. */
  predicate HeaderFits(h: Ehdr, n: nat, size: nat)
  {
    && |h.ident| >= 6 && h.ident[0] == 0x7f && h.ident[1] == 'E' as int && h.ident[2] == 'L' as int
    && h.ident[3] == 'F' as int && h.ident[4] == 2 && h.ident[5] == 1
    && h.kind == 3 && h.machine == 62 && h.phentsize == 56
    && 1 <= n <= 32 && h.phoff <= 0x1_0000 && h.phoff + 56 * n <= size
  }

  lemma HeaderMeans(h: Ehdr, ph: seq<Phdr>, size: nat)
    ensures HeaderOk(h, ph, size) <==> HeaderFits(h, |ph|, size)
  {
    if |h.ident| >= 6 {
      var magic := h.ident[..4];
      assert magic[0] == h.ident[0] && magic[1] == h.ident[1] && magic[2] == h.ident[2] && magic[3] == h.ident[3];
    }
  }

  /** All pages of the image lie within 16 MiB. */
  predicate SpanFits(ph: seq<Phdr>)
  {
    forall i, j :: 0 <= i < |ph| && 0 <= j < |ph| && ph[i].load && ph[j].load ==>
      LastPage(ph[j]) - FirstPage(ph[i]) < 4096
  }

  lemma SpanMeans(ph: seq<Phdr>, size: nat)
    requires Ascending(ph, size)
    ensures FitsImage(ph, size) <==> SpanFits(ph)
  {
    forall i | 0 <= i < |ph| && ph[i].load
      ensures SegLo(ph[i]) == 4096 * FirstPage(ph[i]) && SegHi(ph[i]) == 4096 * (LastPage(ph[i]) + 1)
    {
      SegmentPages(ph[i], size);
    }
  }

  lemma HoldersMean(p: Phdr, entry: u64, phoff: u64, n: nat)
    ensures HoldsEntry(p, entry) <==> StartsIn(p, entry)
    ensures HoldsTable(p, phoff, n * 56) <==> TablesIn(p, phoff, n)
  {
    ReadBit(p.flags);
  }

  /** An image is accepted exactly when its header and its segments fit, some segment
      holds the entry point and some segment the table, and all lie within 16 MiB. */
  lemma AcceptableExactly(h: Ehdr, ph: seq<Phdr>, size: nat)
    ensures Acceptable(h, ph, size) <==>
      && HeaderFits(h, |ph|, size) && SegmentsFit(ph, size)
      && (exists i :: 0 <= i < |ph| && StartsIn(ph[i], h.entry))
      && (exists i :: 0 <= i < |ph| && TablesIn(ph[i], h.phoff, |ph|))
      && SpanFits(ph)
    ensures HeaderRefusal(h, ph, size) ==
      if !HeaderFits(h, |ph|, size) then 96
      else if !SegmentsFit(ph, size) then 98
      else if Acceptable(h, ph, size) then 0
      else 99
  {
    HeaderMeans(h, ph, size);
    AscendingMeans(ph, size);
    if Ascending(ph, size) {
      SpanMeans(ph, size);
    }
    EntryMeans(h, ph);
    TableMeans(h, ph);
  }

  lemma EntryMeans(h: Ehdr, ph: seq<Phdr>)
    ensures HasEntry(h, ph, |ph|) <==> exists i :: 0 <= i < |ph| && StartsIn(ph[i], h.entry)
  {
    forall i | 0 <= i < |ph| ensures HoldsEntry(ph[i], h.entry) <==> StartsIn(ph[i], h.entry) {
      HoldersMean(ph[i], h.entry, h.phoff, |ph|);
    }
  }

  lemma TableMeans(h: Ehdr, ph: seq<Phdr>)
    ensures HasTable(h, ph, |ph|) <==> exists i :: 0 <= i < |ph| && TablesIn(ph[i], h.phoff, |ph|)
  {
    forall i | 0 <= i < |ph| ensures HoldsTable(ph[i], h.phoff, TableBytes(ph)) <==> TablesIn(ph[i], h.phoff, |ph|) {
      HoldersMean(ph[i], h.entry, h.phoff, |ph|);
    }
  }
}
