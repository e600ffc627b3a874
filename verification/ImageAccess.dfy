/** What may be done with the pages of a mapped image, read off the program
    headers alone. */
module ImageAccess {
  import opened Words
  import opened Extents
  import opened Memory
  import opened Loader
  import opened Image

  /** The access bits of a page (PROT_READ = 1, PROT_WRITE = 2, PROT_EXEC = 4) are
      the segment's flag bits (PF_R = 4, PF_W = 2, PF_X = 1), each in its place. */
  predicate AccessFrom(access: int, flags: int)
  {
    access == flags / 4 % 2 + 2 * (flags / 2 % 2) + 4 * (flags % 2)
  }

  lemma ReadBit(f: nat)
    ensures f % 8 >= 4 <==> f / 4 % 2 == 1
  {
    var q, m := f / 8, f % 8;
    assert f / 4 == 2 * q + m / 4;
  }

  lemma WriteBit(f: nat)
    ensures f % 4 >= 2 <==> f / 2 % 2 == 1
  {
    var q, m := f / 4, f % 4;
    assert f / 2 == 2 * q + m / 2;
  }

  /** A number below eight from its three bits. */
  lemma ThreeBits(prot: u64)
    requires prot < 8
    ensures prot == prot % 2 + (if Writable(prot) then 2 else 0) + (if Executable(prot) then 4 else 0)
  {
  }

  lemma FlagBits(p: Phdr)
    ensures AccessFrom(ProtOf(p), p.flags)
  {
    ReadBit(p.flags);
    WriteBit(p.flags);
    ThreeBits(ProtOf(p));
  }

  /** The page of v comes from the file. */
  ghost predicate FromFile(p: Phdr, v: int)
    requires p.vaddr + p.filesz <= GIB
  {
    p.filesz > 0 && v < Ceil(p.vaddr + p.filesz)
  }

  /** How segment p has the page of v mapped. */
  ghost predicate MappedAs(how: Option<Mapping>, p: Phdr, v: int)
    requires p.vaddr + p.filesz <= GIB
  {
    && how.Some? && AccessFrom(how.value.access, p.flags) && !how.value.shared
    && how.value.anonymous == !FromFile(p, v)
  }

  /** What the tracker says of it. */
  ghost predicate RecordedAs(record: Option<Attr>, p: Phdr, v: int)
    requires p.vaddr + p.filesz <= GIB
  {
    && record.Some? && AccessFrom(record.value.prot, p.flags)
    && record.value.flags == if FromFile(p, v) then 0x2 else 0x22
  }

  lemma AttrIs(p: Phdr, v: int)
    requires p.vaddr + p.memsz <= GIB && p.filesz <= p.memsz && SegLo(p) <= v
    ensures var w := SegAttr(p, v);
      RecordedAs(Some(w), p, v) && MappedAs(Some(HowOf(w.prot, w.flags)), p, v)
  {
    FlagBits(p);
    FileReaches(p, v);
    PrivateHow(ProtOf(p));
  }

  lemma FileReaches(p: Phdr, v: int)
    requires p.vaddr + p.memsz <= GIB && p.filesz <= p.memsz && SegLo(p) <= v
    ensures FromFile(p, v) <==> v < SegMid(p)
  {
  }

  lemma PrivateHow(prot: u64)
    requires prot < 8
    ensures HowOf(prot, 0x2) == Mapping(prot, false, false) && HowOf(prot, 0x22) == Mapping(prot, true, false)
  {
  }

  /** Every page of every segment of a mapped image is readable, writable and
      executable exactly as its header's flags say, private, and backed by the file
      exactly as far as the segment's file part reaches; a private image is
      recorded so. */
  lemma ImageAccessible(m0: Memory, m: Memory, s: seq<Extent>, t: seq<Extent>, file: seq<byte>, h: Ehdr,
                        ph: seq<Phdr>, lo: u64, hi: u64, base: int, r: Mapped, private: bool, i: nat, v: int)
    requires r.Mapped? && ImageMapped(m0, m, s, t, file, h, ph, lo, hi, base, r, private)
    requires i < |ph| && ph[i].load && SegLo(ph[i]) <= v < SegHi(ph[i])
    ensures MappedAs(HowAt(m, base + v), ph[i], v)
    ensures private ==> RecordedAs(Lookup(t, base + v), ph[i], v)
  {
    assert SegLoadedAt(m, file, ph[i], base, v);
    AttrIs(ph[i], v);
    if private {
      Recorded(s, t, ph, |file|, lo, hi, base, i, v);
    }
  }

  lemma Recorded(s: seq<Extent>, t: seq<Extent>, ph: seq<Phdr>, size: nat, lo: int, hi: int, base: int, i: nat, v: int)
    requires Ascending(ph, size) && Spans(ph, size, lo, hi) && ImageTracked(s, t, ph, size, |ph|, lo, hi, base)
    requires i < |ph| && ph[i].load && SegLo(ph[i]) <= v < SegHi(ph[i])
    ensures Lookup(t, base + v) == Some(SegAttr(ph[i], v))
  {
    ImageAttrOf(ph, size, |ph|, i, v);
    var a := base + v;
    assert a - base == v && base + lo <= a < base + hi;
  }
}
