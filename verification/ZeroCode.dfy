/** An accepted file after which tracked code is not file backed. */
module ZeroCode {
  import opened Words
  import opened Extents
  import opened Memory
  import opened Relay
  import opened RelayProofs
  import opened Loader
  import opened Image
  import opened ImageFile
  import opened Boot

  // ---- the file ----

  /** The bytes that are not zero: the identification, type and machine, where and
      how large the headers are, and one loadable executable segment. */
  function ByteAt(i: nat): byte
  {
    if i == 0 then 0x7f else if i == 1 then 0x45 else if i == 2 then 0x4c else if i == 3 then 0x46
    else if i == 4 then 2 else if i == 5 then 1
    else if i == 16 then 3 else if i == 18 then 62 else if i == 32 then 64
    else if i == 54 then 56 else if i == 56 then 1
    else if i == 64 then 1 else if i == 68 then 5 else if i == 97 then 0x10 else if i == 105 then 0x20
    else 0
  }

  /** A page of code and headers. */
  predicate IsPage(f: seq<byte>) { |f| == 4096 && forall i :: 0 <= i < 4096 ==> f[i] == ByteAt(i) }

  lemma PageExists() returns (f: seq<byte>)
    ensures IsPage(f)
  {
    f := seq(4096, i requires 0 <= i => ByteAt(i));
  }

  /** Eight bytes of which only the second may be set. */
  lemma WordIs(f: seq<byte>, at: nat, second: byte)
    requires at + 8 <= |f| && f[at] == 0 && f[at + 1] == second && f[at + 2] == 0 && f[at + 3] == 0
    requires f[at + 4] == 0 && f[at + 5] == 0 && f[at + 6] == 0 && f[at + 7] == 0
    ensures U64(f, at) == 0x100 * second
  {
  }

  lemma HeaderFields(f: seq<byte>)
    requires IsPage(f)
    ensures U16(f, 16) == 3 && U16(f, 18) == 62 && U16(f, 54) == 56 && U16(f, 56) == 1
    ensures U64(f, 24) == 0 && U64(f, 32) == 64
  {
  }

  lemma SegmentFields(f: seq<byte>)
    requires IsPage(f)
    ensures U32(f, 64) == 1 && U32(f, 68) == 5
    ensures U64(f, 72) == 0 && U64(f, 80) == 0 && U64(f, 96) == 4096 && U64(f, 104) == 8192
  {
    WordIs(f, 72, 0);
    WordIs(f, 80, 0);
    WordIs(f, 96, 0x10);
    WordIs(f, 104, 0x20);
  }

  lemma Identified(f: seq<byte>)
    requires IsPage(f)
    ensures Recognised(HeaderOf(f)) && HeaderOf(f).entry == 0 && HeaderOf(f).phoff == 64 && CountOf(f) == 1
  {
    HeaderFields(f);
    var ident := HeaderOf(f).ident;
    assert ident[..4] == [0x7f, 0x45, 0x4c, 0x46];
  }

  lemma HeadersOf(f: seq<byte>)
    requires IsPage(f)
    ensures Announces(f) && |Headers(f)| == 1 && CodeAndZeroPage(Headers(f)[0])
  {
    Identified(f);
    SegmentFields(f);
    assert Headers(f)[0] == PhdrAt(f, 64);
  }

  // ---- its segment ----

  /** One executable segment: a page of code and headers, then a zero page. */
  predicate CodeAndZeroPage(p: Phdr) { p == Phdr(true, 5, 0, 0, 4096, 8192) }

  lemma CodeAndZeroPageParts(p: Phdr)
    requires CodeAndZeroPage(p)
    ensures SegmentOk(p, 4096) && SegLo(p) == 0 && SegMid(p) == 4096 && SegHi(p) == 8192
    ensures p.load && FlagX(p) && HoldsEntry(p, 0) && HoldsTable(p, 64, 56)
  {
    assert 0 == PageAt(0) && 4096 == PageAt(1) && 8192 == PageAt(2);
    FloorUnique(0, 0);
    CeilUnique(4096, 4096);
    CeilUnique(8192, 8192);
  }

  lemma OneSegmentAscends(ph: seq<Phdr>, size: nat)
    requires |ph| == 1 && SegmentOk(ph[0], size)
    ensures Ascending(ph, size)
  {
  }

  lemma OneSegmentAcceptable(h: Ehdr, ph: seq<Phdr>, size: nat)
    requires Recognised(h) && h.phoff <= 65536 && h.phoff + 56 <= size && |ph| == 1
    requires SegmentOk(ph[0], size) && HoldsEntry(ph[0], h.entry) && HoldsTable(ph[0], h.phoff, 56)
    requires SegHi(ph[0]) - SegLo(ph[0]) <= MAX_IMAGE
    ensures Acceptable(h, ph, size) && HeaderRefusal(h, ph, size) == 0
  {
    OneSegmentAscends(ph, size);
    assert TableBytes(ph) == 56;
    assert HasEntry(h, ph, 1) && HasTable(h, ph, 1);
  }

  lemma NotFromFile(ph: seq<Phdr>, size: nat, i: nat)
    requires Ascending(ph, size) && i < |ph| && ph[i].load && FlagX(ph[i]) && SegMid(ph[i]) != SegHi(ph[i])
    ensures !CodeFromFile(ph, size)
  {
  }

  /** The file is read, announces its table and passes every test, although its
      second page of memory is code without a file. */
  lemma ZeroCodeWitness() returns (f: seq<byte>)
    ensures IsPage(f) && Refusal(Io(true, true, true, true), f) == 0
    ensures Ascending(Headers(f), 4096) && !CodeFromFile(Headers(f), 4096)
  {
    f := PageExists();
    PageAccepted(f);
  }

  lemma PageAccepted(f: seq<byte>)
    requires IsPage(f)
    ensures Refusal(Io(true, true, true, true), f) == 0
    ensures Announces(f) && Ascending(Headers(f), 4096) && !CodeFromFile(Headers(f), 4096)
  {
    Identified(f);
    HeadersOf(f);
    TableAccepted(HeaderOf(f), Headers(f));
  }

  lemma TableAccepted(h: Ehdr, ph: seq<Phdr>)
    requires Recognised(h) && h.entry == 0 && h.phoff == 64 && |ph| == 1 && CodeAndZeroPage(ph[0])
    ensures HeaderRefusal(h, ph, 4096) == 0 && Ascending(ph, 4096) && !CodeFromFile(ph, 4096)
  {
    CodeAndZeroPageParts(ph[0]);
    OneSegmentAscends(ph, 4096);
    NotFromFile(ph, 4096, 0);
    OneSegmentAcceptable(h, ph, 4096);
  }

  /** Wherever it is mapped as a private image, tracked code is no longer all file
      backed. */
  lemma ZeroCodeFails(st: State, l: Load, maps: seq<Extent>, mem: Memory)
    requires l.private && IsPage(l.file) && Announces(l.file) && l.ph == Headers(l.file)
    requires LoadedBy(st, l, maps, mem) && CodeBacked(st.maps)
    ensures !CodeBacked(AfterLoad(st, l, maps, mem).maps)
  {
    PageAccepted(l.file);
    ImageCode(st, l, maps, mem);
  }
}
