/** The layout of the ELF64 headers: a file that holds the fields of Elf64_Ehdr or
    Elf64_Phdr one after another, low byte first, is read back field by field. */
module ElfLayout {
  import opened Words
  import opened Loader
  import opened ImageFile

  /** The k low bytes of n, low byte first. */
  function Le(n: nat, k: nat): (s: seq<byte>)
    ensures |s| == k
  {
    if k == 0 then [] else [n % 256] + Le(n / 256, k - 1)
  }

  /** One field: its value and its width. */
  datatype Field = Field(value: nat, width: nat)

  predicate HoldsField(file: seq<byte>, at: nat, f: Field)
  {
    at + f.width <= |file| && file[at..at + f.width] == Le(f.value, f.width)
  }

  /** The fields stand one after another from `at` on. */
  predicate Laid(file: seq<byte>, at: nat, fields: seq<Field>)
    decreases |fields|
  {
    fields == [] || (HoldsField(file, at, fields[0]) && Laid(file, at + fields[0].width, fields[1..]))
  }

  function WidthTo(fields: seq<Field>, i: nat): nat
    requires i <= |fields|
  {
    if i == 0 then 0 else WidthTo(fields, i - 1) + fields[i - 1].width
  }

  lemma {:induction false} WidthTail(fields: seq<Field>, i: nat)
    requires 0 < i <= |fields|
    ensures WidthTo(fields, i) == fields[0].width + WidthTo(fields[1..], i - 1)
  {
    if i > 1 {
      WidthTail(fields, i - 1);
    }
  }

  /** Each field stands after the widths of those before it. */
  lemma {:induction false} FieldAt(file: seq<byte>, at: nat, fields: seq<Field>, i: nat)
    requires Laid(file, at, fields) && i < |fields|
    ensures HoldsField(file, at + WidthTo(fields, i), fields[i])
    decreases |fields|
  {
    if i > 0 {
      FieldAt(file, at + fields[0].width, fields[1..], i - 1);
      WidthTail(fields, i);
    }
  }

  // ---- numbers ----

  function Shift(k: nat): (m: nat)
    ensures m > 0
  {
    if k == 0 then 1 else 256 * Shift(k - 1)
  }

  function Value(s: seq<byte>): nat { if s == [] then 0 else s[0] as int + 256 * Value(s[1..]) }

  lemma {:induction false} ValueOfLe(n: nat, k: nat)
    requires n < Shift(k)
    ensures Value(Le(n, k)) == n
  {
    if k > 0 {
      assert n / 256 < Shift(k - 1);
      ValueOfLe(n / 256, k - 1);
      assert Le(n, k)[1..] == Le(n / 256, k - 1);
    }
  }

  lemma ValueOfTwo(s: seq<byte>)
    requires |s| == 2
    ensures Value(s) == s[0] as int + 0x100 * s[1] as int
  {
    var t := s[1..];
    assert t[0] == s[1] && t[1..] == [];
    assert Value(t) == t[0] as int + 256 * Value(t[1..]);
  }

  lemma ValueSteps(s: seq<byte>)
    requires |s| >= 2
    ensures Value(s) == Value(s[..2]) + 0x1_0000 * Value(s[2..])
  {
    var t := s[1..];
    assert t[1..] == s[2..] && t[0] == s[1];
    assert Value(s) == s[0] as int + 256 * Value(t);
    assert Value(t) == t[0] as int + 256 * Value(t[1..]);
    ValueOfTwo(s[..2]);
  }

  lemma ValueOfFour(s: seq<byte>)
    requires |s| == 4
    ensures Value(s) == Value(s[..2]) + 0x1_0000 * Value(s[2..])
  {
    ValueSteps(s);
  }

  lemma ValueOfEight(s: seq<byte>)
    requires |s| == 8
    ensures Value(s) == Value(s[..4]) + 0x1_0000_0000 * Value(s[4..])
  {
    ValueOfFour(s[..4]);
    var t := s[2..];
    ValueSteps(s);
    ValueSteps(t);
    assert t[2..] == s[4..] && s[..4][..2] == s[..2] && s[..4][2..] == t[..2];
  }

  lemma U16Value(file: seq<byte>, at: nat)
    requires at + 2 <= |file|
    ensures U16(file, at) == Value(file[at..at + 2])
  {
    ValueOfTwo(file[at..at + 2]);
  }

  lemma U32Value(file: seq<byte>, at: nat)
    requires at + 4 <= |file|
    ensures U32(file, at) == Value(file[at..at + 4])
  {
    var s := file[at..at + 4];
    assert s[..2] == file[at..at + 2] && s[2..] == file[at + 2..at + 2 + 2];
    U16Value(file, at);
    U16Value(file, at + 2);
    ValueOfFour(s);
  }

  lemma U64Value(file: seq<byte>, at: nat)
    requires at + 8 <= |file|
    ensures U64(file, at) == Value(file[at..at + 8])
  {
    var s := file[at..at + 8];
    assert s[..4] == file[at..at + 4] && s[4..] == file[at + 4..at + 4 + 4];
    U32Value(file, at);
    U32Value(file, at + 4);
    ValueOfEight(s);
  }

  lemma ReadU16(file: seq<byte>, at: nat, n: nat)
    requires HoldsField(file, at, Field(n, 2)) && n < 0x1_0000
    ensures U16(file, at) == n
  {
    assert Shift(1) == 0x100 && Shift(2) == 0x1_0000;
    U16Value(file, at);
    ValueOfLe(n, 2);
  }

  lemma ReadU32(file: seq<byte>, at: nat, n: nat)
    requires HoldsField(file, at, Field(n, 4)) && n < 0x1_0000_0000
    ensures U32(file, at) == n
  {
    assert Shift(2) == 0x1_0000 && Shift(4) == 0x1_0000_0000;
    U32Value(file, at);
    ValueOfLe(n, 4);
  }

  lemma ReadU64(file: seq<byte>, at: nat, n: u64)
    requires HoldsField(file, at, Field(n, 8))
    ensures U64(file, at) == n
  {
    assert Shift(2) == 0x1_0000 && Shift(4) == 0x1_0000_0000 && Shift(6) == 0x1_0000_0000_0000;
    assert Shift(8) == 0x1_0000_0000_0000_0000;
    U64Value(file, at);
    ValueOfLe(n, 8);
  }

  // ---- the two headers ----

  /** Elf64_Phdr: p_type, p_flags, p_offset, p_vaddr, p_paddr, p_filesz, p_memsz and
      p_align. */
  function PhdrFields(kind: nat, flags: nat, offset: u64, vaddr: u64, paddr: u64, filesz: u64, memsz: u64, align: u64)
    : (fields: seq<Field>)
    ensures |fields| == 8
  {
    [Field(kind, 4), Field(flags, 4), Field(offset, 8), Field(vaddr, 8), Field(paddr, 8), Field(filesz, 8),
     Field(memsz, 8), Field(align, 8)]
  }

  /** A program header is read back, whatever its unused fields hold. */
  lemma PhdrRead(file: seq<byte>, at: nat, kind: nat, flags: nat, offset: u64, vaddr: u64, paddr: u64, filesz: u64,
                 memsz: u64, align: u64)
    requires kind < 0x1_0000_0000 && flags < 0x1_0000_0000 && at + 56 <= |file|
    requires Laid(file, at, PhdrFields(kind, flags, offset, vaddr, paddr, filesz, memsz, align))
    ensures PhdrAt(file, at) == Phdr(kind == 1, flags, offset, vaddr, filesz, memsz)
  {
    var fields := PhdrFields(kind, flags, offset, vaddr, paddr, filesz, memsz, align);
    PhdrOffsets(fields);
    FieldAt(file, at, fields, 0);
    FieldAt(file, at, fields, 1);
    FieldAt(file, at, fields, 2);
    FieldAt(file, at, fields, 3);
    FieldAt(file, at, fields, 5);
    FieldAt(file, at, fields, 6);
    ReadU32(file, at, kind);
    ReadU32(file, at + 4, flags);
    ReadU64(file, at + 8, offset);
    ReadU64(file, at + 16, vaddr);
    ReadU64(file, at + 32, filesz);
    ReadU64(file, at + 40, memsz);
  }

  lemma PhdrOffsets(fields: seq<Field>)
    requires |fields| == 8 && fields[0].width == fields[1].width == 4
    requires forall i :: 2 <= i < 8 ==> fields[i].width == 8
    ensures WidthTo(fields, 0) == 0 && WidthTo(fields, 1) == 4 && WidthTo(fields, 2) == 8 && WidthTo(fields, 3) == 16
    ensures WidthTo(fields, 5) == 32 && WidthTo(fields, 6) == 40
  {
    assert WidthTo(fields, 1) == 4;
    assert WidthTo(fields, 2) == 8;
    assert WidthTo(fields, 3) == 16;
    assert WidthTo(fields, 4) == 24;
    assert WidthTo(fields, 5) == 32;
  }

  /** Elf64_Ehdr after its 16 identification bytes: e_type, e_machine, e_version,
      e_entry, e_phoff, e_shoff, e_flags, e_ehsize, e_phentsize, e_phnum and the
      three section fields. */
  datatype EhdrRest = EhdrRest(kind: nat, machine: nat, version: nat, entry: u64, phoff: u64, shoff: u64, flags: nat,
                               ehsize: nat, phentsize: nat, phnum: nat, shentsize: nat, shnum: nat, shstrndx: nat)

  function EhdrFields(e: EhdrRest): (fields: seq<Field>)
    ensures |fields| == 13
  {
    [Field(e.kind, 2), Field(e.machine, 2), Field(e.version, 4), Field(e.entry, 8), Field(e.phoff, 8),
     Field(e.shoff, 8), Field(e.flags, 4), Field(e.ehsize, 2), Field(e.phentsize, 2), Field(e.phnum, 2),
     Field(e.shentsize, 2), Field(e.shnum, 2), Field(e.shstrndx, 2)]
  }

  /** The file header is read back. */
  lemma EhdrRead(file: seq<byte>, e: EhdrRest)
    requires |file| >= 64 && Laid(file, 16, EhdrFields(e))
    requires e.kind < 0x1_0000 && e.machine < 0x1_0000 && e.phentsize < 0x1_0000 && e.phnum < 0x1_0000
    ensures HeaderOf(file) == Ehdr(file[..16], e.kind, e.machine, e.phentsize, e.entry, e.phoff)
    ensures CountOf(file) == e.phnum
  {
    var fields := EhdrFields(e);
    EhdrOffsets(fields);
    FieldAt(file, 16, fields, 0);
    FieldAt(file, 16, fields, 1);
    FieldAt(file, 16, fields, 3);
    FieldAt(file, 16, fields, 4);
    FieldAt(file, 16, fields, 8);
    FieldAt(file, 16, fields, 9);
    ReadU16(file, 16, e.kind);
    ReadU16(file, 18, e.machine);
    ReadU64(file, 24, e.entry);
    ReadU64(file, 32, e.phoff);
    ReadU16(file, 54, e.phentsize);
    ReadU16(file, 56, e.phnum);
  }

  lemma EhdrOffsets(fields: seq<Field>)
    requires |fields| == 13 && fields[0].width == fields[1].width == 2 && fields[2].width == 4
    requires fields[3].width == fields[4].width == fields[5].width == 8 && fields[6].width == 4
    requires fields[7].width == fields[8].width == 2
    ensures WidthTo(fields, 0) == 0 && WidthTo(fields, 1) == 2 && WidthTo(fields, 3) == 8 && WidthTo(fields, 4) == 16
    ensures WidthTo(fields, 8) == 38 && WidthTo(fields, 9) == 40
  {
    assert WidthTo(fields, 1) == 2;
    assert WidthTo(fields, 2) == 4;
    assert WidthTo(fields, 3) == 8;
    assert WidthTo(fields, 4) == 16;
    assert WidthTo(fields, 5) == 24;
    assert WidthTo(fields, 6) == 32;
    assert WidthTo(fields, 7) == 36;
    assert WidthTo(fields, 8) == 38;
  }
}
