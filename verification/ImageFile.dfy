/** Mapping an image from its file: the headers the loader acts on are decoded
    from the file's own bytes, and every read or close may fail. */
module ImageFile {
  import opened Words
  import opened Tracker
  import opened Memory
  import opened Loader
  import opened Image

  const HEADER_BYTES: int := 64
  const PT_LOAD: int := 1

  // ---- little-endian fields ----

  function U16(file: seq<byte>, at: nat): (v: nat)
    requires at + 2 <= |file|
    ensures v < 0x1_0000
  {
    file[at] as int + 0x100 * file[at + 1] as int
  }

  function U32(file: seq<byte>, at: nat): (v: nat)
    requires at + 4 <= |file|
    ensures v < 0x1_0000_0000
  {
    U16(file, at) + 0x1_0000 * U16(file, at + 2)
  }

  function U64(file: seq<byte>, at: nat): u64
    requires at + 8 <= |file|
  {
    U32(file, at) + 0x1_0000_0000 * U32(file, at + 4)
  }

  function HeaderOf(file: seq<byte>): Ehdr
    requires HEADER_BYTES <= |file|
  {
    Ehdr(file[..16], U16(file, 16), U16(file, 18), U16(file, 54), U64(file, 24), U64(file, 32))
  }

  /** How many program headers the file announces. */
  function CountOf(file: seq<byte>): nat
    requires HEADER_BYTES <= |file|
  {
    U16(file, 56)
  }

  function PhdrAt(file: seq<byte>, at: nat): Phdr
    requires at + 56 <= |file|
  {
    Phdr(U32(file, at) == PT_LOAD, U32(file, at + 4), U64(file, at + 8), U64(file, at + 16),
         U64(file, at + 32), U64(file, at + 40))
  }

  /** The first n program headers. */
  function TableOf(file: seq<byte>, phoff: nat, n: nat): (ph: seq<Phdr>)
    requires phoff + 56 * n <= |file|
    ensures |ph| == n && forall i :: 0 <= i < n ==> ph[i] == PhdrAt(file, phoff + 56 * i)
  {
    if n == 0 then [] else TableOf(file, phoff, n - 1) + [PhdrAt(file, phoff + 56 * (n - 1))]
  }

  // ---- mapping ----

  /** Which of the loader's own calls succeed: fstat on a regular file, the two
      reads and the close. */
  datatype Io = Io(stat: bool, header: bool, table: bool, closed: bool)

  predicate HeaderRead(io: Io, file: seq<byte>) { io.stat && HEADER_BYTES <= |file| && io.header }

  /** The tests made before the table is read. */
  predicate Announces(file: seq<byte>)
    requires HEADER_BYTES <= |file|
  {
    var h, n := HeaderOf(file), CountOf(file);
    Recognised(h) && 0 < n <= 32 && h.phoff <= 65536 && h.phoff <= |file| && 56 * n <= |file| - h.phoff
  }

  function Headers(file: seq<byte>): seq<Phdr>
    requires HEADER_BYTES <= |file| && Announces(file)
  {
    TableOf(file, HeaderOf(file).phoff, CountOf(file))
  }

  /** The code a file is refused with before anything is mapped; 0 for none. */
  ghost function Refusal(io: Io, file: seq<byte>): nat
  {
    if !HeaderRead(io, file) then 95
    else if !Announces(file) then 96
    else if !io.table then 97
    else HeaderRefusal(HeaderOf(file), Headers(file), |file|)
  }

  /** The whole of the image mapping: a file is refused, with the first failing
      test's code and nothing changed, exactly as `Refusal` says; a mapped one is
      mapped as its own headers ask; and a failing close ends the process. */
  method MapExecutable(m: Machine, ctl: Control, private: bool, fd: u64, io: Io)
    returns (r: Mapped, ghost lo: u64, ghost hi: u64, ghost base: int, ghost region: u64)
    requires m.Valid() && ctl.Valid() && fd in m.mem.files
    modifies m, ctl`mapCount, ctl`codeCount, ctl.maps, ctl.code
    ensures ctl.Valid()
    ensures var file := old(m.mem.files)[fd]; var code := Refusal(io, file);
      && (code != 0 ==> r == Ended(code) && m.mem == old(m.mem) && ctl.Contents() == old(ctl.Contents()))
      && (r.Mapped? ==>
            && code == 0 && io.closed
            && ImageMapped(old(m.mem), m.mem, old(ctl.Contents()), ctl.Contents(), file, HeaderOf(file), Headers(file),
                           lo, hi, base, r, private))
      && (code == 0 && r.Ended? ==>
            || (r.code == 106 && !io.closed)
            || (&& lo < hi && Spans(Headers(file), |file|, lo, hi)
                && ImageStopped(r.code, m.last, ctl.Contents(), private, fd, Headers(file), |file|, lo, hi, region)))
  {
    lo, hi, base, region := 0, 0, 0, 0;
    var file := m.mem.files[fd];
    if !HeaderRead(io, file) { return Ended(95), lo, hi, base, region; }
    if !Announces(file) { return Ended(96), lo, hi, base, region; }
    if !io.table { return Ended(97), lo, hi, base, region; }
    var h, ph := HeaderOf(file), Headers(file);
    assert Refusal(io, file) == HeaderRefusal(h, ph, |file|);
    r, lo, hi, base, region := MapImage(m, ctl, private, fd, h, ph, |file|);
    if r.Mapped? && !io.closed { r := Ended(106); }
  }
}
