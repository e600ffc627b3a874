/** The bootstrap's image mappings on the live control block and machine. */
module BootMachine {
  import opened Words
  import opened Extents
  import opened TrackSpec
  import opened Tracker
  import opened Memory
  import opened Relay
  import opened RelayProofs
  import opened Loader
  import opened Image
  import opened ImageFile
  import opened Boot
  import opened RelayMachine

  lemma LoadOf(st: State, file: seq<byte>, h: Ehdr, ph: seq<Phdr>, lo: u64, hi: u64, base: int, r: Mapped,
               private: bool,
               maps: seq<Extent>, mem: Memory)
    returns (l: Load)
    requires r.Mapped? && Canonical(maps) && |maps| <= CAPACITY
    requires ImageMapped(st.mem, mem, st.maps, maps, file, h, ph, lo, hi, base, r, private)
    ensures l.private == private && l.file == file && l.at == r && LoadedBy(st, l, maps, mem)
  {
    l := Load(private, file, h, ph, lo, hi, base, r);
  }

  /** Mapping an image moves memory and tracker, and nothing else of the state. */
  method MapImageOf(ctl: Control, m: Machine, private: bool, fd: u64, io: Io) returns (r: Mapped, ghost l: Option<Load>)
    requires Ready(ctl, m) && fd in m.mem.files
    modifies ctl`mapCount, ctl`codeCount, ctl.maps, ctl.code, m
    ensures ctl.Valid()
    ensures StateOf(ctl, m) == old(StateOf(ctl, m)).(maps := ctl.Contents(), mem := m.mem)
    ensures r.Mapped? ==>
      && l.Some? && l.value.private == private && l.value.file == old(m.mem.files)[fd] && l.value.at == r
      && LoadedBy(old(StateOf(ctl, m)), l.value, ctl.Contents(), m.mem)
  {
    ghost var st, file := StateOf(ctl, m), m.mem.files[fd];
    ghost var lo, hi, base, region;
    r, lo, hi, base, region := MapExecutable(m, ctl, private, fd, io);
    l := None;
    if r.Mapped? {
      ghost var load := LoadOf(st, file, HeaderOf(file), Headers(file), lo, hi, base, r, private,
                               ctl.Contents(), m.mem);
      l := Some(load);
    }
  }

  method NoteGuest(ctl: Control, m: Machine, lo: u64, hi: u64)
    requires ctl.Valid()
    modifies ctl`guestLo, ctl`guestHi
    ensures ctl.Valid() && StateOf(ctl, m) == old(StateOf(ctl, m)).(guestLo := lo, guestHi := hi)
  {
    ctl.guestLo, ctl.guestHi := lo, hi;
  }

  lemma LoadKeeps(st: State, l: Load, maps: seq<Extent>, mem: Memory)
    requires LoadedBy(st, l, maps, mem)
    ensures Inv(st) ==> Inv(AfterLoad(st, l, maps, mem))
    ensures !l.private ==> maps == st.maps
  {
    if Inv(st) {
      ImageKeeps(st, l, maps, mem);
    }
  }

  /** Map an image and, for the guest's, note its bounds: exactly the load that runs
      may contain, so the invariant survives it. */
  method MapFor(ctl: Control, m: Machine, private: bool, fd: u64, io: Io) returns (r: Mapped, ghost l: Option<Load>)
    requires Ready(ctl, m) && fd in m.mem.files
    modifies ctl`mapCount, ctl`codeCount, ctl`guestLo, ctl`guestHi, ctl.maps, ctl.code, m
    ensures ctl.Valid()
    ensures r.Mapped? ==>
      && l.Some? && l.value.private == private && l.value.file == old(m.mem.files)[fd] && l.value.at == r
      && LoadedBy(old(StateOf(ctl, m)), l.value, ctl.Contents(), m.mem)
      && StateOf(ctl, m) == AfterLoad(old(StateOf(ctl, m)), l.value, ctl.Contents(), m.mem)
    ensures r.Mapped? && Inv(old(StateOf(ctl, m))) ==> Inv(StateOf(ctl, m))
  {
    ghost var st := StateOf(ctl, m);
    r, l := MapImageOf(ctl, m, private, fd, io);
    if r.Ended? { return; }
    LoadKeeps(st, l.value, ctl.Contents(), m.mem);
    if !private {
      NoteGuest(ctl, m, r.lo, r.hi);
    }
  }
}
