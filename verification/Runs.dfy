/** Whole runs after the process state is captured: any interleaving of the
    bootstrap's own mappings and images, relayed calls, break requests, phase
    changes and stores by the tool, with the kernel free in each answer. */
module Runs {
  import opened Words
  import opened Extents
  import opened TrackSpec
  import opened Memory
  import opened Relay
  import opened RelayProofs
  import opened Boot
  import Image

  datatype Event =
    | Installed(x: Args, code: nat, reply: Reply)
    | Sealed(reply: Reply)
    | Imaged(load: Load, maps: seq<Extent>, mem: Memory)
    | Entered(phase: u64)
    | Relayed(nr: Nr, x: Args, reply: Reply)
    | Break(requested: u64, protect: Reply, discard: Reply)
    | Stored(a: int, b: byte)

  /** The page that holds the tracker itself. */
  predicate InControl(a: int) { CONTROL_ADDR <= a < CONTROL_ADDR + PAGE }

  /** The kernel answered as it may; the guest's image is mapped once; and a store
      hit a writable page other than the control block's own. */
  ghost predicate Admissible(st: State, e: Event)
  {
    match e
    case Installed(x, _, reply) => DataArgs(x) && Answers(st.mem, Mmap, x, reply)
    case Sealed(reply) => ResumeReserved(st) && Answers(st.mem, Mprotect, RESUME_ARGS, reply)
    case Imaged(load, maps, mem) => LoadedBy(st, load, maps, mem) && (load.private || st.guestHi == 0)
    case Entered(_) => true
    case Relayed(nr, x, reply) => Answers(st.mem, nr, x, reply)
    case Break(requested, protect, discard) => BrkAnswers(st, requested, protect, discard)
    case Stored(a, _) => a in st.mem.cells && Writable(st.mem.cells[a].how.access) && !InControl(a)
  }

  function Poke(m: Memory, a: int, b: byte): Memory
    requires a in m.cells
  {
    m.(cells := m.cells[a := Cell(m.cells[a].how, b)])
  }

  ghost function Step(st: State, e: Event): Outcome
    requires Admissible(st, e) && Nonempty(st.maps)
  {
    match e
    case Installed(x, code, reply) => InstallStep(st, x, code, reply)
    case Sealed(reply) => SealStep(st, reply)
    case Imaged(load, maps, mem) => Running(AfterLoad(st, load, maps, mem), load.at.lo)
    case Entered(phase) => Running(st.(phase := phase), 0)
    case Relayed(nr, x, reply) => RelayStep(st, nr, x, reply)
    case Break(requested, protect, discard) => BrkStep(st, requested, protect, discard)
    case Stored(a, b) => Running(st.(mem := Poke(st.mem, a, b)), 0)
  }

  /** `o` is where the events lead; nothing happens after a terminal step. */
  ghost predicate Leads(st: State, es: seq<Event>, o: Outcome)
    decreases |es|
  {
    if es == [] then o.Running? && o.st == st
    else
      && Admissible(st, es[0]) && Nonempty(st.maps)
      && var next := Step(st, es[0]);
         if next.Terminal? then o == next else Leads(next.st, es[1..], o)
  }

  // ---- what a run must leave alone ----

  predicate InGuest(st: State, a: int) { st.guestLo <= a < st.guestHi }

  predicate InBreak(a: int) { BRK_BASE <= a < BRK_END }

  /** Mapped, and either not the tool's or in a forbidden range other than the
      break's own. */
  predicate Kept(st: State, a: int)
  {
    Foreign(st, a) || (At(st.mem, a).Some? && ForbiddenAt(st, a) && !InBreak(a))
  }

  /** What may have been done to an address on purpose: a store to it, or the seal
      of the resume page it lies in. */
  datatype Touched = Touched(stored: bool, sealed: bool)
  {
    function Or(t: Touched): Touched { Touched(stored || t.stored, sealed || t.sealed) }
  }

  const UNTOUCHED: Touched := Touched(false, false)

  /** A kept address stays kept; only sealing changes how it is mapped, and only a
      store changes its byte. The only addresses that become foreign are the guest
      image's. */
  predicate PreservedAt(st: State, how: Touched, o: Outcome, a: int)
  {
    && (Kept(st, a) ==>
          && At(MemOf(o), a).Some?
          && (!how.sealed ==> MemOf(o).cells[a].how == st.mem.cells[a].how)
          && (!how.stored ==> MemOf(o).cells[a].byte == st.mem.cells[a].byte)
          && (o.Running? ==> Kept(o.st, a)))
    && (o.Running? ==>
          && (Foreign(st, a) ==> Foreign(o.st, a))
          && (Foreign(o.st, a) ==> Foreign(st, a) || InGuest(o.st, a))
          && (InGuest(st, a) ==> InGuest(o.st, a)))
  }

  lemma PreservedThen(st: State, how: Touched, next: State, result: u64, later: Touched, o: Outcome, a: int)
    requires PreservedAt(st, how, Running(next, result), a) && PreservedAt(next, later, o, a)
    ensures PreservedAt(st, how.Or(later), o, a)
  {
  }

  function TouchedBy(e: Event, a: int): Touched { Touched(e.Stored? && e.a == a, e.Sealed? && InResume(a)) }

  lemma InstallPreserves(st: State, x: Args, code: nat, reply: Reply, a: int)
    requires Inv(st) && DataArgs(x) && Answers(st.mem, Mmap, x, reply)
    ensures PreservedAt(st, UNTOUCHED, InstallStep(st, x, code, reply), a)
  {
    InstallKeeps(st, x, code, reply);
  }

  lemma SealPreserves(st: State, reply: Reply, a: int)
    requires Inv(st) && ResumeReserved(st) && Answers(st.mem, Mprotect, RESUME_ARGS, reply)
    ensures PreservedAt(st, Touched(false, InResume(a)), SealStep(st, reply), a)
  {
    SealAt(st, reply, a);
  }

  lemma ImagePreserves(st: State, l: Load, maps: seq<Extent>, mem: Memory, a: int)
    requires Inv(st) && LoadedBy(st, l, maps, mem) && (l.private || st.guestHi == 0)
    ensures PreservedAt(st, UNTOUCHED, Running(AfterLoad(st, l, maps, mem), l.at.lo), a)
  {
    ImageForeign(st, l, maps, mem, a);
  }

  lemma RelayPreserves(st: State, nr: Nr, x: Args, reply: Reply, a: int)
    requires Inv(st) && Answers(st.mem, nr, x, reply)
    ensures PreservedAt(st, UNTOUCHED, RelayStep(st, nr, x, reply), a)
  {
    RelayKeeps(st, nr, x, reply);
    assert UntouchedAt(st, RelayStep(st, nr, x, reply), a);
  }

  lemma BreakPreserves(st: State, requested: u64, protect: Reply, discard: Reply, a: int)
    requires Inv(st) && BrkAnswers(st, requested, protect, discard)
    ensures PreservedAt(st, UNTOUCHED, BrkStep(st, requested, protect, discard), a)
  {
    BrkStepKeeps(st, requested, protect, discard);
    assert BrkAt(st, a);
  }

  lemma StorePreserves(st: State, a: int, b: byte, c: int)
    requires Inv(st) && Admissible(st, Stored(a, b))
    ensures PreservedAt(st, Touched(c == a, false), Step(st, Stored(a, b)), c)
  {
  }

  /** A store changes a byte of a page the kernel lets the tool write. No such
      page is above the break, is tracked code, or holds the tracker. */
  lemma StoreKeeps(st: State, a: int, b: byte)
    requires Inv(st) && Admissible(st, Stored(a, b))
    ensures Inv(st.(mem := Poke(st.mem, a, b)))
  {
    var t := st.(mem := Poke(st.mem, a, b));
    forall c: int ensures AgreesAt(t, c) && SafeAt(t.maps, c) && BrkAt(t, c) {
      assert AgreesAt(st, c) && SafeAt(st.maps, c) && BrkAt(st, c);
    }
  }

  /** A phase change moves no page and no record. */
  lemma PhaseKeeps(st: State, phase: u64)
    requires Inv(st)
    ensures Inv(st.(phase := phase))
  {
    var t := st.(phase := phase);
    forall c: int ensures AgreesAt(t, c) && SafeAt(t.maps, c) && BrkAt(t, c) {
      assert AgreesAt(st, c) && SafeAt(st.maps, c) && BrkAt(st, c);
    }
  }

  lemma StepPreserves(st: State, e: Event, a: int)
    requires Inv(st) && Admissible(st, e)
    ensures PreservedAt(st, TouchedBy(e, a), Step(st, e), a)
  {
    match e
    case Installed(x, code, reply) => InstallPreserves(st, x, code, reply, a);
    case Sealed(reply) => SealPreserves(st, reply, a);
    case Imaged(load, maps, mem) => ImagePreserves(st, load, maps, mem, a);
    case Entered(_) =>
    case Relayed(nr, x, reply) => RelayPreserves(st, nr, x, reply, a);
    case Break(requested, protect, discard) => BreakPreserves(st, requested, protect, discard, a);
    case Stored(c, b) => StorePreserves(st, c, b, a);
  }

  /** The images this event maps have no code beyond their files. */
  ghost predicate PlainImage(e: Event)
  {
    e.Imaged? && e.load.private ==>
      Image.Ascending(e.load.ph, |e.load.file|) && CodeFromFile(e.load.ph, |e.load.file|)
  }

  lemma StepKeepsInv(st: State, e: Event)
    requires Inv(st) && Admissible(st, e) && Step(st, e).Running?
    ensures Inv(Step(st, e).st)
    ensures PlainImage(e) && CodeBacked(st.maps) ==> CodeBacked(Step(st, e).st.maps)
  {
    var t := Step(st, e).st;
    match e
    case Installed(x, code, reply) => InstallKeeps(st, x, code, reply);
    case Sealed(reply) => SealKeeps(st, reply);
    case Imaged(load, maps, mem) =>
      ImageKeeps(st, load, maps, mem);
      if CodeBacked(st.maps) {
        ImageCode(st, load, maps, mem);
      }
    case Entered(phase) => PhaseKeeps(st, phase);
    case Relayed(nr, x, reply) => RelayKeeps(st, nr, x, reply);
    case Break(requested, protect, discard) => BrkStepKeeps(st, requested, protect, discard);
    case Stored(a, b) => StoreKeeps(st, a, b);
    if NoNewAnonymousCode(st.maps, t.maps) && CodeBacked(st.maps) {
      forall a: int ensures !AnonymousCodeAt(t.maps, a) {
        assert !AnonymousCodeAt(st.maps, a);
      }
    }
  }

  // ---- whole runs ----

  function TouchedIn(es: seq<Event>, a: int): Touched
  {
    if es == [] then UNTOUCHED else TouchedBy(es[0], a).Or(TouchedIn(es[1..], a))
  }

  /** Touched in a run means by one of its events. */
  lemma {:induction false} TouchedMeans(es: seq<Event>, a: int)
    ensures TouchedIn(es, a).stored <==> exists i :: 0 <= i < |es| && es[i].Stored? && es[i].a == a
    ensures TouchedIn(es, a).sealed <==> InResume(a) && exists i :: 0 <= i < |es| && es[i].Sealed?
  {
    if es != [] {
      TouchedMeans(es[1..], a);
      assert forall i :: 0 < i < |es| ==> es[i] == es[1..][i - 1];
    }
  }

  /** Safety of every run: from a state where tracker and kernel agree, they
      agree after every step that does not end the process; nothing tracked is
      writable and executable; and the break stays in its region over zeroed,
      inaccessible pages. */
  lemma {:induction false} RunSafe(st: State, es: seq<Event>, o: Outcome)
    requires Inv(st) && Leads(st, es, o)
    ensures o.Running? ==> Inv(o.st)
    decreases |es|
  {
    if es != [] && Step(st, es[0]).Running? {
      StepKeepsInv(st, es[0]);
      RunSafe(Step(st, es[0]).st, es[1..], o);
    }
  }

  /** Over every run, each mapped address that is foreign or forbidden stays so; how
      it is mapped changes only by sealing the resume page, and its byte only by a
      store to it; and only the guest image adds foreign addresses. */
  lemma {:induction false} RunPreserves(st: State, es: seq<Event>, o: Outcome, a: int)
    requires Inv(st) && Leads(st, es, o)
    ensures PreservedAt(st, TouchedIn(es, a), o, a)
    decreases |es|
  {
    if es != [] {
      var next := Step(st, es[0]);
      StepPreserves(st, es[0], a);
      if next.Running? {
        StepKeepsInv(st, es[0]);
        RunPreserves(next.st, es[1..], o, a);
        PreservedThen(st, TouchedBy(es[0], a), next.st, next.result, TouchedIn(es[1..], a), o, a);
      }
    }
  }

  lemma CapturePreserves(st: State, reply: Reply, a: int)
    requires Canonical(st.maps) && Answers(st.mem, Mmap, CAPTURE_ARGS, reply)
    ensures PreservedAt(st, UNTOUCHED, CaptureStep(st, reply), a)
  {
    CaptureLeaves(st, reply, a);
  }

  /** The same from the capture of the process state on. */
  lemma FromCapture(st: State, reply: Reply, es: seq<Event>, o: Outcome)
    requires Canonical(st.maps) && |st.maps| <= CAPACITY
    requires forall a: int :: AgreesAt(st, a) && SafeAt(st.maps, a)
    requires Answers(st.mem, Mmap, CAPTURE_ARGS, reply) && CaptureStep(st, reply).Running?
    requires Leads(CaptureStep(st, reply).st, es, o)
    ensures o.Running? ==> Inv(o.st)
    ensures CodeBacked(st.maps) && (forall i :: 0 <= i < |es| ==> PlainImage(es[i])) && o.Running? ==>
      CodeBacked(o.st.maps)
    ensures forall a: int :: PreservedAt(st, TouchedIn(es, a), o, a)
  {
    var t := CaptureStep(st, reply).st;
    CaptureEstablishes(st, reply);
    RunSafe(t, es, o);
    forall a: int ensures PreservedAt(st, TouchedIn(es, a), o, a) {
      CapturePreserves(st, reply, a);
      RunPreserves(t, es, o, a);
      PreservedThen(st, UNTOUCHED, t, CaptureStep(st, reply).result, TouchedIn(es, a), o, a);
    }
    if CodeBacked(st.maps) && forall i :: 0 <= i < |es| ==> PlainImage(es[i]) {
      forall a: int ensures !AnonymousCodeAt(t.maps, a) {
        assert !AnonymousCodeAt(st.maps, a);
      }
      RunCode(t, es, o);
    }
  }

  /** If tracked code was file backed and no image has code beyond its file, it
      still is after every run. */
  lemma {:induction false} RunCode(st: State, es: seq<Event>, o: Outcome)
    requires Inv(st) && Leads(st, es, o) && CodeBacked(st.maps)
    requires forall i :: 0 <= i < |es| ==> PlainImage(es[i])
    ensures o.Running? ==> CodeBacked(o.st.maps)
    decreases |es|
  {
    if es != [] && Step(st, es[0]).Running? {
      StepKeepsInv(st, es[0]);
      RunCode(Step(st, es[0]).st, es[1..], o);
    }
  }

  // ---- where calls are admitted from ----

  /** The two bytes before ip are a `syscall` instruction. */
  predicate IsSyscall(m: Memory, ip: u64)
    requires ip >= 2
  {
    && At(m, ip - 2).Some? && m.cells[ip - 2].byte == 0x0f
    && At(m, ip - 1).Some? && m.cells[ip - 1].byte == 0x05
  }

  /** Reading them, the second only after the first, meets an unmapped address. */
  predicate ReadFaults(m: Memory, ip: u64)
    requires ip >= 2
  {
    At(m, ip - 2) == None || (m.cells[ip - 2].byte == 0x0f && At(m, ip - 1) == None)
  }

  /** The instruction and the byte after it lie in one tracked executable extent. */
  predicate InCode(s: seq<Extent>, ip: u64)
  {
    ip >= 2 && exists i :: 0 <= i < |s| && Executable(s[i].prot) && s[i].lo <= ip - 2 && ip < s[i].hi
  }

  predicate AcceptsIp(s: seq<Extent>, m: Memory, ip: u64) { InCode(s, ip) && IsSyscall(m, ip) }

  predicate FaultsIp(s: seq<Extent>, m: Memory, ip: u64) { InCode(s, ip) && ReadFaults(m, ip) }

  /** Tracked code, and how the kernel maps it. */
  predicate CodeAt(st: State, a: int)
  {
    var t := Lookup(st.maps, a);
    && t.Some? && Executable(t.value.prot) && !Writable(t.value.prot)
    && (!InWindow(a) ==>
          var h := HowAt(st.mem, a);
          h.Some? && Executable(h.value.access) && !Writable(h.value.access)
          && h.value.anonymous == Anonymous(t.value.flags))
  }

  /** A call is admitted only from tracked code that neither the tracker nor the
      kernel lets anyone write; and, when tracked code is file backed, from a
      file. */
  lemma AdmittedFromCode(st: State, ip: u64)
    requires Inv(st) && AcceptsIp(st.maps, st.mem, ip)
    ensures CodeAt(st, ip - 2) && CodeAt(st, ip - 1)
    ensures CodeBacked(st.maps) ==> !AnonymousCodeAt(st.maps, ip - 2) && !AnonymousCodeAt(st.maps, ip - 1)
  {
    var s := st.maps;
    var i :| 0 <= i < |s| && Executable(s[i].prot) && s[i].lo <= ip - 2 && ip < s[i].hi;
    ExtentIsCode(st, i, ip - 2);
    ExtentIsCode(st, i, ip - 1);
  }

  lemma ExtentIsCode(st: State, i: nat, a: int)
    requires Inv(st) && i < |st.maps| && Executable(st.maps[i].prot) && Within(a, st.maps[i])
    ensures CodeAt(st, a)
  {
    LookupAt(st.maps, i, a);
    assert AgreesAt(st, a) && SafeAt(st.maps, a);
    AccessBits(st.maps[i].prot);
  }

  /** Under the invariant the check itself faults nowhere outside the window. */
  lemma CheckNeverFaults(st: State, ip: u64)
    requires Inv(st) && ip >= 2 && !InWindow(ip - 2) && !InWindow(ip - 1)
    ensures !FaultsIp(st.maps, st.mem, ip)
  {
    if InCode(st.maps, ip) {
      var s := st.maps;
      var i :| 0 <= i < |s| && Executable(s[i].prot) && s[i].lo <= ip - 2 && ip < s[i].hi;
      ExtentIsCode(st, i, ip - 2);
      ExtentIsCode(st, i, ip - 1);
    }
  }

  /** The access bits the kernel keeps decide what may be done. */
  lemma AccessBits(prot: u64)
    ensures Executable(prot % 8) == Executable(prot) && Writable(prot % 8) == Writable(prot)
  {
    var q, m := prot / 8, prot % 8;
    AddMultiple(m, 2 * q, 4);
  }
}
