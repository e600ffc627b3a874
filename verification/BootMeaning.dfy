/** What the bootstrap's own steps do, said outright: when each one goes on, what it
    returns and what it records. */
module BootMeaning {
  import opened Words
  import opened Extents
  import opened Memory
  import opened Relay
  import opened RelayMeaning
  import opened Boot
  import opened Room

  /** The step goes on with these words recorded over [lo, hi) and nothing else of
      the state but memory changed. */
  ghost predicate Records(st: State, reply: Reply, o: Outcome, lo: int, hi: int, w: Attr)
  {
    && o.Running? && o.st == st.(maps := o.st.maps, mem := reply.mem)
    && forall a: int :: Lookup(o.st.maps, a) == if lo <= a < hi then Some(w) else Lookup(st.maps, a)
  }

  /** With at most 62 extents held, a reservation or packet of whole pages goes on
      exactly when the kernel put it where it was asked to; it is then recorded as
      it was asked for, the placing bits aside. */
  lemma InstallMeans(st: State, x: Args, code: nat, reply: Reply)
    requires Canonical(st.maps) && |st.maps| <= 62
    requires !Executable(x.a2) && Aligned(x.a0) && Aligned(x.a0 + x.a1) && 0 < x.a1 && x.a0 + x.a1 <= MAX64
    ensures var o := InstallStep(st, x, code, reply);
      if reply.result == x.a0
      then o.Running? && o.result == x.a0 && Records(st, reply, o, x.a0, x.a0 + x.a1, Attr(x.a2, Bare(x.a3)))
      else o == Terminal(code, reply.mem)
  {
    UnplacedIsBare(x.a3);
    RecordSucceeds(st.maps, x.a0, x.a0 + x.a1, x.a2, Unplaced(x.a3));
  }

  /** Sealing the resume page goes on exactly when the kernel reprotects it; the page
      is then recorded as read-only. */
  lemma SealMeans(st: State, reply: Reply)
    requires Canonical(st.maps) && |st.maps| <= 62
    ensures var o := SealStep(st, reply);
      if reply.result == 0
      then o.Running? && o.result == 0 && Records(st, reply, o, 0x5300_0000_3000, 0x5300_0000_4000, Attr(1, 0x22))
      else o == Terminal(134, reply.mem)
  {
    ResumeRange(RESUME_ADDR);
    assert RESUME_ADDR + 4096 == PageAt(0x5_3000_0004);
    RecordSucceeds(st.maps, RESUME_ADDR, RESUME_ADDR + 4096, PROT_READ, MAP_PRIVATE_ANONYMOUS);
  }

  /** Capturing the process state goes on exactly when the break region was reserved
      at its address; the break then starts at its base, above it all is recorded as
      inaccessible. */
  lemma CaptureMeans(st: State, reply: Reply)
    requires Canonical(st.maps) && |st.maps| <= 62
    ensures var o := CaptureStep(st, reply);
      var t := st.(captured := true, brkBase := 0x5400_0000_0000, brkCurrent := 0x5400_0000_0000,
                   brkEnd := 0x5400_0080_0000);
      if reply.result == 0x5400_0000_0000
      then o.Running? && Records(t, reply, o, 0x5400_0000_0000, 0x5400_0080_0000, Attr(0, 0x22))
      else o == Terminal(129, reply.mem)
  {
    assert BRK_BASE == PageAt(0x5_4000_0000) && BRK_END == PageAt(0x5_4000_0800);
    RecordSucceeds(st.maps, BRK_BASE, BRK_END, PROT_NONE, MAP_PRIVATE_ANONYMOUS);
  }
}
