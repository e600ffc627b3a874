/** Where a relayed call may come from, said of the page map alone. */
module Admission {
  import opened Words
  import opened Extents
  import opened Memory
  import opened Relay
  import opened RelayProofs
  import opened RelayMeaning
  import opened Runs

  /** ip, and the two bytes before it, have the same executable words. */
  predicate AtCode(s: seq<Extent>, ip: u64)
  {
    && ip >= 2 && Lookup(s, ip).Some? && Executable(Lookup(s, ip).value.prot)
    && Lookup(s, ip - 2) == Lookup(s, ip) && Lookup(s, ip - 1) == Lookup(s, ip)
  }

  lemma InCodeMeans(s: seq<Extent>, ip: u64)
    requires Sorted(s) && Separated(s)
    ensures InCode(s, ip) <==> AtCode(s, ip)
  {
    if InCode(s, ip) {
      var i :| 0 <= i < |s| && Executable(s[i].prot) && s[i].lo <= ip - 2 && ip < s[i].hi;
      LookupAt(s, i, ip);
      LookupAt(s, i, ip - 1);
      LookupAt(s, i, ip - 2);
    }
    if AtCode(s, ip) {
      var w := Lookup(s, ip).value;
      var i := LookupSome(s, ip - 2);
      var j := LookupSome(s, ip);
      assert ip < s[j].hi;
      ReachesEnd(s, i, ip - 2, ip + 1, w);
    }
  }

  /** A call is admitted exactly from the end of a `syscall` instruction (0f 05) whose
      bytes, and the one after them, are tracked with the same executable words. */
  lemma AdmitsExactly(st: State, ip: u64)
    requires Inv(st)
    ensures AcceptsIp(st.maps, st.mem, ip) <==>
      && AtCode(st.maps, ip)
      && At(st.mem, ip - 2).Some? && At(st.mem, ip - 2).value.byte == 0x0f
      && At(st.mem, ip - 1).Some? && At(st.mem, ip - 1).value.byte == 0x05
  {
    InCodeMeans(st.maps, ip);
  }
}
