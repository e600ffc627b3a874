/** The sealed bootstrap packet: three versions of one layout, an encoder that
    picks the version from what it has to say, and the decoder. */
module BootstrapPacket {
  import opened Words

  datatype Bootstrap = Bootstrap(coordinator: seq<byte>, stats: Option<seq<byte>>,
                                 sitePatching: Option<bool>, toolData: seq<byte>)

  /** A packet is not ours, ours and broken, or ours. */
  datatype Decoded = Absent | Invalid | Found(bootstrap: Bootstrap)

  const MAX_BYTES: nat := 4096

  /** "REVERIE-LI-Vn" followed by three zero bytes. */
  function Magic(version: int): (m: seq<byte>)
    requires 1 <= version <= 3
    ensures |m| == 16 && m[12] == 0x30 + version
  {
    [0x52, 0x45, 0x56, 0x45, 0x52, 0x49, 0x45, 0x2d, 0x4c, 0x49, 0x2d, 0x56, 0x30 + version, 0, 0, 0]
  }

  function HeaderBytes(version: int): nat
    requires 1 <= version <= 3
  {
    if version == 1 then 20 else if version == 2 then 22 else 23
  }

  function Le16(n: int): seq<byte>
    requires 0 <= n < 65536
  {
    [n % 256, n / 256]
  }

  function FromLe16(a: byte, b: byte): (n: int)
    ensures 0 <= n < 65536
  {
    a + 256 * b
  }

  /** The version that carries what the bootstrap says. */
  function VersionOf(b: Bootstrap): int
  {
    if b.sitePatching.Some? then 3 else if b.stats.Some? then 2 else 1
  }

  function StatsOf(b: Bootstrap): seq<byte> { if b.stats.Some? then b.stats.value else [] }

  /** The length fields and the selection byte. */
  function Lengths(version: int, path: int, stats: int, data: int, selection: byte): (h: seq<byte>)
    requires 1 <= version <= 3 && 0 <= path < 65536 && 0 <= stats < 65536 && 0 <= data < 65536
    ensures |h| + 16 == HeaderBytes(version)
  {
    if version == 1 then Le16(path) + Le16(data)
    else if version == 2 then Le16(path) + Le16(stats) + Le16(data)
    else Le16(path) + Le16(stats) + Le16(data) + [selection]
  }

  /** 0 unset, 1 on, 2 off. */
  function Selection(s: Option<bool>): byte
  {
    if s.None? then 0 else if s.value then 1 else 2
  }

  /** The encoder's refusals: a length that does not fit its field, an empty
      statistics path where only its presence selects the version, and a packet
      over the size limit. */
  predicate Encodable(b: Bootstrap)
  {
    && |b.coordinator| < 65536 && |b.toolData| < 65536 && |StatsOf(b)| < 65536
    && (VersionOf(b) == 2 ==> StatsOf(b) != [])
    && HeaderBytes(VersionOf(b)) + |b.coordinator| + |StatsOf(b)| + |b.toolData| <= MAX_BYTES
  }

  function Packet(b: Bootstrap): (p: seq<byte>)
    requires |b.coordinator| < 65536 && |b.toolData| < 65536 && |StatsOf(b)| < 65536
    ensures |p| == HeaderBytes(VersionOf(b)) + |b.coordinator| + |StatsOf(b)| + |b.toolData|
  {
    Magic(VersionOf(b))
    + Lengths(VersionOf(b), |b.coordinator|, |StatsOf(b)|, |b.toolData|, Selection(b.sitePatching))
    + b.coordinator + StatsOf(b) + b.toolData
  }

  /** The encoder, appending to one buffer. */
  method Encode(b: Bootstrap) returns (r: Option<seq<byte>>)
    ensures r.Some? <==> Encodable(b)
    ensures r.Some? ==> r.value == Packet(b)
  {
    if |b.coordinator| > 65535 || |b.toolData| > 65535 { return None; }
    var packet: seq<byte>;
    if b.sitePatching.Some? {
      var s := StatsOf(b);
      if |s| > 65535 { return None; }
      packet := Magic(3);
      packet := packet + Le16(|b.coordinator|);
      packet := packet + Le16(|s|);
      packet := packet + Le16(|b.toolData|);
      packet := packet + [if b.sitePatching.value then 1 else 2];
      assert packet == Magic(3) + Lengths(3, |b.coordinator|, |s|, |b.toolData|, Selection(b.sitePatching));
      packet := packet + b.coordinator;
      packet := packet + s;
    } else if b.stats.Some? {
      var s := b.stats.value;
      if |s| > 65535 || |s| == 0 { return None; }
      packet := Magic(2);
      packet := packet + Le16(|b.coordinator|);
      packet := packet + Le16(|s|);
      packet := packet + Le16(|b.toolData|);
      assert packet == Magic(2) + Lengths(2, |b.coordinator|, |s|, |b.toolData|, Selection(b.sitePatching));
      packet := packet + b.coordinator;
      packet := packet + s;
    } else {
      packet := Magic(1);
      packet := packet + Le16(|b.coordinator|);
      packet := packet + Le16(|b.toolData|);
      assert packet == Magic(1) + Lengths(1, |b.coordinator|, 0, |b.toolData|, Selection(b.sitePatching));
      packet := packet + b.coordinator;
      assert packet == packet + StatsOf(b);
    }
    packet := packet + b.toolData;
    assert packet == Packet(b);
    if |packet| > MAX_BYTES { return None; }
    r := Some(packet);
  }

  // ---- decoding ----

  /** Which version a packet announces, if any. */
  function Announced(p: seq<byte>): (v: Option<int>)
    ensures v.Some? ==> 1 <= v.value <= 3 && HeaderBytes(v.value) <= |p| <= MAX_BYTES && p[..16] == Magic(v.value)
  {
    if |p| < 20 || |p| > MAX_BYTES then None
    else if p[..16] == Magic(1) then Some(1)
    else if p[..16] == Magic(2) && |p| >= 22 then Some(2)
    else if p[..16] == Magic(3) && |p| >= 23 then Some(3)
    else None
  }

  function LengthAt(p: seq<byte>, index: nat): int
    requires 16 + 2 * index + 1 < |p|
  {
    FromLe16(p[16 + 2 * index], p[16 + 2 * index + 1])
  }

  function Decode(p: seq<byte>): Decoded
  {
    match Announced(p)
    case None => Absent
    case Some(version) => DecodeAs(p, version)
  }

  function DecodeAs(p: seq<byte>, version: int): Decoded
    requires 1 <= version <= 3 && |p| >= HeaderBytes(version)
  {
    var header := HeaderBytes(version);
    var path := LengthAt(p, 0);
    var stats := if version == 1 then 0 else LengthAt(p, 1);
    var data := if version == 1 then LengthAt(p, 1) else LengthAt(p, 2);
    if version == 3 && p[22] > 2 then Invalid
    else if |p| != header + path + stats + data || path == 0 || (version == 2 && stats == 0) then Invalid
    else
      Found(Bootstrap(p[header..header + path],
                      if stats > 0 then Some(p[header + path..header + path + stats]) else None,
                      if version != 3 || p[22] == 0 then None else Some(p[22] == 1),
                      p[header + path + stats..]))
  }

  // ---- round trips ----

  lemma Le16RoundTrip(n: int)
    requires 0 <= n < 65536
    ensures FromLe16(Le16(n)[0], Le16(n)[1]) == n
  {
  }

  lemma FromLe16RoundTrip(a: byte, b: byte)
    ensures Le16(FromLe16(a, b)) == [a, b]
  {
    var n := FromLe16(a, b);
    assert n / 256 == b && n % 256 == a;
  }

  /** Slicing a concatenation at its seams gives the parts back. */
  lemma Seams<T>(a: seq<T>, b: seq<T>, c: seq<T>, d: seq<T>, e: seq<T>)
    ensures var p := a + b + c + d + e;
      var i, j, k := |a| + |b|, |a| + |b| + |c|, |a| + |b| + |c| + |d|;
      p[..|a|] == a && p[|a|..i] == b && p[i..j] == c && p[j..k] == d && p[k..] == e
  {
  }

  /** The parts of a packet, by position. */
  lemma PacketParts(b: Bootstrap)
    requires Encodable(b)
    ensures var p, v := Packet(b), VersionOf(b);
      var h, c, s := HeaderBytes(v), |b.coordinator|, |StatsOf(b)|;
      && p[..16] == Magic(v)
      && p[16..h] == Lengths(v, c, s, |b.toolData|, Selection(b.sitePatching))
      && p[h..h + c] == b.coordinator
      && p[h + c..h + c + s] == StatsOf(b)
      && p[h + c + s..] == b.toolData
  {
    Seams(Magic(VersionOf(b)),
          Lengths(VersionOf(b), |b.coordinator|, |StatsOf(b)|, |b.toolData|, Selection(b.sitePatching)),
          b.coordinator, StatsOf(b), b.toolData);
  }

  lemma PacketAnnounces(b: Bootstrap)
    requires Encodable(b)
    ensures Announced(Packet(b)) == Some(VersionOf(b))
  {
    PacketParts(b);
    assert Packet(b)[..16][12] == 0x30 + VersionOf(b);
  }

  /** The numbers the decoder reads back are the lengths. */
  lemma PacketLengths(b: Bootstrap)
    requires Encodable(b)
    ensures var p, v := Packet(b), VersionOf(b);
      && LengthAt(p, 0) == |b.coordinator|
      && (v == 1 ==> LengthAt(p, 1) == |b.toolData|)
      && (v != 1 ==> LengthAt(p, 1) == |StatsOf(b)| && LengthAt(p, 2) == |b.toolData|)
      && (v == 3 ==> p[22] == Selection(b.sitePatching))
  {
    var p, v := Packet(b), VersionOf(b);
    PacketParts(b);
    HeaderRead(p, v, |b.coordinator|, |StatsOf(b)|, |b.toolData|, Selection(b.sitePatching));
  }

  lemma HeaderRead(p: seq<byte>, v: int, path: int, stats: int, data: int, selection: byte)
    requires 1 <= v <= 3 && 0 <= path < 65536 && 0 <= stats < 65536 && 0 <= data < 65536
    requires HeaderBytes(v) <= |p| && p[16..HeaderBytes(v)] == Lengths(v, path, stats, data, selection)
    ensures LengthAt(p, 0) == path
    ensures v == 1 ==> LengthAt(p, 1) == data
    ensures v != 1 ==> LengthAt(p, 1) == stats && LengthAt(p, 2) == data
    ensures v == 3 ==> p[22] == selection
  {
    var l := p[16..HeaderBytes(v)];
    assert p[16] == l[0] && p[17] == l[1] && p[18] == l[2] && p[19] == l[3];
    assert v != 1 ==> p[20] == l[4] && p[21] == l[5];
    Le16RoundTrip(path);
    Le16RoundTrip(stats);
    Le16RoundTrip(data);
  }

  /** A 16-bit length at this place, low byte first. */
  predicate LengthIs(p: seq<byte>, at: nat, n: int)
  {
    at + 1 < |p| && p[at] as int + 256 * p[at + 1] as int == n
  }

  /** The first 16 bytes: the name, the version digit and zeros. */
  predicate Named(p: seq<byte>, digit: char)
  {
    && |p| >= 16 && (forall i :: 0 <= i < 12 ==> p[i] == "REVERIE-LI-V"[i] as int)
    && p[12] == digit as int && p[13] == p[14] == p[15] == 0
  }

  lemma MagicNamed(p: seq<byte>, version: int)
    requires 1 <= version <= 3 && |p| >= 16
    ensures p[..16] == Magic(version) <==> Named(p, ('0' as int + version) as char)
  {
    var name := "REVERIE-LI-V";
    assert forall i :: 0 <= i < 12 ==> Magic(version)[i] == name[i] as int;
    if p[..16] == Magic(version) {
      assert forall i :: 0 <= i < 16 ==> p[i] == Magic(version)[i];
    }
  }

  /** The bytes on the wire: the name and version, the lengths, the selection, and
      then the fields one after another. */
  lemma WireLayout(b: Bootstrap)
    requires Encodable(b)
    ensures var p := Packet(b);
      && LengthIs(p, 16, |b.coordinator|)
      && match (b.stats, b.sitePatching) {
           case (None, None) =>
             Named(p, '1') && LengthIs(p, 18, |b.toolData|) && p[20..] == b.coordinator + b.toolData
           case (Some(stats), None) =>
             && Named(p, '2') && LengthIs(p, 18, |stats|) && LengthIs(p, 20, |b.toolData|)
             && p[22..] == b.coordinator + stats + b.toolData
           case (_, Some(on)) =>
             && Named(p, '3') && LengthIs(p, 18, |StatsOf(b)|) && LengthIs(p, 20, |b.toolData|)
             && p[22] == (if on then 1 else 2) && p[23..] == b.coordinator + StatsOf(b) + b.toolData
         }
  {
    PacketLengths(b);
    PacketParts(b);
    MagicNamed(Packet(b), VersionOf(b));
    PacketBody(b);
  }

  lemma PacketBody(b: Bootstrap)
    requires Encodable(b)
    ensures Packet(b)[HeaderBytes(VersionOf(b))..] == b.coordinator + StatsOf(b) + b.toolData
  {
    var header := Magic(VersionOf(b))
      + Lengths(VersionOf(b), |b.coordinator|, |StatsOf(b)|, |b.toolData|, Selection(b.sitePatching));
    assert Packet(b) == header + (b.coordinator + StatsOf(b) + b.toolData);
  }

  /** What a decoder can tell apart: an empty statistics path reads as none. */
  function Normal(b: Bootstrap): Bootstrap
  {
    if b.stats == Some([]) then b.(stats := None) else b
  }

  lemma DecodePacket(b: Bootstrap)
    requires Encodable(b)
    ensures Decode(Packet(b)) == if b.coordinator == [] then Invalid else Found(Normal(b))
  {
    PacketAnnounces(b);
    PacketLengths(b);
    PacketParts(b);
  }

  /** Round trip across all three versions: decoding an accepted packet returns
      exactly the fields, if and only if the coordinator path is nonempty and no
      empty statistics path was given. */
  lemma RoundTrip(b: Bootstrap)
    requires Encodable(b)
    ensures Decode(Packet(b)) == Found(b) <==> b.coordinator != [] && b.stats != Some([])
  {
    DecodePacket(b);
  }

  /** The two failing families are real. */
  lemma RoundTripFails()
    ensures var b := Bootstrap([], None, None, []); Encodable(b) && Decode(Packet(b)) == Invalid
    ensures var b := Bootstrap([47], Some([]), Some(true), []);
      Encodable(b) && Decode(Packet(b)) == Found(b.(stats := None))
  {
    DecodePacket(Bootstrap([], None, None, []));
    DecodePacket(Bootstrap([47], Some([]), Some(true), []));
  }

  /** Two accepted inputs give the same packet exactly when they differ at most
      in an empty against an absent statistics path. */
  lemma PacketInjective(a: Bootstrap, b: Bootstrap)
    requires Encodable(a) && Encodable(b)
    ensures Packet(a) == Packet(b) <==> Normal(a) == Normal(b)
  {
    if Packet(a) == Packet(b) {
      PacketAnnounces(a);
      PacketAnnounces(b);
      PacketLengths(a);
      PacketLengths(b);
      PacketParts(a);
      PacketParts(b);
    }
  }

  /** Re-encoding what was decoded gives the packet back, except for a version 3
      packet that leaves the selection unset, which the encoder never makes. */
  lemma Reencode(p: seq<byte>)
    requires Decode(p).Found?
    ensures Encodable(Decode(p).bootstrap)
    ensures Packet(Decode(p).bootstrap) == p <==> !(Announced(p) == Some(3) && p[22] == 0)
  {
    var b, version := Decode(p).bootstrap, Announced(p).value;
    BodyBack(p, version, b);
    if version == 3 && p[22] == 0 {
      PacketAnnounces(b);
    } else {
      HeaderBack(p, version, b);
      var h := HeaderBytes(version);
      Rejoin(p, 16, h, h + |b.coordinator|, h + |b.coordinator| + |StatsOf(b)|);
    }
  }

  /** The decoded fields are the slices of the packet after its header. */
  lemma BodyBack(p: seq<byte>, version: int, b: Bootstrap)
    requires Announced(p) == Some(version) && Decode(p) == Found(b)
    ensures Encodable(b)
    ensures var h, c, s := HeaderBytes(version), |b.coordinator|, |StatsOf(b)|;
      && |p| == h + c + s + |b.toolData|
      && p[h..h + c] == b.coordinator && p[h + c..h + c + s] == StatsOf(b) && p[h + c + s..] == b.toolData
  {
    DecodedLengths(p, version, b);
  }

  lemma Rejoin<T>(p: seq<T>, i: nat, j: nat, k: nat, l: nat)
    requires i <= j <= k <= l <= |p|
    ensures p == p[..i] + p[i..j] + p[j..k] + p[k..l] + p[l..]
  {
  }

  /** The decoded fields are as long as the header says. */
  lemma DecodedLengths(p: seq<byte>, version: int, b: Bootstrap)
    requires Announced(p) == Some(version) && Decode(p) == Found(b)
    ensures |b.coordinator| == LengthAt(p, 0)
    ensures version == 1 ==> |b.toolData| == LengthAt(p, 1) && b.stats == None
    ensures version != 1 ==> |StatsOf(b)| == LengthAt(p, 1) && |b.toolData| == LengthAt(p, 2)
    ensures version == 3 ==> Selection(b.sitePatching) == p[22]
    ensures !(version == 3 && p[22] == 0) ==> VersionOf(b) == version
  {
  }

  lemma HeaderBack(p: seq<byte>, version: int, b: Bootstrap)
    requires Announced(p) == Some(version) && Decode(p) == Found(b)
    requires !(version == 3 && p[22] == 0)
    ensures VersionOf(b) == version
    ensures p[16..HeaderBytes(version)] ==
      Lengths(version, |b.coordinator|, |StatsOf(b)|, |b.toolData|, Selection(b.sitePatching))
  {
    DecodedLengths(p, version, b);
    assert Le16(LengthAt(p, 0)) == p[16..18] by { FromLe16RoundTrip(p[16], p[17]); }
    assert Le16(LengthAt(p, 1)) == p[18..20] by { FromLe16RoundTrip(p[18], p[19]); }
    if version == 1 {
      assert p[16..20] == p[16..18] + p[18..20];
    } else {
      assert Le16(LengthAt(p, 2)) == p[20..22] by { FromLe16RoundTrip(p[20], p[21]); }
      assert p[16..22] == p[16..18] + p[18..20] + p[20..22];
      assert version == 3 ==> p[16..23] == p[16..22] + [p[22]];
    }
  }

  // ---- which packets decode ----

  function Word(p: seq<byte>, at: nat): int
    requires at + 1 < |p|
  {
    p[at] as int + 256 * p[at + 1] as int
  }

  /** The packet announces version 1, 2 or 3 and is long enough for its header. */
  predicate Claims(p: seq<byte>, version: int)
  {
    && 1 <= version <= 3 && Named(p, ('0' as int + version) as char) && |p| <= 4096
    && |p| >= if version == 1 then 20 else if version == 2 then 22 else 23
  }

  /** Its lengths add up, the coordinator is not empty, a version 2 packet has a
      statistics path, and a version 3 packet a selection of 0, 1 or 2. */
  predicate AddsUp(p: seq<byte>, version: int)
    requires Claims(p, version)
  {
    match version {
      case 1 => Word(p, 16) > 0 && |p| == 20 + Word(p, 16) + Word(p, 18)
      case 2 => Word(p, 16) > 0 && Word(p, 18) > 0 && |p| == 22 + Word(p, 16) + Word(p, 18) + Word(p, 20)
      case _ => Word(p, 16) > 0 && p[22] <= 2 && |p| == 23 + Word(p, 16) + Word(p, 18) + Word(p, 20)
    }
  }

  lemma AnnouncedExactly(p: seq<byte>, version: int)
    ensures Announced(p) == Some(version) <==> Claims(p, version)
  {
    if |p| >= 16 {
      MagicNamed(p, 1);
      MagicNamed(p, 2);
      MagicNamed(p, 3);
      assert p[..16][12] == p[12];
    }
  }

  /** Every packet: one that claims no version is not ours; one that claims a version
      is decoded exactly when it adds up, with its selection read back. */
  lemma DecodeExactly(p: seq<byte>, version: int)
    ensures Decode(p) == Absent ==> !Claims(p, version)
    ensures Claims(p, version) ==>
      && (Decode(p).Found? <==> AddsUp(p, version)) && (Decode(p) == Invalid <==> !AddsUp(p, version))
    ensures Claims(p, version) && Decode(p).Found? ==>
      Decode(p).bootstrap.sitePatching ==
        if version < 3 || p[22] == 0 then None else Some(p[22] == 1)
    ensures (forall v :: 1 <= v <= 3 ==> !Claims(p, v)) ==> Decode(p) == Absent
  {
    AnnouncedExactly(p, version);
    if Announced(p).Some? {
      AnnouncedExactly(p, Announced(p).value);
    }
  }
}
