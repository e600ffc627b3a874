/** The allocation oracle's number fields: canonical decimal and 0x-hexadecimal
    spellings of 64-bit values, and fixed-length payload bytes. */
module Numbers {
  import opened Words

  type Text = seq<byte>

  /** A field's value together with the spelling it was printed in. */
  datatype HexValue = HexValue(value: u64, literal: Text)

  /** The digit a byte stands for; 16 when it stands for none. */
  function DigitOf(c: byte): (d: nat)
    ensures d <= 16
  {
    if 48 <= c <= 57 then c - 48 else if 97 <= c <= 102 then c - 87 else 16
  }

  function DigitByte(d: nat): (c: byte)
    requires d < 16
    ensures DigitOf(c) == d
  {
    if d < 10 then 48 + d else 87 + d
  }

  lemma DigitUnique(c: byte)
    requires DigitOf(c) < 16
    ensures DigitByte(DigitOf(c)) == c
  {
  }

  datatype Radix = Ten | Sixteen
  {
    function Base(): nat { if Ten? then 10 else 16 }

    function Append(q: nat, d: nat): nat { if Ten? then q * 10 + d else q * 16 + d }

    function Quotient(v: nat): nat { if Ten? then v / 10 else v / 16 }

    function Remainder(v: nat): (d: nat)
      ensures d < Base() && Append(Quotient(v), d) == v
    {
      if Ten? then v % 10 else v % 16
    }
  }

  predicate Digits(s: Text, radix: Radix) { forall i :: 0 <= i < |s| ==> DigitOf(s[i]) < radix.Base() }

  /** Nonempty, digits only, and no leading zero unless the field is 0. */
  predicate Canonical(s: Text, radix: Radix)
  {
    s != [] && Digits(s, radix) && (|s| > 1 ==> s[0] != 48)
  }

  function Value(s: Text, radix: Radix): nat
    requires Digits(s, radix)
  {
    if s == [] then 0 else radix.Append(Value(s[..|s| - 1], radix), DigitOf(s[|s| - 1]))
  }

  function Decimal(s: Text): Option<u64>
  {
    if Canonical(s, Ten) && Value(s, Ten) < 0x1_0000_0000_0000_0000 then Some(Value(s, Ten)) else None
  }

  function Hex(s: Text): Option<HexValue>
  {
    if |s| >= 2 && s[0] == 48 && s[1] == 120 && Canonical(s[2..], Sixteen)
       && Value(s[2..], Sixteen) < 0x1_0000_0000_0000_0000
    then Some(HexValue(Value(s[2..], Sixteen), s))
    else None
  }

  // ---- printing ----

  function Print(v: nat, radix: Radix): (s: Text)
    ensures Canonical(s, radix)
    ensures s[0] == 48 <==> v == 0
  {
    if v < radix.Base() then [DigitByte(v)]
    else Print(radix.Quotient(v), radix) + [DigitByte(radix.Remainder(v))]
  }

  /** The printed spelling reads back. */
  lemma {:induction false} PrintReads(v: nat, radix: Radix)
    ensures Value(Print(v, radix), radix) == v
  {
    var s := Print(v, radix);
    if v < radix.Base() {
      assert s[..0] == [];
    } else {
      PrintReads(radix.Quotient(v), radix);
      assert s[..|s| - 1] == Print(radix.Quotient(v), radix);
    }
  }

  lemma AppendParts(radix: Radix, q: nat, d: nat)
    requires d < radix.Base()
    ensures radix.Quotient(radix.Append(q, d)) == q && radix.Remainder(radix.Append(q, d)) == d
    ensures q > 0 ==> radix.Append(q, d) >= radix.Base()
  {
  }

  /** A canonical spelling is the printed one. */
  lemma {:induction false} CanonicalPrinted(s: Text, radix: Radix)
    requires Canonical(s, radix)
    ensures Print(Value(s, radix), radix) == s
  {
    var init, c := s[..|s| - 1], s[|s| - 1];
    DigitUnique(c);
    if |s| == 1 {
      assert init == [];
    } else {
      CanonicalPrinted(init, radix);
      AppendParts(radix, Value(init, radix), DigitOf(c));
    }
  }

  /** Decimal fields are accepted exactly in their printed spelling. */
  lemma DecimalExact(s: Text, v: u64)
    ensures Decimal(s) == Some(v) <==> s == Print(v, Ten)
  {
    PrintReads(v, Ten);
    if Decimal(s) == Some(v) {
      CanonicalPrinted(s, Ten);
    }
  }

  /** Hexadecimal fields are accepted exactly in their printed spelling. */
  lemma HexExact(s: Text, h: HexValue)
    ensures Hex(s) == Some(h) <==> s == [48, 120] + Print(h.value, Sixteen) && h.literal == s
  {
    PrintReads(h.value, Sixteen);
    if Hex(s) == Some(h) {
      CanonicalPrinted(s[2..], Sixteen);
      assert s == [48, 120] + s[2..];
    }
    if s == [48, 120] + Print(h.value, Sixteen) {
      assert s[2..] == Print(h.value, Sixteen);
    }
  }

  /** Comparing parsed fields, their numbers or their spellings is all the same. */
  lemma LiteralsAreNumbers(a: Text, b: Text)
    requires Hex(a).Some? && Hex(b).Some?
    ensures Hex(a) == Hex(b) <==> Hex(a).value.value == Hex(b).value.value
    ensures Hex(a) == Hex(b) <==> a == b
  {
    HexExact(a, Hex(a).value);
    HexExact(b, Hex(b).value);
  }

  // ---- payload bytes ----

  /** The text cut into pairs. */
  function Chunks(s: Text, n: nat): (r: seq<(byte, byte)>)
    requires |s| == 2 * n
    ensures |r| == n
  {
    if n == 0 then [] else Chunks(s[..2 * n - 2], n - 1) + [(s[2 * n - 2], s[2 * n - 1])]
  }

  function Flatten(cs: seq<(byte, byte)>): (s: Text)
    ensures |s| == 2 * |cs|
  {
    if cs == [] then [] else Flatten(cs[..|cs| - 1]) + [cs[|cs| - 1].0, cs[|cs| - 1].1]
  }

  lemma {:induction false} ChunksOfFlat(cs: seq<(byte, byte)>)
    ensures Chunks(Flatten(cs), |cs|) == cs
  {
    if cs != [] {
      var s, n := Flatten(cs), |cs|;
      ChunksOfFlat(cs[..n - 1]);
      assert s[..2 * n - 2] == Flatten(cs[..n - 1]);
    }
  }

  lemma {:induction false} FlatOfChunks(s: Text, n: nat)
    requires |s| == 2 * n
    ensures Flatten(Chunks(s, n)) == s
  {
    if n != 0 {
      var r := Chunks(s, n);
      FlatOfChunks(s[..2 * n - 2], n - 1);
      assert r[..n - 1] == Chunks(s[..2 * n - 2], n - 1);
    }
  }

  predicate HexPair(c: (byte, byte)) { DigitOf(c.0) < 16 && DigitOf(c.1) < 16 }

  function PayloadHex(s: Text, size: nat): Option<seq<byte>>
  {
    if |s| != 2 * size then None
    else
      var cs := Chunks(s, size);
      if forall i :: 0 <= i < size ==> HexPair(cs[i])
      then Some(seq(size, i requires 0 <= i < size && HexPair(cs[i]) => Pair(cs[i].0, cs[i].1)))
      else None
  }

  function Pair(hi: byte, lo: byte): byte
    requires DigitOf(hi) < 16 && DigitOf(lo) < 16
  {
    DigitOf(hi) * 16 + DigitOf(lo)
  }

  function High(b: byte): byte { DigitByte(b / 16) }

  function Low(b: byte): byte { DigitByte(b % 16) }

  lemma PairOf(b: byte)
    ensures DigitOf(High(b)) < 16 && DigitOf(Low(b)) < 16 && Pair(High(b), Low(b)) == b
  {
  }

  lemma HalvesOf(hi: byte, lo: byte)
    requires DigitOf(hi) < 16 && DigitOf(lo) < 16
    ensures High(Pair(hi, lo)) == hi && Low(Pair(hi, lo)) == lo
  {
    DigitUnique(hi);
    DigitUnique(lo);
    var d, e := DigitOf(hi), DigitOf(lo);
    assert (d * 16 + e) / 16 == d && (d * 16 + e) % 16 == e;
  }

  function PrintPayload(bytes: seq<byte>): Text
  {
    Flatten(seq(|bytes|, i requires 0 <= i < |bytes| => (High(bytes[i]), Low(bytes[i]))))
  }

  /** A payload of the given size is accepted exactly in its printed spelling. */
  lemma PayloadExact(s: Text, size: nat, bytes: seq<byte>)
    requires |bytes| == size
    ensures PayloadHex(s, size) == Some(bytes) <==> s == PrintPayload(bytes)
  {
    var printed := seq(|bytes|, i requires 0 <= i < |bytes| => (High(bytes[i]), Low(bytes[i])));
    ChunksOfFlat(printed);
    forall i | 0 <= i < size ensures HexPair(printed[i]) && Pair(printed[i].0, printed[i].1) == bytes[i] {
      PairOf(bytes[i]);
    }
    if PayloadHex(s, size) == Some(bytes) {
      var cs := Chunks(s, size);
      FlatOfChunks(s, size);
      forall i | 0 <= i < size ensures cs[i] == printed[i] {
        HalvesOf(cs[i].0, cs[i].1);
        assert bytes[i] == Pair(cs[i].0, cs[i].1);
      }
      assert cs == printed;
    }
    if s == PrintPayload(bytes) {
      assert PayloadHex(s, size).value == bytes;
    }
  }

  /** No two spellings give the same payload. */
  lemma PayloadInjective(a: Text, b: Text, size: nat)
    requires PayloadHex(a, size).Some? && PayloadHex(a, size) == PayloadHex(b, size)
    ensures a == b
  {
    var bytes := PayloadHex(a, size).value;
    PayloadExact(a, size, bytes);
    PayloadExact(b, size, bytes);
  }
}
