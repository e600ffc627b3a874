/** The payload hash is the 64-bit FNV-1a hash, and tells payloads apart that
    differ in one byte. */
module PayloadHash {
  import opened Words
  import opened Certificate

  const PRIME: int := 1099511628211
  /** The multiplicative inverse of the prime modulo 2^64. */
  const INVERSE: int := 14886173955864302971

  lemma Halves(d: nat, q: nat)
    requires d < 2
    ensures (d + 2 * q) % 2 == d && (d + 2 * q) / 2 == q
  {
  }

  lemma BitBack(x: nat, y: nat)
    requires x < 2 && y < 2
    ensures ((x + y) % 2 + y) % 2 == x
  {
  }

  lemma XorUnfolds(r: nat, d: nat, q: nat, b: nat, bits: nat)
    requires bits > 0 && d < 2 && r == d + 2 * q
    ensures Xor(r, b, bits) == (d + b % 2) % 2 + 2 * Xor(q, b / 2, bits - 1)
  {
    Halves(d, q);
  }

  lemma {:induction false} XorAgain(a: nat, b: nat, bits: nat)
    requires a < Power(bits)
    ensures Xor(Xor(a, b, bits), b, bits) == a
  {
    if bits > 0 {
      var d, q := (a % 2 + b % 2) % 2, Xor(a / 2, b / 2, bits - 1);
      XorAgain(a / 2, b / 2, bits - 1);
      XorUnfolds(Xor(a, b, bits), d, q, b, bits);
      BitBack(a % 2, b % 2);
    }
  }

  lemma {:induction false} XorCommutes(a: nat, b: nat, bits: nat)
    ensures Xor(a, b, bits) == Xor(b, a, bits)
  {
    if bits > 0 {
      XorCommutes(a / 2, b / 2, bits - 1);
    }
  }

  lemma XorTwice(a: byte, b: byte)
    ensures XorByte(XorByte(a, b), b) == a
  {
    XorAgain(a, b, 8);
  }

  lemma XorSwaps(a: byte, b: byte)
    ensures XorByte(a, b) == XorByte(b, a)
  {
    XorCommutes(a, b, 8);
  }

  /** Multiplying by the prime loses nothing modulo 2^64. */
  lemma TimesPrime(x: u64, y: u64)
    requires (x * PRIME) % TWO64 == (y * PRIME) % TWO64
    ensures x == y
  {
    var t := x * PRIME / TWO64 - y * PRIME / TWO64;
    var k := 887285111055;
    assert PRIME * INVERSE == 1 + TWO64 * k;
    assert (x - y) * PRIME == TWO64 * t;
    assert (x - y) * PRIME * INVERSE == TWO64 * t * INVERSE;
    assert (x - y) * PRIME * INVERSE == (x - y) * (PRIME * INVERSE);
    assert x - y == TWO64 * (t * INVERSE - (x - y) * k);
    MultipleInside(TWO64, t * INVERSE - (x - y) * k);
  }

  function Mixed(h: u64, b: byte): u64 { h - h % 256 + XorByte(h % 256, b) }

  lemma MixedByte(h: u64, b: byte)
    ensures Mixed(h, b) % 256 == XorByte(h % 256, b) && Mixed(h, b) - Mixed(h, b) % 256 == h - h % 256
  {
    var q, m := h / 256, XorByte(h % 256, b);
    assert Mixed(h, b) == 256 * q + m;
  }

  /** One step loses neither the byte nor the hash so far. */
  lemma StepInjective(g: u64, a: byte, h: u64, b: byte)
    requires HashStep(g, a) == HashStep(h, b)
    ensures a == b ==> g == h
    ensures g == h ==> a == b
  {
    TimesPrime(Mixed(g, a), Mixed(h, b));
    MixedByte(g, a);
    MixedByte(h, b);
    XorTwice(g % 256, a);
    XorTwice(h % 256, b);
    if g == h {
      XorSwaps(g % 256, a);
      XorSwaps(h % 256, b);
      XorTwice(a, g % 256);
      XorTwice(b, h % 256);
    }
  }

  lemma {:induction false} SamePrefix(s: seq<byte>, t: seq<byte>, n: nat)
    requires n <= |s| && n <= |t| && s[..n] == t[..n]
    ensures HashTo(s, n) == HashTo(t, n)
  {
    if n > 0 {
      assert s[..n - 1] == s[..n][..n - 1] && t[..n - 1] == t[..n][..n - 1];
      assert s[n - 1] == s[..n][n - 1] && t[n - 1] == t[..n][n - 1];
      SamePrefix(s, t, n - 1);
    }
  }

  /** Two payloads that differ in exactly one byte have different hashes, whatever
      follows it. */
  lemma {:induction false} OneByteDiffers(s: seq<byte>, t: seq<byte>, i: nat, n: nat)
    requires |s| == |t| && i < n <= |s| && s[i] != t[i]
    requires forall k :: 0 <= k < |s| && k != i ==> s[k] == t[k]
    ensures HashTo(s, n) != HashTo(t, n)
  {
    if HashTo(s, n) == HashTo(t, n) {
      StepInjective(HashTo(s, n - 1), s[n - 1], HashTo(t, n - 1), t[n - 1]);
      if n == i + 1 {
        SamePrefix(s, t, i);
      } else {
        OneByteDiffers(s, t, i, n - 1);
      }
    }
  }

  lemma KnownXor()
    ensures XorByte(0x25, 0x61) == 0x44
  {
    assert Xor(0x0, 0x0, 1) == 0;
    assert Xor(0x0, 0x1, 2) == 1;
    assert Xor(0x1, 0x3, 3) == 2;
    assert Xor(0x2, 0x6, 4) == 4;
    assert Xor(0x4, 0xc, 5) == 8;
    assert Xor(0x9, 0x18, 6) == 0x11;
    assert Xor(0x12, 0x30, 7) == 0x22;
  }

  lemma KnownProduct()
    ensures (0xcbf2_9ce4_8422_2344 * 1099511628211) % 0x1_0000_0000_0000_0000 == 0xaf63_dc4c_8601_ec8c
  {
    assert 0xcbf2_9ce4_8422_2344 * 1099511628211 == 875948729822 * 0x1_0000_0000_0000_0000 + 0xaf63_dc4c_8601_ec8c;
  }

  lemma KnownStep(h: u64, b: byte)
    requires h == 0xcbf2_9ce4_8422_2325 && b == 0x61
    ensures HashStep(h, b) == 0xaf63_dc4c_8601_ec8c
  {
    KnownXor();
    KnownProduct();
    assert h % 256 == 0x25;
  }

  /** The published FNV-1a values of the empty string and of "a". */
  lemma KnownHashes(s: seq<byte>)
    requires |s| == 1 && s[0] == 0x61
    ensures HashTo(s, 0) == 0xcbf2_9ce4_8422_2325 && HashTo(s, 1) == 0xaf63_dc4c_8601_ec8c
  {
    KnownStep(HashTo(s, 0), s[0]);
  }

  // ---- the payload pattern ----

  /** Where the two payloads start, and that each byte is 29 more than the one before
      it, modulo 256. */
  lemma PatternSteps(bytes: seq<byte>, seed: nat, i: nat)
    requires PatternTo(bytes, seed, |bytes|) && i < |bytes|
    ensures i + 1 < |bytes| ==> bytes[i + 1] == (bytes[i] as int + 29) % 256
    ensures i == 0 && seed == 77 ==> bytes[i] == 0x20
    ensures i == 0 && seed == 88 ==> bytes[i] == 0xdb
  {
    assert bytes[i] == PatternAt(i, seed);
    if i + 1 < |bytes| {
      assert bytes[i + 1] == PatternAt(i + 1, seed);
      AddModulo(i * 29 + seed * 17 + 3, 29);
    }
  }

  lemma AddModulo(x: nat, y: nat)
    ensures (x % 256 + y) % 256 == (x + y) % 256
  {
    AddMultiple(x % 256 + y, x / 256, 256);
    assert x + y == (x % 256 + y) + 256 * (x / 256);
  }
}
