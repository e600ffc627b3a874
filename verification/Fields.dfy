/** The strict record syntax of a fixture report: a prefix, then space-separated
    key=value fields, some of them comma-separated lists of numbers. */
module Fields {
  import opened Words
  import opened Numbers

  const SPACE: byte := 32
  const COMMA: byte := 44
  const EQUALS: byte := 61
  const OPEN: byte := 91
  const CLOSE: byte := 41

  // ---- splitting ----

  /** The pieces between separators; always at least one. */
  function Split(s: Text, sep: byte): (r: seq<Text>)
    ensures r != []
  {
    if s == [] then [[]]
    else
      var parts, c := Split(s[..|s| - 1], sep), s[|s| - 1];
      if c == sep then parts + [[]]
      else parts[..|parts| - 1] + [parts[|parts| - 1] + [c]]
  }

  function Join(parts: seq<Text>, sep: byte): Text
    requires parts != []
  {
    if |parts| == 1 then parts[0] else Join(parts[..|parts| - 1], sep) + [sep] + parts[|parts| - 1]
  }

  predicate Without(parts: seq<Text>, sep: byte) { forall i :: 0 <= i < |parts| ==> sep !in parts[i] }

  lemma {:induction false} SplitWithout(s: Text, sep: byte)
    ensures Without(Split(s, sep), sep)
  {
    if s != [] {
      SplitWithout(s[..|s| - 1], sep);
    }
  }

  lemma {:induction false} JoinOfSplit(s: Text, sep: byte)
    ensures Join(Split(s, sep), sep) == s
  {
    if s != [] {
      var init, c := s[..|s| - 1], s[|s| - 1];
      JoinOfSplit(init, sep);
      var was := Split(init, sep);
      assert s == init + [c];
      if c == sep {
        JoinMore(was, sep);
      } else {
        JoinGrow(was, sep, c);
      }
    }
  }

  lemma JoinMore(parts: seq<Text>, sep: byte)
    requires parts != []
    ensures Join(parts + [[]], sep) == Join(parts, sep) + [sep]
  {
    var now := parts + [[]];
    assert now[..|now| - 1] == parts;
  }

  /** Growing the last piece grows the joined text. */
  lemma JoinGrow(parts: seq<Text>, sep: byte, c: byte)
    requires parts != []
    ensures Join(parts[..|parts| - 1] + [parts[|parts| - 1] + [c]], sep) == Join(parts, sep) + [c]
  {
    var now := parts[..|parts| - 1] + [parts[|parts| - 1] + [c]];
    if |parts| > 1 {
      assert now[..|now| - 1] == parts[..|parts| - 1];
    }
  }

  /** A piece without separators after one adds exactly itself. */
  lemma {:induction false} SplitAppend(s: Text, p: Text, sep: byte)
    requires sep !in p
    ensures Split(s + [sep] + p, sep) == Split(s, sep) + [p]
  {
    if p == [] {
      assert s + [sep] + p == s + [sep] && (s + [sep])[..|s|] == s;
    } else {
      var q, c := p[..|p| - 1], p[|p| - 1];
      assert p == q + [c];
      SplitAppend(s, q, sep);
      var t, parts := s + [sep] + p, Split(s, sep) + [q];
      assert t[..|t| - 1] == s + [sep] + q && t[|t| - 1] == c;
      assert parts[..|parts| - 1] == Split(s, sep) && parts[|parts| - 1] == q;
      assert Split(t, sep) == Split(s, sep) + [q + [c]];
    }
  }

  lemma {:induction false} SplitOne(p: Text, sep: byte)
    requires sep !in p
    ensures Split(p, sep) == [p]
  {
    if p != [] {
      assert p == p[..|p| - 1] + [p[|p| - 1]];
      SplitOne(p[..|p| - 1], sep);
    }
  }

  lemma {:induction false} SplitOfJoin(parts: seq<Text>, sep: byte)
    requires parts != [] && Without(parts, sep)
    ensures Split(Join(parts, sep), sep) == parts
  {
    if |parts| == 1 {
      SplitOne(parts[0], sep);
    } else {
      var init, last := parts[..|parts| - 1], parts[|parts| - 1];
      SplitOfJoin(init, sep);
      SplitAppend(Join(init, sep), last, sep);
      assert parts == init + [last];
    }
  }

  /** Splitting inverts joining, and nothing else splits to the same pieces. */
  lemma SplitExact(s: Text, parts: seq<Text>, sep: byte)
    requires parts != []
    ensures Split(s, sep) == parts <==> s == Join(parts, sep) && Without(parts, sep)
  {
    JoinOfSplit(s, sep);
    SplitWithout(s, sep);
    if Without(parts, sep) {
      SplitOfJoin(parts, sep);
    }
  }

  // ---- fields ----

  /** The first position of c, or the length. */
  function First(s: Text, c: byte, i: nat): (k: nat)
    requires i <= |s|
    ensures i <= k <= |s| && (k < |s| ==> s[k] == c)
    ensures forall j :: i <= j < k ==> s[j] != c
    decreases |s| - i
  {
    if i == |s| || s[i] == c then i else First(s, c, i + 1)
  }

  function FieldValue(token: Text, key: Text): Option<Text>
  {
    var k := First(token, EQUALS, 0);
    if k == |token| || token[..k] != key || k + 1 == |token| then None else Some(token[k + 1..])
  }

  function Shown(key: Text, v: Text): Text { key + [EQUALS] + v }

  lemma FieldExact(token: Text, key: Text, v: Text)
    requires EQUALS !in key
    ensures FieldValue(token, key) == Some(v) <==> v != [] && token == Shown(key, v)
  {
    var k := First(token, EQUALS, 0);
    if FieldValue(token, key) == Some(v) {
      assert token == token[..k] + [token[k]] + token[k + 1..];
    }
    if token == Shown(key, v) {
      assert token[|key|] == EQUALS;
      assert forall j :: 0 <= j < |key| ==> token[j] == key[j];
      assert k == |key|;
      assert token[..k] == key && token[k + 1..] == v;
    }
  }

  predicate AllFields(tokens: seq<Text>, keys: seq<Text>)
  {
    |tokens| == |keys| && forall i :: 0 <= i < |keys| ==> FieldValue(tokens[i], keys[i]).Some?
  }

  function ReadFields(line: Text, prefix: Text, keys: seq<Text>): Option<seq<Text>>
  {
    if !(prefix <= line) then None
    else
      var tokens := Split(line[|prefix|..], SPACE);
      if AllFields(tokens, keys)
      then Some(seq(|keys|, i requires 0 <= i < |keys| && AllFields(tokens, keys) =>
                FieldValue(tokens[i], keys[i]).value))
      else None
  }

  function ShownFields(keys: seq<Text>, vs: seq<Text>): seq<Text>
    requires |keys| == |vs|
  {
    seq(|keys|, i requires 0 <= i < |keys| => Shown(keys[i], vs[i]))
  }

  /** A record is accepted exactly when it is its printed form: the prefix, then the
      keys in order, each with a nonempty value free of spaces. */
  lemma FieldsExact(line: Text, prefix: Text, keys: seq<Text>, vs: seq<Text>)
    requires keys != [] && |vs| == |keys| && Without(keys, EQUALS) && Without(keys, SPACE)
    ensures ReadFields(line, prefix, keys) == Some(vs) <==>
      && line == prefix + Join(ShownFields(keys, vs), SPACE)
      && Without(vs, SPACE) && forall i :: 0 <= i < |vs| ==> vs[i] != []
  {
    var shown := ShownFields(keys, vs);
    if ReadFields(line, prefix, keys) == Some(vs) {
      var tokens := Split(line[|prefix|..], SPACE);
      JoinOfSplit(line[|prefix|..], SPACE);
      SplitWithout(line[|prefix|..], SPACE);
      forall i | 0 <= i < |keys| ensures tokens[i] == shown[i] && vs[i] != [] && SPACE !in vs[i] {
        FieldExact(tokens[i], keys[i], vs[i]);
        assert SPACE !in tokens[i];
      }
      assert tokens == shown;
      assert line == prefix + line[|prefix|..];
    }
    if line == prefix + Join(shown, SPACE) && Without(vs, SPACE) && forall i :: 0 <= i < |vs| ==> vs[i] != [] {
      assert line[|prefix|..] == Join(shown, SPACE);
      assert Without(shown, SPACE);
      SplitOfJoin(shown, SPACE);
      forall i | 0 <= i < |keys| ensures FieldValue(shown[i], keys[i]) == Some(vs[i]) {
        FieldExact(shown[i], keys[i], vs[i]);
      }
      assert ReadFields(line, prefix, keys).value == vs;
    }
  }

  // ---- pairs and regions ----

  function PairOfHex(s: Text): Option<(HexValue, HexValue)>
  {
    var parts := Split(s, COMMA);
    if |parts| == 2 && Hex(parts[0]).Some? && Hex(parts[1]).Some?
    then Some((Hex(parts[0]).value, Hex(parts[1]).value))
    else None
  }

  function PrintHex(v: u64): Text { [48, 120] + Print(v, Sixteen) }

  lemma DigitsNoComma(s: Text)
    requires Digits(s, Sixteen)
    ensures COMMA !in s
  {
    forall i | 0 <= i < |s| ensures s[i] != COMMA {
      assert DigitOf(s[i]) < 16;
    }
  }

  function ShownPair(a: u64, b: u64): Text { PrintHex(a) + [COMMA] + PrintHex(b) }

  predicate IsPair(p: Option<(HexValue, HexValue)>, a: u64, b: u64)
  {
    p.Some? && p.value.0.value == a && p.value.1.value == b
  }

  /** A pair of numbers is accepted exactly in its printed form. */
  lemma PairExact(s: Text, a: u64, b: u64)
    ensures IsPair(PairOfHex(s), a, b) <==> s == ShownPair(a, b)
  {
    var parts := [PrintHex(a), PrintHex(b)];
    DigitsNoComma(Print(a, Sixteen));
    DigitsNoComma(Print(b, Sixteen));
    assert Without(parts, COMMA);
    assert parts[..1] == [PrintHex(a)];
    assert Join(parts, COMMA) == ShownPair(a, b);
    SplitExact(s, parts, COMMA);
    HexExact(PrintHex(a), HexValue(a, PrintHex(a)));
    HexExact(PrintHex(b), HexValue(b, PrintHex(b)));
    if IsPair(PairOfHex(s), a, b) {
      var got := Split(s, COMMA);
      HexExact(got[0], Hex(got[0]).value);
      HexExact(got[1], Hex(got[1]).value);
      assert got == parts;
    }
  }

  /** What is between the brackets. */
  function Inside(s: Text): Option<Text>
  {
    if |s| < 2 || s[0] != OPEN || s[|s| - 1] != CLOSE then None else Some(s[1..|s| - 1])
  }

  lemma InsideExact(s: Text, t: Text)
    ensures Inside(s) == Some(t) <==> s == [OPEN] + t + [CLOSE]
  {
    if Inside(s) == Some(t) {
      assert s == [s[0]] + s[1..|s| - 1] + [s[|s| - 1]];
    }
  }

  function RegionOf(s: Text): Option<(u64, u64)>
  {
    match Inside(s)
    case None => None
    case Some(t) =>
      match PairOfHex(t)
      case None => None
      case Some(p) => Some((p.0.value, p.1.value))
  }

  /** A half-open region is accepted exactly in its printed form. */
  lemma RegionExact(s: Text, start: u64, end: u64)
    ensures RegionOf(s) == Some((start, end)) <==> s == [OPEN] + ShownPair(start, end) + [CLOSE]
  {
    InsideExact(s, ShownPair(start, end));
    if Inside(s).Some? {
      PairExact(Inside(s).value, start, end);
    }
  }
}
