/** What a flush writes, as one list: every thread's messages in a block of their
    own, cut off where the streams stop accepting. */
module ChunkyOutput {
  import opened Words
  import opened ChunkyPrint

  /** The blocks of the threads in visiting order. */
  function Blocks(printbuf: map<Tid, seq<Message>>, order: seq<Tid>): seq<Chunk>
    requires Keyed(order, printbuf)
  {
    if order == [] then [] else Tagged(order[0], printbuf[order[0]]) + Blocks(printbuf, order[1..])
  }

  lemma {:induction false} BlocksKeep(printbuf: map<Tid, seq<Message>>, order: seq<Tid>, t: Tid)
    requires Keyed(order, printbuf) && t !in order
    ensures Blocks(printbuf[t := []], order) == Blocks(printbuf, order)
  {
    if order != [] {
      BlocksKeep(printbuf, order[1..], t);
    }
  }

  /** How many of n writes are accepted. */
  function Accepted(n: nat, quota: Option<nat>): (k: nat)
    ensures k <= n
  {
    if quota.Some? && quota.value < n then quota.value else n
  }

  lemma CutInside(t: Tid, v: seq<Message>, later: seq<Chunk>, k: nat)
    requires k <= |v|
    ensures (Tagged(t, v) + later)[..k] == Tagged(t, v[..k])
  {
  }

  lemma CutAfter(out: seq<Chunk>, first: seq<Chunk>, later: seq<Chunk>, k: nat)
    requires k <= |later|
    ensures out + (first + later)[..|first| + k] == (out + first) + later[..k]
  {
    assert (first + later)[..|first| + k] == first + later[..k];
    assert out + first + later[..k] == out + (first + later[..k]);
  }

  /** A flush writes the blocks one after another, up to the first refused write, and
      succeeds exactly when all of them are accepted. */
  lemma {:induction false} FlushWrites(printbuf: map<Tid, seq<Message>>, out: seq<Chunk>, order: seq<Tid>,
                                       quota: Option<nat>)
    requires Keyed(order, printbuf) && forall i, j :: 0 <= i < j < |order| ==> order[i] != order[j]
    ensures var f, blocks := FlushFrom(printbuf, out, order, quota), Blocks(printbuf, order);
      && f.out == out + blocks[..Accepted(|blocks|, quota)]
      && (f.ok <==> Accepted(|blocks|, quota) == |blocks|)
    decreases |order|
  {
    if order != [] {
      var t, rest := order[0], order[1..];
      var first, later := Tagged(t, printbuf[t]), Blocks(printbuf, rest);
      var n := |first|;
      if quota.Some? && quota.value < n {
        CutInside(t, printbuf[t], later, quota.value);
      } else {
        var left := if quota.Some? then Some(quota.value - n) else None;
        BlocksKeep(printbuf, rest, t);
        FlushWrites(printbuf[t := []], out + first, rest, left);
        CutAfter(out, first, later, Accepted(|later|, left));
      }
    }
  }

  /** A thread's buffer is cleared exactly when its whole block was accepted, and is
      otherwise as it was. */
  lemma {:induction false} FlushClears(printbuf: map<Tid, seq<Message>>, out: seq<Chunk>, order: seq<Tid>,
                                       quota: Option<nat>, i: nat)
    requires Keyed(order, printbuf) && (forall i, j :: 0 <= i < j < |order| ==> order[i] != order[j]) && i < |order|
    ensures var f, done := FlushFrom(printbuf, out, order, quota), Blocks(printbuf, order[..i + 1]);
      && order[i] in f.printbuf
      && f.printbuf[order[i]] == if Accepted(|done|, quota) == |done| then [] else printbuf[order[i]]
    decreases |order|
  {
    var t, rest := order[0], order[1..];
    var n := |printbuf[t]|;
    assert order[..i + 1][0] == t && order[..i + 1][1..] == rest[..i];
    if !(quota.Some? && quota.value < n) {
      var left := if quota.Some? then Some(quota.value - n) else None;
      if i == 0 {
        FlushOthers(printbuf[t := []], out + Tagged(t, printbuf[t]), rest, left, t);
      } else {
        assert rest[..(i - 1) + 1] == rest[..i];
        BlocksKeep(printbuf, rest[..i], t);
        FlushClears(printbuf[t := []], out + Tagged(t, printbuf[t]), rest, left, i - 1);
      }
    }
  }

  /** A thread that is not visited keeps its buffer. */
  lemma {:induction false} FlushOthers(printbuf: map<Tid, seq<Message>>, out: seq<Chunk>, order: seq<Tid>,
                                       quota: Option<nat>, t: Tid)
    requires Keyed(order, printbuf) && t in printbuf && t !in order
    ensures var f := FlushFrom(printbuf, out, order, quota); t in f.printbuf && f.printbuf[t] == printbuf[t]
    decreases |order|
  {
    if order != [] {
      var u := order[0];
      var v := printbuf[u];
      if !(quota.Some? && quota.value < |v|) {
        FlushOthers(printbuf[u := []], out + Tagged(u, v), order[1..],
                    if quota.Some? then Some(quota.value - |v|) else None, t);
      }
    }
  }
}
