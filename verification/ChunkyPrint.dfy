/** The chunky-print tool's shared state: prints are buffered per thread, ticks
    drive per-thread logical clocks, and when every clock has passed the epoch
    length all buffers are written out. Hash maps have no order, so every flush
    takes the order it happens to visit the threads in; streams may stop
    accepting writes, so it also takes how many writes succeed. */
module ChunkyPrint {
  import opened Words

  /** System calls per thread that make an epoch. */
  const EPOCH: nat := 10

  type Tid = int

  datatype Which = Stderr | Stdout

  datatype Message = Message(which: Which, bytes: seq<byte>)

  datatype Msg = Print(message: Message) | Tick | Flush

  /** One write to a stream, with the thread whose message it carries. */
  datatype Chunk = Chunk(tid: Tid, message: Message)

  datatype State = State(times: map<Tid, int>, printbuf: map<Tid, seq<Message>>, epochNum: nat, out: seq<Chunk>)

  /** An RPC, the order a flush would visit threads in, and the number of writes
      the streams accept before one fails (None: they accept them all). */
  datatype Event = Event(from: Tid, msg: Msg, order: seq<Tid>, quota: Option<nat>)

  const INITIAL: State := State(map[], map[], 0, [])

  // ---- specification ----

  function Tagged(tid: Tid, v: seq<Message>): (r: seq<Chunk>)
    ensures |r| == |v| && forall i :: 0 <= i < |v| ==> r[i] == Chunk(tid, v[i])
  {
    seq(|v|, i requires 0 <= i < |v| => Chunk(tid, v[i]))
  }

  datatype Flushed = Flushed(printbuf: map<Tid, seq<Message>>, out: seq<Chunk>, ok: bool)

  predicate Keyed(order: seq<Tid>, printbuf: map<Tid, seq<Message>>)
  {
    forall i :: 0 <= i < |order| ==> order[i] in printbuf
  }

  /** Write each thread's messages and clear them; stop at the first failure. */
  function FlushFrom(printbuf: map<Tid, seq<Message>>, out: seq<Chunk>, order: seq<Tid>, quota: Option<nat>): Flushed
    requires Keyed(order, printbuf)
    decreases |order|
  {
    if order == [] then Flushed(printbuf, out, true)
    else
      var t := order[0];
      var v := printbuf[t];
      if quota.Some? && quota.value < |v| then
        Flushed(printbuf, out + Tagged(t, v[..quota.value]), false)
      else
        FlushFrom(printbuf[t := []], out + Tagged(t, v), order[1..],
                  if quota.Some? then Some(quota.value - |v|) else None)
  }

  predicate Lists(order: seq<Tid>, printbuf: map<Tid, seq<Message>>)
  {
    && Keyed(order, printbuf) && (forall t :: t in printbuf ==> t in order)
    && (forall i, j :: 0 <= i < j < |order| ==> order[i] != order[j])
  }

  predicate AllPast(times: map<Tid, int>) { forall t :: t in times ==> times[t] > EPOCH }

  function Rewound(times: map<Tid, int>): (r: map<Tid, int>)
    requires AllPast(times)
    ensures r.Keys == times.Keys && forall t :: t in times ==> r[t] == times[t] - EPOCH
  {
    map t | t in times :: times[t] - EPOCH
  }

  function Ticked(times: map<Tid, int>, from: Tid): map<Tid, int>
  {
    times[from := (if from in times then times[from] else 0) + 1]
  }

  function Step(st: State, e: Event): State
    requires Lists(e.order, st.printbuf)
  {
    match e.msg
    case Print(m) =>
      var v := if e.from in st.printbuf then st.printbuf[e.from] else [];
      st.(printbuf := st.printbuf[e.from := v + [m]])
    case Tick =>
      var times := Ticked(st.times, e.from);
      if AllPast(times) then
        var f := FlushFrom(st.printbuf, st.out, e.order, e.quota);
        State(Rewound(times), f.printbuf, st.epochNum + 1, f.out)
      else
        st.(times := times)
    case Flush =>
      var f := FlushFrom(st.printbuf, st.out, e.order, e.quota);
      st.(printbuf := f.printbuf, out := f.out)
  }

  // ---- the object ----

  class Inner {
    var times: map<Tid, int>
    var printbuf: map<Tid, seq<Message>>
    var epochNum: nat
    var out: seq<Chunk>

    constructor ()
      ensures Abs() == INITIAL
    {
      times, printbuf, epochNum, out := map[], map[], 0, [];
    }

    function Abs(): State
      reads this
    {
      State(times, printbuf, epochNum, out)
    }

    /** Write one thread's messages in order, until one is refused. */
    method WriteThread(t: Tid, v: seq<Message>, quota: Option<nat>) returns (ok: bool, left: Option<nat>)
      modifies this`out
      ensures ok <==> !(quota.Some? && quota.value < |v|)
      ensures ok ==> out == old(out) + Tagged(t, v)
      ensures ok ==> left == if quota.Some? then Some(quota.value - |v|) else None
      ensures !ok ==> out == old(out) + Tagged(t, v[..quota.value])
    {
      left := quota;
      for i := 0 to |v|
        invariant quota.Some? ==> i <= quota.value && left == Some(quota.value - i)
        invariant quota.None? ==> left == None
        invariant out == old(out) + Tagged(t, v[..i])
      {
        if left == Some(0) { return false, left; }
        if left.Some? { left := Some(left.value - 1); }
        out := out + [Chunk(t, v[i])];
        assert Tagged(t, v[..i + 1]) == Tagged(t, v[..i]) + [Chunk(t, v[i])];
      }
      assert v[..|v|] == v;
      ok := true;
    }

    /** Write every buffer and settle both streams, which may fail too. */
    method FlushMessages(order: seq<Tid>, quota: Option<nat>, settles: bool) returns (ok: bool)
      requires Lists(order, printbuf)
      modifies this`printbuf, this`out
      ensures var f := FlushFrom(old(printbuf), old(out), order, quota);
        printbuf == f.printbuf && out == f.out && (ok <==> f.ok && settles)
    {
      var left := quota;
      for i := 0 to |order|
        invariant printbuf.Keys == old(printbuf).Keys
        invariant FlushFrom(old(printbuf), old(out), order, quota) == FlushFrom(printbuf, out, order[i..], left)
      {
        var t := order[i];
        assert order[i..][0] == t && order[i..][1..] == order[i + 1..];
        var done;
        done, left := WriteThread(t, printbuf[t], left);
        if !done { return false; }
        printbuf := printbuf[t := []];
      }
      assert order[|order|..] == [];
      ok := settles;
    }

    /** The epoch ends once every thread has passed it. Failed writes are ignored. */
    method CheckEpoch(order: seq<Tid>, quota: Option<nat>, settles: bool)
      requires Lists(order, printbuf)
      modifies this
      ensures Abs() ==
        if AllPast(old(times))
        then var f := FlushFrom(old(printbuf), old(out), order, quota);
             State(Rewound(old(times)), f.printbuf, old(epochNum) + 1, f.out)
        else old(Abs())
    {
      if AllPast(times) {
        var _ := FlushMessages(order, quota, settles);
        times := map t | t in times :: times[t] - EPOCH;
        epochNum := epochNum + 1;
      }
    }

    method ReceiveRpc(from: Tid, m: Msg, order: seq<Tid>, quota: Option<nat>, settles: bool)
      requires Lists(order, printbuf)
      modifies this
      ensures Abs() == Step(old(Abs()), Event(from, m, order, quota))
    {
      match m
      case Print(message) =>
        var v := if from in printbuf then printbuf[from] else [];
        printbuf := printbuf[from := v + [message]];
      case Tick =>
        times := times[from := (if from in times then times[from] else 0) + 1];
        CheckEpoch(order, quota, settles);
      case Flush =>
        var _ := FlushMessages(order, quota, settles);
    }
  }

  // ---- nothing lost, nothing reordered ----

  /** What one thread's messages look like on the streams, in order. */
  function Shown(out: seq<Chunk>, t: Tid): seq<Message>
  {
    if out == [] then []
    else Shown(out[..|out| - 1], t) +
         (if out[|out| - 1].tid == t then [out[|out| - 1].message] else [])
  }

  function Pending(printbuf: map<Tid, seq<Message>>, t: Tid): seq<Message>
  {
    if t in printbuf then printbuf[t] else []
  }

  lemma ShownConcat(a: seq<Chunk>, b: seq<Chunk>, t: Tid)
    ensures Shown(a + b, t) == Shown(a, t) + Shown(b, t)
  {
    if b == [] {
      assert a + b == a;
    } else {
      ShownConcat(a, b[..|b| - 1], t);
      assert (a + b)[..|a + b| - 1] == a + b[..|b| - 1];
    }
  }

  lemma ShownTagged(u: Tid, v: seq<Message>, t: Tid)
    ensures Shown(Tagged(u, v), t) == if u == t then v else []
  {
    if v != [] {
      var w := v[..|v| - 1];
      ShownTagged(u, w, t);
      assert Tagged(u, v)[..|v| - 1] == Tagged(u, w);
      assert v == w + [v[|v| - 1]];
    }
  }

  /** Shown and then pending: what a thread has printed, as the state knows it. */
  function Ledger(printbuf: map<Tid, seq<Message>>, out: seq<Chunk>, t: Tid): seq<Message>
  {
    Shown(out, t) + Pending(printbuf, t)
  }

  lemma WriteShows(out: seq<Chunk>, u: Tid, v: seq<Message>, t: Tid)
    ensures Shown(out + Tagged(u, v), t) == Shown(out, t) + (if u == t then v else [])
  {
    ShownConcat(out, Tagged(u, v), t);
    ShownTagged(u, v, t);
  }

  /** The thread and position at which a flush with this quota breaks off. */
  function BreaksAt(printbuf: map<Tid, seq<Message>>, order: seq<Tid>, quota: Option<nat>): (b: Option<(Tid, nat)>)
    requires Keyed(order, printbuf)
    ensures b.Some? ==> b.value.0 in order && b.value.0 in printbuf && b.value.1 < |printbuf[b.value.0]|
  {
    if order == [] || quota.None? then None
    else
      var v := printbuf[order[0]];
      if quota.value < |v| then Some((order[0], quota.value))
      else BreaksAt(printbuf, order[1..], Some(quota.value - |v|))
  }

  function LedgerAfter(printbuf: map<Tid, seq<Message>>, out: seq<Chunk>, b: Option<(Tid, nat)>, t: Tid): seq<Message>
    requires b.Some? ==> b.value.0 in printbuf && b.value.1 < |printbuf[b.value.0]|
  {
    if b.Some? && b.value.0 == t
    then Shown(out, t) + printbuf[t][..b.value.1] + printbuf[t]
    else Ledger(printbuf, out, t)
  }

  /** Writing and clearing one whole buffer moves it from pending to shown. */
  lemma LedgerShift(printbuf: map<Tid, seq<Message>>, out: seq<Chunk>, u: Tid, b: Option<(Tid, nat)>, t: Tid)
    requires u in printbuf
    requires b.Some? ==> b.value.0 in printbuf && b.value.1 < |printbuf[b.value.0]| && b.value.0 != u
    ensures LedgerAfter(printbuf[u := []], out + Tagged(u, printbuf[u]), b, t) == LedgerAfter(printbuf, out, b, t)
  {
    var v := printbuf[u];
    WriteShows(out, u, v, t);
    if u == t {
      assert Shown(out, t) + v + [] == Shown(out, t) + v;
    } else {
      assert Shown(out, t) + [] == Shown(out, t);
      assert Pending(printbuf[u := []], t) == Pending(printbuf, t);
    }
  }

  /** A flush changes a thread's ledger in one way only: if it breaks off inside
      that thread's buffer, the messages already written stay buffered and will
      be written again. */
  lemma {:induction false} FlushLedger(printbuf: map<Tid, seq<Message>>, out: seq<Chunk>, order: seq<Tid>,
                                       quota: Option<nat>, t: Tid)
    requires Keyed(order, printbuf)
    requires forall i, j :: 0 <= i < j < |order| ==> order[i] != order[j]
    ensures var f := FlushFrom(printbuf, out, order, quota);
      Ledger(f.printbuf, f.out, t) == LedgerAfter(printbuf, out, BreaksAt(printbuf, order, quota), t)
    decreases |order|
  {
    if order != [] {
      var u := order[0];
      var v := printbuf[u];
      if quota.Some? && quota.value < |v| {
        WriteShows(out, u, v[..quota.value], t);
      } else {
        var next := if quota.Some? then Some(quota.value - |v|) else None;
        BreaksLater(printbuf, order[1..], next, u);
        FlushLedger(printbuf[u := []], out + Tagged(u, v), order[1..], next, t);
        LedgerShift(printbuf, out, u, BreaksAt(printbuf, order[1..], next), t);
      }
    }
  }

  /** Clearing a thread that is not visited again does not matter. */
  lemma {:induction false} BreaksLater(printbuf: map<Tid, seq<Message>>, order: seq<Tid>, quota: Option<nat>, u: Tid)
    requires Keyed(order, printbuf) && u !in order
    ensures BreaksAt(printbuf[u := []], order, quota) == BreaksAt(printbuf, order, quota)
  {
    if order != [] && quota.Some? {
      var v := printbuf[order[0]];
      if quota.value >= |v| {
        BreaksLater(printbuf, order[1..], Some(quota.value - |v|), u);
      }
    }
  }

  // ---- runs ----

  /** Each event's order lists the threads that have a buffer at that point. */
  predicate Possible(es: seq<Event>)
    decreases |es|, 0
  {
    es == [] || (Possible(es[..|es| - 1]) && Lists(es[|es| - 1].order, Run(es[..|es| - 1]).printbuf))
  }

  function Run(es: seq<Event>): State
    requires Possible(es)
    decreases |es|, 1
  {
    if es == [] then INITIAL else Step(Run(es[..|es| - 1]), es[|es| - 1])
  }

  /** What a thread printed, in order. */
  function Prints(es: seq<Event>, t: Tid): seq<Message>
  {
    if es == [] then []
    else
      var e := es[|es| - 1];
      Prints(es[..|es| - 1], t) + (if e.from == t && e.msg.Print? then [e.msg.message] else [])
  }

  /** The event writes to the streams, and a write fails inside a thread's
      buffer after earlier messages of the same buffer went out. */
  predicate Repeats(st: State, e: Event)
    requires Lists(e.order, st.printbuf)
  {
    && (e.msg.Flush? || (e.msg.Tick? && AllPast(Ticked(st.times, e.from))))
    && var b := BreaksAt(st.printbuf, e.order, e.quota);
       b.Some? && b.value.1 > 0
  }

  /** One RPC extends a thread's ledger by its own print and nothing else, for
      every thread, exactly when no write fails in the middle of a buffer. */
  lemma StepLedger(st: State, e: Event, t: Tid)
    requires Lists(e.order, st.printbuf) && !Repeats(st, e)
    ensures Ledger(Step(st, e).printbuf, Step(st, e).out, t) ==
      Ledger(st.printbuf, st.out, t) + (if e.from == t && e.msg.Print? then [e.msg.message] else [])
  {
    if e.msg.Print? {
      PrintLedger(st, e, t);
    } else {
      FlushLedger(st.printbuf, st.out, e.order, e.quota, t);
      LedgerCut(st, e, t);
    }
  }

  lemma PrintLedger(st: State, e: Event, t: Tid)
    requires Lists(e.order, st.printbuf) && e.msg.Print?
    ensures Ledger(Step(st, e).printbuf, Step(st, e).out, t) ==
      Ledger(st.printbuf, st.out, t) + (if e.from == t then [e.msg.message] else [])
  {
    var shown, v := Shown(st.out, t), Pending(st.printbuf, t);
    assert shown + (v + [e.msg.message]) == shown + v + [e.msg.message];
    assert shown + v + [] == shown + v;
  }

  /** Breaking off before a thread's first message repeats nothing. */
  lemma LedgerCut(st: State, e: Event, t: Tid)
    requires Lists(e.order, st.printbuf)
    ensures var b := BreaksAt(st.printbuf, e.order, e.quota);
      b.Some? && b.value == (t, 0) ==>
        Shown(st.out, t) + st.printbuf[t][..0] + st.printbuf[t] == Ledger(st.printbuf, st.out, t)
  {
  }

  /** In the other case some thread's ledger repeats messages it already showed. */
  lemma StepRepeats(st: State, e: Event)
    requires Lists(e.order, st.printbuf) && Repeats(st, e)
    ensures var t := BreaksAt(st.printbuf, e.order, e.quota).value.0;
      |Ledger(Step(st, e).printbuf, Step(st, e).out, t)| > |Ledger(st.printbuf, st.out, t)|
  {
    FlushLedger(st.printbuf, st.out, e.order, e.quota, BreaksAt(st.printbuf, e.order, e.quota).value.0);
  }

  predicate NoRepeats(es: seq<Event>)
    requires Possible(es)
  {
    es == [] || (NoRepeats(es[..|es| - 1]) && !Repeats(Run(es[..|es| - 1]), es[|es| - 1]))
  }

  /** For every interleaving of RPCs and every visiting order, as long as no write
      fails inside a buffer: what a thread has on the streams followed by what it
      has buffered is exactly what it printed, in order. */
  lemma {:induction false} LedgerIsPrints(es: seq<Event>, t: Tid)
    requires Possible(es) && NoRepeats(es)
    ensures Ledger(Run(es).printbuf, Run(es).out, t) == Prints(es, t)
  {
    if es != [] {
      var init := es[..|es| - 1];
      LedgerIsPrints(init, t);
      StepLedger(Run(init), es[|es| - 1], t);
    }
  }

  /** No step shortens a ledger, and a print lengthens its thread's. */
  lemma StepGrows(st: State, e: Event, t: Tid)
    requires Lists(e.order, st.printbuf)
    ensures |Ledger(Step(st, e).printbuf, Step(st, e).out, t)| >=
      |Ledger(st.printbuf, st.out, t)| + (if e.from == t && e.msg.Print? then 1 else 0)
  {
    if Repeats(st, e) {
      FlushLedger(st.printbuf, st.out, e.order, e.quota, t);
    } else {
      StepLedger(st, e, t);
    }
  }

  lemma {:induction false} LedgerHoldsPrints(es: seq<Event>, t: Tid)
    requires Possible(es)
    ensures |Ledger(Run(es).printbuf, Run(es).out, t)| >= |Prints(es, t)|
  {
    if es != [] {
      LedgerHoldsPrints(es[..|es| - 1], t);
      StepGrows(Run(es[..|es| - 1]), es[|es| - 1], t);
    }
  }

  /** A write that failed inside a buffer shows for good: some thread's ledger is
      longer than its prints ever after. */
  lemma {:induction false} RepeatLasts(es: seq<Event>) returns (t: Tid)
    requires Possible(es) && !NoRepeats(es)
    ensures |Ledger(Run(es).printbuf, Run(es).out, t)| > |Prints(es, t)|
  {
    var init, e := es[..|es| - 1], es[|es| - 1];
    if NoRepeats(init) {
      t := BreaksAt(Run(init).printbuf, e.order, e.quota).value.0;
      StepRepeats(Run(init), e);
      LedgerHoldsPrints(init, t);
    } else {
      t := RepeatLasts(init);
      StepGrows(Run(init), e, t);
    }
  }

  /** Over whole runs: every thread's output and buffer are exactly its prints if
      and only if no write ever failed inside a buffer. */
  lemma LedgerExactly(es: seq<Event>)
    requires Possible(es)
    ensures (forall t :: Ledger(Run(es).printbuf, Run(es).out, t) == Prints(es, t)) <==> NoRepeats(es)
  {
    if NoRepeats(es) {
      forall t ensures Ledger(Run(es).printbuf, Run(es).out, t) == Prints(es, t) {
        LedgerIsPrints(es, t);
      }
    } else {
      var t := RepeatLasts(es);
    }
  }

  /** The messages of one stream. */
  function OnStream(v: seq<Message>, which: Which): seq<Message>
  {
    if v == [] then []
    else OnStream(v[..|v| - 1], which) + if v[|v| - 1].which == which then [v[|v| - 1]] else []
  }

  lemma {:induction false} OnStreamConcat(v: seq<Message>, w: seq<Message>, which: Which)
    ensures OnStream(v + w, which) == OnStream(v, which) + OnStream(w, which)
  {
    if w == [] {
      assert v + w == v;
    } else {
      OnStreamConcat(v, w[..|w| - 1], which);
      assert (v + w)[..|v + w| - 1] == v + w[..|w| - 1];
    }
  }

  /** The same, stream by stream. */
  lemma StreamIsPrints(es: seq<Event>, t: Tid, which: Which)
    requires Possible(es) && NoRepeats(es)
    ensures OnStream(Shown(Run(es).out, t), which) + OnStream(Pending(Run(es).printbuf, t), which)
         == OnStream(Prints(es, t), which)
  {
    LedgerIsPrints(es, t);
    OnStreamConcat(Shown(Run(es).out, t), Pending(Run(es).printbuf, t), which);
  }

  /** In particular while the streams accept every write. */
  lemma {:induction false} AcceptingNeverRepeats(es: seq<Event>)
    requires Possible(es) && forall i :: 0 <= i < |es| ==> es[i].quota == None
    ensures NoRepeats(es)
  {
    if es != [] {
      AcceptingNeverRepeats(es[..|es| - 1]);
    }
  }

  /** A flush that visits every thread and meets no refusal leaves nothing behind. */
  lemma {:induction false} FlushEmpties(printbuf: map<Tid, seq<Message>>, out: seq<Chunk>, order: seq<Tid>, t: Tid)
    requires Keyed(order, printbuf) && t in printbuf && (t in order || printbuf[t] == [])
    ensures var f := FlushFrom(printbuf, out, order, None); t in f.printbuf && f.printbuf[t] == []
    decreases |order|
  {
    if order != [] {
      var u := order[0];
      FlushEmpties(printbuf[u := []], out + Tagged(u, printbuf[u]), order[1..], t);
    }
  }

  lemma {:induction false} FlushKeys(printbuf: map<Tid, seq<Message>>, out: seq<Chunk>, order: seq<Tid>,
                                     quota: Option<nat>)
    requires Keyed(order, printbuf)
    ensures FlushFrom(printbuf, out, order, quota).printbuf.Keys == printbuf.Keys
    decreases |order|
  {
    if order != [] {
      var u := order[0];
      var v := printbuf[u];
      if !(quota.Some? && quota.value < |v|) {
        FlushKeys(printbuf[u := []], out + Tagged(u, v), order[1..],
                  if quota.Some? then Some(quota.value - |v|) else None);
      }
    }
  }

  /** So at the end of an epoch, or on request, everything printed is shown. */
  lemma ShownAfterFlush(es: seq<Event>, t: Tid)
    requires Possible(es) && NoRepeats(es) && es != [] && es[|es| - 1].quota == None
    requires es[|es| - 1].msg.Flush? || EndsEpoch(Run(es[..|es| - 1]), es[|es| - 1])
    ensures Shown(Run(es).out, t) == Prints(es, t)
  {
    var st, e := Run(es[..|es| - 1]), es[|es| - 1];
    LedgerIsPrints(es, t);
    FlushKeys(st.printbuf, st.out, e.order, None);
    if t in st.printbuf {
      FlushEmpties(st.printbuf, st.out, e.order, t);
    }
    assert Pending(Run(es).printbuf, t) == [];
  }

  lemma RunSnoc(es: seq<Event>, e: Event, t: Tid)
    requires Possible(es) && Lists(e.order, Run(es).printbuf)
    ensures Possible(es + [e]) && Run(es + [e]) == Step(Run(es), e)
    ensures Prints(es + [e], t) == Prints(es, t) + (if e.from == t && e.msg.Print? then [e.msg.message] else [])
  {
    assert (es + [e])[..|es|] == es;
  }

  lemma PrintSnoc(es: seq<Event>, t: Tid, m: Message, order: seq<Tid>)
    requires Possible(es) && Lists(order, Run(es).printbuf)
    ensures var fs := es + [Event(t, Print(m), order, None)];
      && Possible(fs) && Prints(fs, t) == Prints(es, t) + [m] && Run(fs).out == Run(es).out
      && Run(fs).printbuf == Run(es).printbuf[t := Pending(Run(es).printbuf, t) + [m]]
  {
    RunSnoc(es, Event(t, Print(m), order, None), t);
  }

  lemma ListsNone(printbuf: map<Tid, seq<Message>>)
    requires printbuf == map[]
    ensures Lists([], printbuf)
  {
  }

  lemma ListsOne(printbuf: map<Tid, seq<Message>>, t: Tid)
    requires printbuf.Keys == {t}
    ensures Lists([t], printbuf)
  {
    assert forall u :: u in printbuf <==> u in printbuf.Keys;
  }

  lemma OneBuffered(m: Message)
    ensures var es := [Event(1, Print(m), [], None)];
      Possible(es) && Run(es).printbuf == map[1 := [m]] && Run(es).out == [] && Prints(es, 1) == [m]
  {
    ListsNone(Run([]).printbuf);
    PrintSnoc([], 1, m, []);
    assert [] + [Event(1, Print(m), [], None)] == [Event(1, Print(m), [], None)] && [] + [m] == [m];
  }

  lemma TwoBuffered(m: Message, n: Message)
    ensures var es := [Event(1, Print(m), [], None), Event(1, Print(n), [1], None)];
      Possible(es) && Run(es).printbuf == map[1 := [m, n]] && Run(es).out == [] && Prints(es, 1) == [m, n]
  {
    var es, e := [Event(1, Print(m), [], None)], Event(1, Print(n), [1], None);
    OneBuffered(m);
    ListsOne(Run(es).printbuf, 1);
    PrintSnoc(es, 1, n, [1]);
    assert es + [e] == [es[0], e] && [m] + [n] == [m, n];
  }

  lemma BrokenFlush(st: State, t: Tid, k: nat)
    requires t in st.printbuf && Lists([t], st.printbuf) && k < |st.printbuf[t]|
    ensures var after := Step(st, Event(t, Flush, [t], Some(k)));
      after.printbuf == st.printbuf && after.out == st.out + Tagged(t, st.printbuf[t][..k])
  {
  }

  /** Two messages, the second refused: the first is shown and still buffered. */
  lemma RepeatWitness(m: Message, n: Message)
    ensures var es := [Event(1, Print(m), [], None), Event(1, Print(n), [1], None), Event(1, Flush, [1], Some(1))];
      Possible(es) && Shown(Run(es).out, 1) == [m] && Pending(Run(es).printbuf, 1) == [m, n] && Prints(es, 1) == [m, n]
  {
    var es, e := [Event(1, Print(m), [], None), Event(1, Print(n), [1], None)], Event(1, Flush, [1], Some(1));
    TwoBuffered(m, n);
    var st := Run(es);
    ListsOne(st.printbuf, 1);
    BrokenFlush(st, 1, 1);
    RunSnoc(es, e, 1);
    assert es + [e] == [es[0], es[1], e];
    WriteShows(st.out, 1, [m, n][..1], 1);
    assert [m, n][..1] == [m] && Shown([], 1) + [m] == [m];
  }

  // ---- logical clocks ----

  function Ticks(es: seq<Event>, t: Tid): nat
  {
    if es == [] then 0
    else Ticks(es[..|es| - 1], t) + (if es[|es| - 1].from == t && es[|es| - 1].msg.Tick? then 1 else 0)
  }

  predicate EndsEpoch(st: State, e: Event) { e.msg.Tick? && AllPast(Ticked(st.times, e.from)) }

  /** Epochs that ended once the thread had ticked. */
  function EpochsSince(es: seq<Event>, t: Tid): nat
    requires Possible(es)
  {
    if es == [] then 0
    else EpochsSince(es[..|es| - 1], t) +
         (if EndsEpoch(Run(es[..|es| - 1]), es[|es| - 1]) && Ticks(es, t) > 0 then 1 else 0)
  }

  function EpochsIn(es: seq<Event>): nat
    requires Possible(es)
  {
    if es == [] then 0
    else EpochsIn(es[..|es| - 1]) + (if EndsEpoch(Run(es[..|es| - 1]), es[|es| - 1]) then 1 else 0)
  }

  /** Once anyone has ticked, some clock has not passed the epoch, and every
      clock has started: the epoch ends as soon as the last thread passes it. */
  predicate ClocksBalanced(times: map<Tid, int>)
  {
    && (times != map[] ==> exists t :: t in times && times[t] <= EPOCH)
    && (forall t :: t in times ==> times[t] >= 1)
  }

  lemma StepBalanced(st: State, e: Event)
    requires Lists(e.order, st.printbuf) && ClocksBalanced(st.times)
    ensures ClocksBalanced(Step(st, e).times)
    ensures e.msg.Tick? ==> e.from in Step(st, e).times
  {
    if e.msg.Tick? {
      var times := Ticked(st.times, e.from);
      var next := Step(st, e).times;
      assert e.from in times;
      if AllPast(times) {
        // Only the thread that just ticked can have been the one holding back.
        if st.times != map[] {
          var t :| t in st.times && st.times[t] <= EPOCH;
          assert t in times;
          assert t == e.from && times[t] == EPOCH + 1;
        }
        assert e.from in next && next[e.from] <= EPOCH;
      } else {
        var t :| t in times && times[t] <= EPOCH;
        assert t in next && next[t] <= EPOCH;
      }
    }
  }

  /** The clocks after every run, whatever the streams do: balanced, the epoch
      number counts the epochs that ended, and each thread's ticks are its clock
      plus a whole epoch for every one that ended since its first tick. */
  lemma {:induction false} ClocksCount(es: seq<Event>, t: Tid)
    requires Possible(es)
    ensures var st := Run(es);
      && ClocksBalanced(st.times) && st.epochNum == EpochsIn(es)
      && (t in st.times <==> Ticks(es, t) > 0)
      && Ticks(es, t) == (if t in st.times then st.times[t] else 0) + EPOCH * EpochsSince(es, t)
  {
    if es != [] {
      var init, e := es[..|es| - 1], es[|es| - 1];
      ClocksCount(init, t);
      StepBalanced(Run(init), e);
      if EndsEpoch(Run(init), e) {
        assert AllPast(Ticked(Run(init).times, e.from));
      }
    }
  }
}
