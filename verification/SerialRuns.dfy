/** Calls of many threads made one after the other: what each returns, what is left, what is
    lost on the way and when a block is. */
module SerialRuns {
  import opened Machine
  import opened Sequences
  import opened CommandLog
  import opened Calls

  /** The number of slots of the device. */
  type Slots = n: nat | 0 < n <= 255 witness 10

  /** A call on the open file of thread `who`. */
  datatype Call = Call(who: nat, op: Op)

  /** A finished call. */
  datatype Event = Event(who: nat, op: Op, lead: seq<Byte>, answer: Answer)

  /** The device and every file position. */
  datatype Serial = Serial(store: Store, positions: seq<Loff>)

  ghost function After(n: Slots, st: Serial, e: Event): Serial
    requires e.who < |st.positions|
  {
    Serial(AfterCall(st.store, e.op, e.lead),
           st.positions[e.who := AnswerTo(n, st.store, st.positions[e.who], e.op).pos])
  }

  ghost predicate InRange(trace: seq<Event>, threads: nat) {
    forall i :: 0 <= i < |trace| ==> trace[i].who < threads
  }

  /** Whole calls in the order of `trace`, none overlapping another. */
  ghost function Replay(n: Slots, start: Serial, trace: seq<Event>): (st: Serial)
    requires InRange(trace, |start.positions|)
    ensures |st.positions| == |start.positions|
    decreases |trace|
  {
    if trace == [] then start
    else After(n, Replay(n, start, trace[..|trace| - 1]), trace[|trace| - 1])
  }

  /** Event `e` is what the call gives when made in the serial state `st`. */
  ghost predicate Gives(n: Slots, st: Serial, e: Event)
    requires e.who < |st.positions|
  {
    Fits(st.store, e.op, e.lead) && e.answer == AnswerTo(n, st.store, st.positions[e.who], e.op)
  }

  /** Call `i` returned what it returns when the calls are made one after the other. */
  ghost predicate Explains(n: Slots, start: Serial, trace: seq<Event>, i: nat)
    requires InRange(trace, |start.positions|) && i < |trace|
  {
    Gives(n, Replay(n, start, trace[..i]), trace[i])
  }

  /** Every call did. */
  ghost predicate Explained(n: Slots, start: Serial, trace: seq<Event>)
    requires InRange(trace, |start.positions|)
  {
    forall i {:trigger Explains(n, start, trace, i)} :: 0 <= i < |trace| ==> Explains(n, start, trace, i)
  }

  lemma {:induction false} TraceGrows(n: Slots, start: Serial, trace: seq<Event>, e: Event)
    requires InRange(trace, |start.positions|) && e.who < |start.positions|
    requires Explained(n, start, trace)
    requires Gives(n, Replay(n, start, trace), e)
    requires Settled(Replay(n, start, trace).store.log)
    ensures InRange(trace + [e], |start.positions|)
    ensures Explained(n, start, trace + [e])
    ensures Replay(n, start, trace + [e]) == After(n, Replay(n, start, trace), e)
    ensures Settled(Replay(n, start, trace + [e]).store.log)
    ensures forall t :: CallsOf(trace + [e], t) == CallsOf(trace, t) + if e.who == t then [e.op] else []
  {
    var longer := trace + [e];
    assert longer[..|trace|] == trace;
    AfterCallSettled(Replay(n, start, trace).store, e.op, e.lead);
    forall i | 0 <= i < |longer|
      ensures Explains(n, start, longer, i)
    {
      assert longer[..i] == trace[..i];
      if i < |trace| {
        assert Explains(n, start, trace, i);
      } else {
        assert trace[..i] == trace;
      }
    }
  }

  lemma {:induction false} ExplainedInit(n: Slots, start: Serial, trace: seq<Event>)
    requires trace != [] && InRange(trace, |start.positions|) && Explained(n, start, trace)
    ensures var init, e := trace[..|trace| - 1], trace[|trace| - 1];
            && InRange(init, |start.positions|) && Explained(n, start, init) && Gives(n, Replay(n, start, init), e)
  {
    var init := trace[..|trace| - 1];
    assert Explains(n, start, trace, |init|);
    forall i | 0 <= i < |init|
      ensures Explains(n, start, init, i)
    {
      assert Explains(n, start, trace, i);
      ExplainsInit(n, start, trace, i);
    }
  }

  lemma {:induction false} ExplainsInit(n: Slots, start: Serial, trace: seq<Event>, i: nat)
    requires InRange(trace, |start.positions|) && i < |trace| - 1 && Explains(n, start, trace, i)
    ensures InRange(trace[..|trace| - 1], |start.positions|) && Explains(n, start, trace[..|trace| - 1], i)
  {
    var init := trace[..|trace| - 1];
    assert init[i] == trace[i] && init[..i] == trace[..i];
  }

  /** The calls of thread `t` in `trace`. */
  function CallsOf(trace: seq<Event>, t: nat): seq<Op>
    decreases |trace|
  {
    if trace == [] then []
    else
      var e := trace[|trace| - 1];
      CallsOf(trace[..|trace| - 1], t) + if e.who == t then [e.op] else []
  }

  // ----- the bytes taken in

  /** The bytes a finished call made the device take in. */
  function Body(e: Event): seq<Byte> {
    if e.op.WriteOp? && e.answer.r.Done? && e.answer.r.count <= |e.op.bytes| then e.op.bytes[..e.answer.r.count] else []
  }

  /** The bodies of the calls, in order, without the empty ones. */
  function Bodies(trace: seq<Event>): seq<seq<Byte>>
    decreases |trace|
  {
    if trace == [] then []
    else
      var body := Body(trace[|trace| - 1]);
      Bodies(trace[..|trace| - 1]) + if body == [] then [] else [body]
  }

  ghost predicate Loses(s: Store, op: Op) {
    op.WriteOp? && LosesBytes(s, op.bytes, op.k)
  }

  ghost predicate LosesAt(n: Slots, start: Serial, trace: seq<Event>, i: nat)
    requires InRange(trace, |start.positions|) && i < |trace|
  {
    Loses(Replay(n, start, trace[..i]).store, trace[i].op)
  }

  /** No krealloc failed in a finished call. */
  ghost predicate Kept(n: Slots, start: Serial, trace: seq<Event>)
    requires InRange(trace, |start.positions|)
  {
    forall i {:trigger LosesAt(n, start, trace, i)} :: 0 <= i < |trace| ==> !LosesAt(n, start, trace, i)
  }

  lemma {:induction false} KeptLast(n: Slots, start: Serial, trace: seq<Event>)
    requires trace != [] && InRange(trace, |start.positions|)
    ensures var init, e := trace[..|trace| - 1], trace[|trace| - 1];
            && InRange(init, |start.positions|)
            && (Kept(n, start, trace) <==> Kept(n, start, init) && !Loses(Replay(n, start, init).store, e.op))
  {
    var last := |trace| - 1;
    var init := trace[..last];
    AtLast(n, start, trace);
    forall i | 0 <= i < last
      ensures LosesAt(n, start, init, i) <==> LosesAt(n, start, trace, i)
    {
      AtInit(n, start, trace, i);
    }
  }

  lemma {:induction false} AtLast(n: Slots, start: Serial, trace: seq<Event>)
    requires trace != [] && InRange(trace, |start.positions|)
    ensures var init, e := trace[..|trace| - 1], trace[|trace| - 1];
            && InRange(init, |start.positions|)
            && (LosesAt(n, start, trace, |trace| - 1) <==> Loses(Replay(n, start, init).store, e.op))
            && (DropsAt(n, start, trace, |trace| - 1) <==> Drops(Replay(n, start, init).store, e.op))
  {
  }

  lemma {:induction false} AtInit(n: Slots, start: Serial, trace: seq<Event>, i: nat)
    requires InRange(trace, |start.positions|) && i < |trace| - 1
    ensures InRange(trace[..|trace| - 1], |start.positions|)
    ensures LosesAt(n, start, trace[..|trace| - 1], i) <==> LosesAt(n, start, trace, i)
    ensures DropsAt(n, start, trace[..|trace| - 1], i) <==> DropsAt(n, start, trace, i)
  {
    var init := trace[..|trace| - 1];
    assert init[i] == trace[i] && init[..i] == trace[..i];
  }

  /** Then the log is that of the bodies; reads and seeks leave it alone. */
  lemma {:induction false} ReplayBodies(n: Slots, start: Serial, trace: seq<Event>)
    requires InRange(trace, |start.positions|) && Settled(start.store.log) && Intact(start.store)
    requires Explained(n, start, trace) && Kept(n, start, trace)
    ensures Follows(Replay(n, start, trace).store, start.store.log, Bodies(trace))
    decreases |trace|
  {
    if trace != [] {
      var init, e := trace[..|trace| - 1], trace[|trace| - 1];
      ExplainedInit(n, start, trace);
      KeptLast(n, start, trace);
      ReplayBodies(n, start, init);
      FollowsOn(n, Replay(n, start, init), e, start.store.log, Bodies(init));
    }
  }

  /** The store with nothing lost, its log that of these bodies behind `l`. */
  ghost predicate Follows(s: Store, l: Log, bodies: seq<seq<Byte>>) {
    Settled(s.log) && Intact(s) && s.log == AppendAll(l, bodies)
  }

  lemma {:induction false} FollowsOn(n: Slots, st: Serial, e: Event, l: Log, bodies: seq<seq<Byte>>)
    requires e.who < |st.positions| && Gives(n, st, e) && !Loses(st.store, e.op)
    requires Follows(st.store, l, bodies)
    ensures Follows(After(n, st, e).store, l, bodies + if Body(e) == [] then [] else [Body(e)])
  {
    BodyAppends(n, st, e);
    AfterCallSettled(st.store, e.op, e.lead);
    AppendOne(l, bodies, Body(e));
  }

  lemma {:induction false} BodyAppends(n: Slots, st: Serial, e: Event)
    requires e.who < |st.positions| && Gives(n, st, e)
    requires Settled(st.store.log) && Intact(st.store) && !Loses(st.store, e.op)
    ensures AfterCall(st.store, e.op, e.lead).log == Append(st.store.log, Body(e))
    ensures Intact(AfterCall(st.store, e.op, e.lead))
  {
    if e.op.WriteOp? {
      AfterWriteAppends(st.store, e.op.bytes, e.op.k, e.lead);
      assert Body(e) == Taken(st.store, e.op.bytes, e.op.k);
    } else {
      assert st.store.log.pending + [] == st.store.log.pending;
    }
  }

  lemma {:induction false} AppendOne(l: Log, chunks: seq<seq<Byte>>, body: seq<Byte>)
    requires NEWLINE !in AppendAll(l, chunks).pending
    ensures AppendAll(l, chunks + if body == [] then [] else [body]) == Append(AppendAll(l, chunks), body)
  {
    if body == [] {
      assert chunks + [] == chunks;
      var after := AppendAll(l, chunks);
      assert after.pending + [] == after.pending;
    } else {
      AppendAllConcat(l, chunks, [body]);
      assert [body][1..] == [];
    }
  }

  // ----- the blocks leaked

  ghost predicate Drops(s: Store, op: Op) {
    op.WriteOp? && DropsIdle(s, op.bytes, op.k)
  }

  ghost predicate DropsAt(n: Slots, start: Serial, trace: seq<Event>, i: nat)
    requires InRange(trace, |start.positions|) && i < |trace|
  {
    Drops(Replay(n, start, trace[..i]).store, trace[i].op)
  }

  /** No memory was asked for while an idle block was held. */
  ghost predicate Tidied(n: Slots, start: Serial, trace: seq<Event>)
    requires InRange(trace, |start.positions|)
  {
    forall i {:trigger DropsAt(n, start, trace, i)} :: 0 <= i < |trace| ==> !DropsAt(n, start, trace, i)
  }

  lemma {:induction false} TidiedLast(n: Slots, start: Serial, trace: seq<Event>)
    requires trace != [] && InRange(trace, |start.positions|)
    ensures var init, e := trace[..|trace| - 1], trace[|trace| - 1];
            && InRange(init, |start.positions|)
            && (Tidied(n, start, trace) <==> Tidied(n, start, init) && !Drops(Replay(n, start, init).store, e.op))
  {
    var last := |trace| - 1;
    var init := trace[..last];
    AtLast(n, start, trace);
    forall i | 0 <= i < last
      ensures DropsAt(n, start, init, i) <==> DropsAt(n, start, trace, i)
    {
      AtInit(n, start, trace, i);
    }
  }

  /** Neither happened: then no block leaks. */
  ghost predicate Careful(n: Slots, start: Serial, trace: seq<Event>)
    requires InRange(trace, |start.positions|)
  {
    Kept(n, start, trace) && Tidied(n, start, trace)
  }

  // ----- the calls determine the run

  ghost predicate SameCalls(trace: seq<Event>, other: seq<Event>) {
    |trace| == |other| && forall i :: 0 <= i < |trace| ==> other[i].who == trace[i].who && other[i].op == trace[i].op
  }

  /** Two traces that explain themselves, with the same calls. */
  ghost predicate Alike(n: Slots, start: Serial, trace: seq<Event>, other: seq<Event>) {
    && InRange(trace, |start.positions|) && InRange(other, |start.positions|)
    && Explained(n, start, trace) && Explained(n, start, other)
    && SameCalls(trace, other)
  }

  lemma {:induction false} AlikeInit(n: Slots, start: Serial, trace: seq<Event>, other: seq<Event>)
    requires Alike(n, start, trace, other) && trace != []
    ensures Alike(n, start, trace[..|trace| - 1], other[..|other| - 1])
  {
    ExplainedInit(n, start, trace);
    ExplainedInit(n, start, other);
  }

  /** The calls in their order determine whether anything is lost or leaked; and with nothing
      lost every answer. */
  lemma {:induction false} CallsDetermine(n: Slots, start: Serial, trace: seq<Event>, other: seq<Event>)
    requires Settled(start.store.log) && Intact(start.store) && Alike(n, start, trace, other)
    ensures Kept(n, start, trace) <==> Kept(n, start, other)
    ensures Careful(n, start, trace) <==> Careful(n, start, other)
    ensures Kept(n, start, trace) ==> other == trace
    decreases |trace|
  {
    if trace != [] {
      AlikeInit(n, start, trace, other);
      CallsDetermine(n, start, trace[..|trace| - 1], other[..|other| - 1]);
      KeptLast(n, start, trace);
      KeptLast(n, start, other);
      TidiedLast(n, start, trace);
      TidiedLast(n, start, other);
      if Kept(n, start, trace) {
        LastDetermined(n, start, trace, other);
      }
    }
  }

  lemma {:induction false} LastDetermined(n: Slots, start: Serial, trace: seq<Event>, other: seq<Event>)
    requires Settled(start.store.log) && Intact(start.store) && Alike(n, start, trace, other)
    requires trace != [] && trace[..|trace| - 1] == other[..|other| - 1]
    requires Kept(n, start, trace[..|trace| - 1])
    ensures other == trace
  {
    var init, e, e' := trace[..|trace| - 1], trace[|trace| - 1], other[|other| - 1];
    AlikeInit(n, start, trace, other);
    ReplayBodies(n, start, init);
    ExplainedInit(n, start, trace);
    ExplainedInit(n, start, other);
    CallDetermines(n, Replay(n, start, init), e, e');
    SameInitAndLast(trace, other);
  }

  lemma {:induction false} CallDetermines(n: Slots, st: Serial, e: Event, e': Event)
    requires e.who < |st.positions| && e'.who == e.who && e'.op == e.op
    requires Intact(st.store) && Gives(n, st, e) && Gives(n, st, e')
    ensures e' == e
  {
  }

  ghost predicate From(calls: seq<Call>, threads: nat) {
    forall i :: 0 <= i < |calls| ==> calls[i].who < threads
  }

  /** These calls, in this order. */
  ghost predicate Makes(calls: seq<Call>, trace: seq<Event>) {
    |calls| == |trace| && forall i :: 0 <= i < |trace| ==> trace[i].who == calls[i].who && trace[i].op == calls[i].op
  }

  /** What a call gives when the pending bytes are where they should be. */
  ghost function EventOf(n: Slots, st: Serial, c: Call): Event
    requires c.who < |st.positions|
  {
    var s, op := st.store, c.op;
    Event(c.who, op, if op.WriteOp? && Asks(op.bytes, op.k) && Granted(s, op.bytes, op.k) then s.log.pending else [],
          AnswerTo(n, s, st.positions[c.who], op))
  }

  /** The run these calls make from `start`. */
  ghost function TraceOf(n: Slots, start: Serial, calls: seq<Call>): (trace: seq<Event>)
    requires From(calls, |start.positions|)
    ensures |trace| == |calls| && InRange(trace, |start.positions|)
    decreases |calls|
  {
    if calls == [] then []
    else
      var init := TraceOf(n, start, calls[..|calls| - 1]);
      init + [EventOf(n, Replay(n, start, init), calls[|calls| - 1])]
  }

  lemma {:induction false} TraceExplained(n: Slots, start: Serial, calls: seq<Call>)
    requires From(calls, |start.positions|) && Settled(start.store.log)
    ensures Makes(calls, TraceOf(n, start, calls)) && Explained(n, start, TraceOf(n, start, calls))
    ensures Settled(Replay(n, start, TraceOf(n, start, calls)).store.log)
    decreases |calls|
  {
    if calls != [] {
      var init := TraceOf(n, start, calls[..|calls| - 1]);
      TraceExplained(n, start, calls[..|calls| - 1]);
      var e := EventOf(n, Replay(n, start, init), calls[|calls| - 1]);
      TraceGrows(n, start, init, e);
      MakesOne(calls, init, e);
    }
  }

  lemma {:induction false} MakesOne(calls: seq<Call>, init: seq<Event>, e: Event)
    requires calls != [] && Makes(calls[..|calls| - 1], init)
    requires calls[|calls| - 1] == Call(e.who, e.op)
    ensures Makes(calls, init + [e])
  {
    assert forall i :: 0 <= i < |init| ==> calls[..|calls| - 1][i] == calls[i];
  }

  // ----- when an idle block is held

  /** Call `i` asked for memory, got it while nothing was pending, and copied nothing; no
      later call asked. */
  ghost predicate Idles(n: Slots, start: Serial, trace: seq<Event>, i: int)
    requires InRange(trace, |start.positions|)
  {
    && 0 <= i < |trace| && IdlesNow(Replay(n, start, trace[..i]).store, trace[i].op)
    && forall j :: i < j < |trace| ==> !AsksMemory(trace[j].op)
  }

  predicate AsksMemory(op: Op) {
    op.WriteOp? && Asks(op.bytes, op.k)
  }

  ghost predicate IdlesNow(s: Store, op: Op) {
    && AsksMemory(op) && s.log.pending == [] && Granted(s, op.bytes, op.k)
    && op.k.Copied(|op.bytes|) == 0
  }

  lemma {:induction false} IdlesLast(n: Slots, start: Serial, trace: seq<Event>)
    requires trace != [] && InRange(trace, |start.positions|)
    ensures var init, e := trace[..|trace| - 1], trace[|trace| - 1];
            && InRange(init, |start.positions|)
            && ((exists i :: Idles(n, start, trace, i)) <==>
                if AsksMemory(e.op) then IdlesNow(Replay(n, start, init).store, e.op)
                else exists i :: Idles(n, start, init, i))
  {
    var last := |trace| - 1;
    var init, e := trace[..last], trace[last];
    if AsksMemory(e.op) {
      if IdlesNow(Replay(n, start, init).store, e.op) {
        assert Idles(n, start, trace, last);
      }
    } else {
      forall i
        ensures Idles(n, start, trace, i) <==> Idles(n, start, init, i)
      {
        IdlesInit(n, start, init, e, trace, i);
      }
    }
  }

  lemma {:induction false} IdlesInit(n: Slots, start: Serial, init: seq<Event>, e: Event, trace: seq<Event>, i: int)
    requires trace == init + [e] && InRange(trace, |start.positions|) && !AsksMemory(e.op)
    ensures InRange(init, |start.positions|)
    ensures Idles(n, start, trace, i) <==> Idles(n, start, init, i)
  {
    assert trace[|init|] == e && forall j :: 0 <= j < |init| ==> trace[j] == init[j];
    if 0 <= i < |init| {
      assert init[..i] == trace[..i];
    }
  }

  /** An idle block is held exactly when the last request for memory so far was granted with
      nothing pending and then copied nothing. */
  lemma {:induction false} IdleBecause(n: Slots, start: Serial, trace: seq<Event>)
    requires InRange(trace, |start.positions|) && Settled(start.store.log) && Intact(start.store)
    requires !Idle(start.store) && Explained(n, start, trace) && Kept(n, start, trace)
    ensures Idle(Replay(n, start, trace).store) <==> exists i :: Idles(n, start, trace, i)
    decreases |trace|
  {
    if trace != [] {
      var init, e := trace[..|trace| - 1], trace[|trace| - 1];
      ExplainedInit(n, start, trace);
      KeptLast(n, start, trace);
      ReplayBodies(n, start, init);
      IdleBecause(n, start, init);
      IdlesLast(n, start, trace);
      IdleAfterCall(Replay(n, start, init).store, e.op, e.lead);
    }
  }

  lemma {:induction false} IdleAfterCall(s: Store, op: Op, lead: seq<Byte>)
    requires Intact(s) && Fits(s, op, lead)
    ensures Idle(AfterCall(s, op, lead)) <==> if AsksMemory(op) then IdlesNow(s, op) else Idle(s)
  {
    if op.WriteOp? {
      IdleAfterWrite(s, op.bytes, op.k, lead);
    }
  }

  // ----- each thread's packets in its order

  /** The bodies of thread `t`, picked out of the common order. */
  function BodiesOf(trace: seq<Event>, t: nat): seq<seq<Byte>>
    decreases |trace|
  {
    if trace == [] then []
    else
      var e := trace[|trace| - 1];
      BodiesOf(trace[..|trace| - 1], t) + if e.who != t || Body(e) == [] then [] else [Body(e)]
  }

  /** The packets a program writes. */
  function Packets(ops: seq<Op>): seq<seq<Byte>>
    decreases |ops|
  {
    if ops == [] then []
    else
      var op := ops[|ops| - 1];
      Packets(ops[..|ops| - 1]) + if op.WriteOp? && op.bytes != [] then [op.bytes] else []
  }

  /** Every write of thread `t` went through whole. */
  ghost predicate Whole(trace: seq<Event>, t: nat) {
    forall i :: 0 <= i < |trace| && trace[i].who == t && trace[i].op.WriteOp? ==>
      trace[i].answer.r == Done(|trace[i].op.bytes|)
  }

  lemma {:induction false} MergeKeepsOrder(trace: seq<Event>, t: nat)
    requires Whole(trace, t)
    ensures BodiesOf(trace, t) == Packets(CallsOf(trace, t))
    decreases |trace|
  {
    if trace != [] {
      var init, e := trace[..|trace| - 1], trace[|trace| - 1];
      assert trace == init + [e];
      WholeInit(init, e, t);
      MergeKeepsOrder(init, t);
      if e.who == t {
        PacketsLast(CallsOf(init, t), e.op);
      } else {
        assert CallsOf(trace, t) == CallsOf(init, t) + [];
        assert CallsOf(init, t) + [] == CallsOf(init, t);
        assert BodiesOf(init, t) + [] == BodiesOf(init, t);
      }
    }
  }

  lemma {:induction false} WholeInit(init: seq<Event>, e: Event, t: nat)
    requires Whole(init + [e], t)
    ensures Whole(init, t)
    ensures e.who == t ==> Body(e) == if e.op.WriteOp? then e.op.bytes else []
  {
    var trace := init + [e];
    assert trace[|init|] == e;
    assert forall i :: 0 <= i < |init| ==> trace[i] == init[i];
  }

  lemma {:induction false} PacketsLast(ops: seq<Op>, op: Op)
    ensures Packets(ops + [op]) == Packets(ops) + if op.WriteOp? && op.bytes != [] then [op.bytes] else []
  {
    var longer := ops + [op];
    assert longer[..|longer| - 1] == ops && longer[|longer| - 1] == op;
  }

  // ----- reads are slices of the stream

  /** These bytes are the committed stream at the evicted bytes plus the position. */
  ghost predicate FromStream(n: Slots, s: Store, pos: Loff, data: seq<Byte>) {
    SliceAt(Flatten(s.log.committed), |Evicted(s.log, n)| + U64(pos), data)
  }

  lemma {:induction false} ReadEventIsSlice(n: Slots, st: Serial, e: Event)
    requires e.who < |st.positions| && e.op.ReadOp? && Gives(n, st, e)
    ensures FromStream(n, st.store, st.positions[e.who], e.answer.data)
  {
    if !e.op.k.interrupted {
      ReadAnswerIsSlice(n, st.store, st.positions[e.who], e.op.count, e.op.k);
    }
  }

  lemma {:induction false} ReadAnswerIsSlice(n: Slots, s: Store, pos: Loff, count: nat, k: Kernel)
    ensures FromStream(n, s, pos, ReadAnswer(n, s, pos, count, k).data)
  {
    var found := ReadAt(Recent(s.log.committed, n), U64(pos), count);
    ReadIsStreamSlice(s.log, n, U64(pos), count);
    SliceOfFront(Flatten(s.log.committed), |Evicted(s.log, n)| + U64(pos), found, k.Copied(|found|));
  }
}
