/** Many client threads on one device: the steps each driver call takes under the mutex,
    interleaved in every possible way, with everything the kernel may decide on the way. */
module DriverThreads {
  import opened Machine
  import opened Sequences
  import opened Lookup
  import opened CommandLog
  import opened Calls
  import opened SerialRuns

  /** How far the thread holding the mutex is inside its call; `lead` is what the pending block
      held before the new bytes. */
  datatype Pc =
    | Outside
    | Entered
    | Reserved(lead: seq<Byte>)
    | Copied(lead: seq<Byte>)
    | Placed(place: Option<Place>)
    | Leaving(lead: seq<Byte>, answer: Answer)

  /** A thread with its program of calls on its own open file. */
  datatype Client = Client(ops: seq<Op>, next: nat, pos: Loff, pc: Pc)

  /** `trace` lists the finished calls in the order in which they came to an end. */
  datatype Sys = Sys(store: Store, lock: Option<nat>, clients: seq<Client>, trace: seq<Event>)

  datatype Action = Dismiss | Acquire | Reserve(lead: seq<Byte>) | Copy | Commit | Find | Deliver | Seek | Release

  ghost predicate Initial(s: Sys) {
    && s.store == FRESH && s.lock.None? && s.trace == []
    && forall t :: 0 <= t < |s.clients| ==> s.clients[t].next == 0 && s.clients[t].pc.Outside?
  }

  /** Calls that end without the mutex: nothing to write, or interrupted while waiting. */
  ghost predicate Dismissed(op: Op) {
    op.k.interrupted || (op.WriteOp? && op.bytes == [])
  }

  ghost predicate Holding(s: Sys, t: nat) {
    && t < |s.clients| && s.lock == Some(t)
    && s.clients[t].next < |s.clients[t].ops|
  }

  ghost predicate With(s: Sys, s': Sys, t: nat, store: Store, lock: Option<nat>, c: Client, trace: seq<Event>)
    requires t < |s.clients|
  {
    s' == Sys(store, lock, s.clients[t := c], trace)
  }

  function CopiedOut(cmds: seq<seq<Byte>>, place: Option<Place>, count: nat, k: Kernel): seq<Byte>
    requires place.Some? ==> place.value.index < |cmds| && place.value.offset <= |cmds[place.value.index]|
  {
    var found := if place.None? then [] else BytesAt(cmds, place.value, count);
    found[..k.Copied(|found|)]
  }

  /** Thread `t` takes one step. */
  ghost predicate Step(n: Slots, s: Sys, s': Sys, t: nat, a: Action) {
    && t < |s.clients| && s.clients[t].next < |s.clients[t].ops|
    && var c := s.clients[t];
    var op, log, cmds := c.ops[c.next], s.store.log, Recent(s.store.log.committed, n);
    match a
    case Dismiss =>
      && c.pc.Outside? && Dismissed(op)
      && With(s, s', t, s.store, s.lock, c.(next := c.next + 1),
              s.trace + [Event(t, op, [], AnswerTo(n, s.store, c.pos, op))])
    case Acquire =>
      && c.pc.Outside? && s.lock.None? && !Dismissed(op)
      && With(s, s', t, s.store, Some(t), c.(pc := Entered), s.trace)
    case Reserve(lead) =>
      && Holding(s, t) && c.pc.Entered? && op.WriteOp?
      && if Granted(s.store, op.bytes, op.k)
         then Leads(s.store, lead)
              && With(s, s', t, Store(Log(log.committed, lead), true), s.lock, c.(pc := Reserved(lead)), s.trace)
         else With(s, s', t, Store(log, false), s.lock,
                   c.(pc := Leaving([], Answer(NoMemory, [], c.pos))), s.trace)
    case Copy =>
      && Holding(s, t) && c.pc.Reserved? && op.WriteOp?
      && With(s, s', t, Store(Log(log.committed, log.pending + op.bytes[..op.k.Copied(|op.bytes|)]), true), s.lock,
              c.(pc := Copied(c.pc.lead)), s.trace)
    case Commit =>
      && Holding(s, t) && c.pc.Copied? && op.WriteOp?
      && var store := if NEWLINE in log.pending then Store(Log(log.committed + [log.pending], []), false) else s.store;
      With(s, s', t, store, s.lock,
           c.(pc := Leaving(c.pc.lead, Answer(Done(op.k.Copied(|op.bytes|)), [], c.pos))), s.trace)
    case Find =>
      && Holding(s, t) && c.pc.Entered? && op.ReadOp?
      && With(s, s', t, s.store, s.lock, c.(pc := Placed(Locate(Lengths(cmds), U64(c.pos)))), s.trace)
    case Deliver =>
      && Holding(s, t) && c.pc.Placed? && op.ReadOp?
      && (c.pc.place.Some? ==> c.pc.place.value.index < |cmds| && c.pc.place.value.offset <= |cmds[c.pc.place.value.index]|)
      && var data := CopiedOut(cmds, c.pc.place, op.count, op.k);
      var pos := S64(c.pos + |data|);
      With(s, s', t, s.store, s.lock, c.(pos := pos, pc := Leaving([], Answer(Done(|data|), data, pos))), s.trace)
    case Seek =>
      && Holding(s, t) && c.pc.Entered? && (op.SeekOp? || op.SeekToOp?)
      && var answer := AnswerTo(n, s.store, c.pos, op);
      With(s, s', t, s.store, s.lock, c.(pos := answer.pos, pc := Leaving([], answer)), s.trace)
    case Release =>
      && Holding(s, t) && c.pc.Leaving?
      && With(s, s', t, s.store, None, c.(next := c.next + 1, pc := Outside),
              s.trace + [Event(t, op, c.pc.lead, c.pc.answer)])
  }

  ghost predicate Next(n: Slots, s: Sys, s': Sys) {
    exists t: nat, a: Action :: Step(n, s, s', t, a)
  }

  ghost predicate Execution(n: Slots, run: seq<Sys>) {
    && run != [] && Initial(run[0])
    && forall i :: 0 <= i < |run| - 1 ==> Next(n, run[i], run[i + 1])
  }

  // ----- the same calls one after the other

  function Positions(clients: seq<Client>): seq<Loff> {
    seq(|clients|, i requires 0 <= i < |clients| => clients[i].pos)
  }

  function StartOf(s0: Sys): Serial {
    Serial(s0.store, Positions(s0.clients))
  }

  // ----- the invariant

  /** What the call under way has done so far, starting from the serial state `st`. */
  ghost predicate UnderWay(n: Slots, s: Sys, st: Serial, t: nat)
    requires t < |s.clients| == |st.positions|
  {
    var c := s.clients[t];
    && c.next < |c.ops|
    && var op, committed := c.ops[c.next], st.store.log.committed;
    match c.pc
    case Outside => false
    case Entered => s.store == st.store && c.pos == st.positions[t] && !Dismissed(op)
    case Reserved(lead) =>
      && Writing(st.store, op, lead) && c.pos == st.positions[t]
      && s.store == Store(Log(committed, lead), true)
    case Copied(lead) =>
      && Writing(st.store, op, lead) && c.pos == st.positions[t]
      && s.store == Store(Log(committed, lead + Taken(st.store, op.bytes, op.k)), true)
    case Placed(place) =>
      && op.ReadOp? && !Dismissed(op) && s.store == st.store && c.pos == st.positions[t]
      && place == Locate(Lengths(Recent(s.store.log.committed, n)), U64(c.pos))
    case Leaving(lead, answer) =>
      && Gives(n, st, Event(t, op, lead, answer))
      && s.store == AfterCall(st.store, op, lead) && c.pos == answer.pos
  }

  /** A write that has got its memory. */
  ghost predicate Writing(s: Store, op: Op, lead: seq<Byte>) {
    op.WriteOp? && Asks(op.bytes, op.k) && Granted(s, op.bytes, op.k) && Leads(s, lead)
  }

  ghost predicate Inv(n: Slots, s0: Sys, s: Sys) {
    && |s.clients| == |s0.clients| && InRange(s.trace, |s.clients|)
    && Explained(n, StartOf(s0), s.trace)
    && (forall t :: 0 <= t < |s.clients| ==> Progress(s0, s, t))
    && var st := Replay(n, StartOf(s0), s.trace);
    && Settled(st.store.log)
    && (forall t :: 0 <= t < |s.clients| && s.lock != Some(t) ==>
          s.clients[t].pc.Outside? && s.clients[t].pos == st.positions[t])
    && (match s.lock
        case None => s.store == st.store
        case Some(t) => t < |s.clients| && UnderWay(n, s, st, t))
  }

  /** Thread `t` has made its calls in its own order, each once. */
  ghost predicate Progress(s0: Sys, s: Sys, t: nat)
    requires t < |s.clients| == |s0.clients|
  {
    var c := s.clients[t];
    && c.ops == s0.clients[t].ops && c.next <= |c.ops|
    && CallsOf(s.trace, t) == c.ops[..c.next]
  }

  lemma {:induction false} InvInitial(n: Slots, s: Sys)
    requires Initial(s)
    ensures Inv(n, s, s)
  {
  }

  /** Steps inside a call leave the finished calls alone. */
  lemma {:induction false} InvInside(n: Slots, s0: Sys, s: Sys, s': Sys, t: nat, a: Action)
    requires Inv(n, s0, s) && Step(n, s, s', t, a) && !a.Release? && !a.Dismiss?
    ensures Inv(n, s0, s')
  {
    InsideFrame(n, s, s', t, a);
    InsideUnderWay(n, s, s', Replay(n, StartOf(s0), s.trace), t, a);
    InvCarried(n, s0, s, s', t);
  }

  lemma {:induction false} InsideFrame(n: Slots, s: Sys, s': Sys, t: nat, a: Action)
    requires Step(n, s, s', t, a) && !a.Release? && !a.Dismiss?
    ensures Carried(s, s', t)
  {
  }

  /** Only thread `t` has moved, inside one call, and it holds the mutex. */
  ghost predicate Carried(s: Sys, s': Sys, t: nat) {
    && t < |s.clients| == |s'.clients| && s'.trace == s.trace
    && s'.lock == Some(t) && (s.lock.None? || s.lock == Some(t))
    && s'.clients == s.clients[t := s'.clients[t]]
    && s'.clients[t].ops == s.clients[t].ops && s'.clients[t].next == s.clients[t].next
  }

  lemma {:induction false} InvCarried(n: Slots, s0: Sys, s: Sys, s': Sys, t: nat)
    requires Inv(n, s0, s) && Carried(s, s', t)
    requires UnderWay(n, s', Replay(n, StartOf(s0), s.trace), t)
    ensures Inv(n, s0, s')
  {
    forall u | 0 <= u < |s'.clients|
      ensures Progress(s0, s', u)
    {
      assert Progress(s0, s, u);
    }
  }

  /** They bring the call under way forward. */
  lemma {:induction false} InsideUnderWay(n: Slots, s: Sys, s': Sys, st: Serial, t: nat, a: Action)
    requires t < |s.clients| == |st.positions|
    requires Step(n, s, s', t, a) && !a.Release? && !a.Dismiss?
    requires if a.Acquire? then s.store == st.store && s.clients[t].pos == st.positions[t] else UnderWay(n, s, st, t)
    ensures UnderWay(n, s', st, t)
  {
    if a.Acquire? {
      assert UnderWay(n, s', st, t);
    } else if a.Find? || a.Deliver? {
      ReadUnderWay(n, s, s', st, t, a);
    } else if a.Reserve? {
      ReserveUnderWay(n, s, s', st, t, a);
    } else {
      OtherUnderWay(n, s, s', st, t, a);
    }
  }

  lemma {:induction false} ReadUnderWay(n: Slots, s: Sys, s': Sys, st: Serial, t: nat, a: Action)
    requires t < |s.clients| == |st.positions|
    requires UnderWay(n, s, st, t) && Step(n, s, s', t, a) && (a.Find? || a.Deliver?)
    ensures UnderWay(n, s', st, t)
  {
    LocateSound(Lengths(Recent(s.store.log.committed, n)), U64(s.clients[t].pos));
  }

  lemma {:induction false} ReserveUnderWay(n: Slots, s: Sys, s': Sys, st: Serial, t: nat, a: Action)
    requires t < |s.clients| == |st.positions|
    requires UnderWay(n, s, st, t) && Step(n, s, s', t, a) && a.Reserve?
    ensures UnderWay(n, s', st, t)
  {
  }

  lemma {:induction false} OtherUnderWay(n: Slots, s: Sys, s': Sys, st: Serial, t: nat, a: Action)
    requires t < |s.clients| == |st.positions|
    requires UnderWay(n, s, st, t) && Step(n, s, s', t, a) && (a.Copy? || a.Commit? || a.Seek?)
    ensures UnderWay(n, s', st, t)
  {
  }

  /** Steps that finish a call. */
  lemma {:induction false} InvRelease(n: Slots, s0: Sys, s: Sys, s': Sys, t: nat)
    requires Inv(n, s0, s) && Step(n, s, s', t, Release)
    ensures Inv(n, s0, s')
  {
    var c := s.clients[t];
    var e := Event(t, c.ops[c.next], c.pc.lead, c.pc.answer);
    assert UnderWay(n, s, Replay(n, StartOf(s0), s.trace), t);
    TraceGrows(n, StartOf(s0), s.trace, e);
    ProgressFinish(n, s0, s, s', t, e);
  }

  lemma {:induction false} InvDismiss(n: Slots, s0: Sys, s: Sys, s': Sys, t: nat)
    requires Inv(n, s0, s) && Step(n, s, s', t, Dismiss)
    ensures Inv(n, s0, s')
  {
    var c, st := s.clients[t], Replay(n, StartOf(s0), s.trace);
    var op := c.ops[c.next];
    var e := Event(t, op, [], AnswerTo(n, s.store, c.pos, op));
    assert s.lock != Some(t);
    DismissedChangesNothing(n, s.store, st, t, op);
    TraceGrows(n, StartOf(s0), s.trace, e);
    ProgressFinish(n, s0, s, s', t, e);
    if s.lock.Some? {
      assert UnderWay(n, s, st, s.lock.value);
      assert UnderWay(n, s', st, s.lock.value);
    }
  }

  /** What a dismissed call returns does not depend on the device, and it changes nothing. */
  lemma {:induction false} DismissedChangesNothing(n: Slots, store: Store, st: Serial, t: nat, op: Op)
    requires t < |st.positions| && Dismissed(op)
    ensures var e := Event(t, op, [], AnswerTo(n, store, st.positions[t], op));
            Gives(n, st, e) && After(n, st, e) == st
  {
    var e := Event(t, op, [], AnswerTo(n, store, st.positions[t], op));
    assert e.answer.pos == st.positions[t];
    assert st.positions[t := st.positions[t]] == st.positions;
  }

  lemma {:induction false} ProgressFinish(n: Slots, s0: Sys, s: Sys, s': Sys, t: nat, e: Event)
    requires |s.clients| == |s0.clients| && t < |s.clients|
    requires forall u :: 0 <= u < |s.clients| ==> Progress(s0, s, u)
    requires var c := s.clients[t]; c.next < |c.ops| && e.who == t && e.op == c.ops[c.next]
    requires |s'.clients| == |s.clients| && s'.trace == s.trace + [e]
    requires forall u :: 0 <= u < |s.clients| && u != t ==> s'.clients[u] == s.clients[u]
    requires s'.clients[t].ops == s.clients[t].ops && s'.clients[t].next == s.clients[t].next + 1
    ensures forall u :: 0 <= u < |s'.clients| ==> Progress(s0, s', u)
  {
    assert s'.trace[..|s.trace|] == s.trace;
    forall u | 0 <= u < |s'.clients|
      ensures Progress(s0, s', u)
    {
      assert Progress(s0, s, u);
      if u == t {
        var c := s.clients[t];
        assert c.ops[..c.next + 1] == c.ops[..c.next] + [c.ops[c.next]];
      }
    }
  }

  lemma {:induction false} InvStep(n: Slots, s0: Sys, s: Sys, s': Sys)
    requires Inv(n, s0, s) && Next(n, s, s')
    ensures Inv(n, s0, s')
  {
    var t: nat, a: Action :| Step(n, s, s', t, a);
    if a.Release? {
      InvRelease(n, s0, s, s', t);
    } else if a.Dismiss? {
      InvDismiss(n, s0, s, s', t);
    } else {
      InvInside(n, s0, s, s', t, a);
    }
  }

  lemma {:induction false} InvAlways(n: Slots, run: seq<Sys>, i: nat)
    requires Execution(n, run) && i < |run|
    ensures Inv(n, run[0], run[i])
    decreases i
  {
    if i == 0 {
      InvInitial(n, run[0]);
    } else {
      InvAlways(n, run, i - 1);
      InvStep(n, run[0], run[i - 1], run[i]);
    }
  }

  // ----- what holds in every reachable state

  /** Never two threads inside their calls. */
  lemma {:induction false} MutualExclusion(n: Slots, run: seq<Sys>, i: nat, t: nat, u: nat)
    requires Execution(n, run) && i < |run|
    requires t < |run[i].clients| && u < |run[i].clients|
    ensures !run[i].clients[t].pc.Outside? && !run[i].clients[u].pc.Outside? ==> t == u
    ensures run[i].lock.None? ==> run[i].clients[t].pc.Outside?
  {
    InvAlways(n, run, i);
  }

  /** Every interleaving is a serial run: the finished calls, each thread's in its own order,
      returned what they return one after the other, and with the mutex free the device
      and all positions are what that serial run leaves behind. */
  lemma {:induction false} Linearizable(n: Slots, run: seq<Sys>, i: nat)
    requires Execution(n, run) && i < |run|
    ensures var s0, s := run[0], run[i];
            && |s.clients| == |s0.clients| && InRange(s.trace, |s0.clients|)
            && Explained(n, StartOf(s0), s.trace)
            && (forall t :: 0 <= t < |s.clients| ==>
                  && s.clients[t].next <= |s0.clients[t].ops|
                  && CallsOf(s.trace, t) == s0.clients[t].ops[..s.clients[t].next])
            && (s.lock.None? ==> Serial(s.store, Positions(s.clients)) == Replay(n, StartOf(s0), s.trace))
  {
    InvAlways(n, run, i);
    var s0, s := run[0], run[i];
    forall t | 0 <= t < |s.clients|
      ensures s.clients[t].next <= |s0.clients[t].ops| && CallsOf(s.trace, t) == s0.clients[t].ops[..s.clients[t].next]
    {
      assert Progress(s0, s, t);
    }
    if s.lock.None? {
      assert Positions(s.clients) == Replay(n, StartOf(s0), s.trace).positions;
    }
  }

  // ----- no byte lost

  /** The bytes the call under way has already brought in. */
  function UnfinishedBody(s: Sys): seq<Byte> {
    if s.lock.None? || s.lock.value >= |s.clients| then []
    else
      var c := s.clients[s.lock.value];
      if c.next >= |c.ops| || !c.ops[c.next].WriteOp? then []
      else
        var op := c.ops[c.next];
        match c.pc
        case Copied(_) => op.bytes[..op.k.Copied(|op.bytes|)]
        case Leaving(lead, answer) => Body(Event(s.lock.value, op, lead, answer))
        case _ => []
  }

  /** In every reachable state, inside the critical section too: evicted, visible and pending
      bytes are the bodies of the finished writes in the order of their calls, and the body
      of the one under way as soon as it is copied in. */
  lemma {:induction false} NoByteLost(n: Slots, run: seq<Sys>, i: nat)
    requires Execution(n, run) && i < |run|
    ensures InRange(run[i].trace, |run[0].clients|)
    ensures Kept(n, StartOf(run[0]), run[i].trace) && Intact(run[i].store) ==>
              var l := run[i].store.log;
              Evicted(l, n) + Visible(l, n) + l.pending == Flatten(Bodies(run[i].trace)) + UnfinishedBody(run[i])
  {
    InvAlways(n, run, i);
    if Kept(n, StartOf(run[0]), run[i].trace) && Intact(run[i].store) {
      StreamSoFar(n, run[0], run[i]);
      StreamParts(run[i].store.log, n);
    }
  }

  lemma {:induction false} StreamSoFar(n: Slots, s0: Sys, s: Sys)
    requires Inv(n, s0, s) && s0.store == FRESH
    requires Kept(n, StartOf(s0), s.trace) && Intact(s.store)
    ensures Stream(s.store.log) == Flatten(Bodies(s.trace)) + UnfinishedBody(s)
  {
    var st := Replay(n, StartOf(s0), s.trace);
    ReplayBodies(n, StartOf(s0), s.trace);
    AppendAllConserves(EMPTY, Bodies(s.trace));
    assert Stream(EMPTY) == [];
    assert Stream(st.store.log) == Flatten(Bodies(s.trace));
    if s.lock.Some? {
      UnfinishedAppends(n, s, st, s.lock.value);
    }
  }

  lemma {:induction false} UnfinishedAppends(n: Slots, s: Sys, st: Serial, t: nat)
    requires t < |s.clients| == |st.positions| && s.lock == Some(t)
    requires UnderWay(n, s, st, t) && Settled(st.store.log) && Intact(st.store) && Intact(s.store)
    ensures Stream(s.store.log) == Stream(st.store.log) + UnfinishedBody(s)
  {
    var c, log := s.clients[t], st.store.log;
    var op := c.ops[c.next];
    match c.pc
    case Entered =>
    case Placed(_) =>
    case Reserved(lead) =>
    case Copied(lead) =>
      assert Flatten(log.committed) + (lead + Taken(st.store, op.bytes, op.k)) == Stream(log) + Taken(st.store, op.bytes, op.k);
    case Leaving(lead, answer) =>
      var e := Event(t, op, lead, answer);
      if !Loses(st.store, op) {
        BodyAppends(n, st, e);
        AppendConserves(log, Body(e));
      }
  }

  /** Client packets stay whole: with the mutex free, the commands are the packets taken in, one
      each and nothing pending, exactly when every one of them held a newline. */
  lemma {:induction false} PacketsUnmixed(n: Slots, run: seq<Sys>, i: nat)
    requires Execution(n, run) && i < |run| && run[i].lock.None?
    ensures InRange(run[i].trace, |run[0].clients|)
    ensures Kept(n, StartOf(run[0]), run[i].trace) ==>
              (run[i].store.log == Log(Bodies(run[i].trace), []) <==> AllTerminated(Bodies(run[i].trace)))
  {
    Linearizable(n, run, i);
    var start, trace := StartOf(run[0]), run[i].trace;
    if Kept(n, start, trace) {
      ReplayBodies(n, start, trace);
      PacketsStayWhole(EMPTY, Bodies(trace));
      assert [] + Bodies(trace) == Bodies(trace);
    }
  }

  // ----- each client's packets in its order

  /** The common order is a merge: what thread `t` put in is its packets so far, in its order. */
  lemma {:induction false} PacketOrder(n: Slots, run: seq<Sys>, i: nat, t: nat)
    requires Execution(n, run) && i < |run| && t < |run[i].clients|
    ensures t < |run[0].clients| && run[i].clients[t].next <= |run[0].clients[t].ops|
    ensures Whole(run[i].trace, t) ==>
              BodiesOf(run[i].trace, t) == Packets(run[0].clients[t].ops[..run[i].clients[t].next])
  {
    Linearizable(n, run, i);
    if Whole(run[i].trace, t) {
      MergeKeepsOrder(run[i].trace, t);
    }
  }

  /** Whatever the interleaving, a finished read returned a contiguous slice of the committed
      stream, starting at the bytes evicted by then plus the position of its file. */
  lemma {:induction false} ReadsAreStreamSlices(n: Slots, run: seq<Sys>, i: nat, e: nat)
    requires Execution(n, run) && i < |run| && e < |run[i].trace| && run[i].trace[e].op.ReadOp?
    ensures InRange(run[i].trace, |run[0].clients|)
    ensures var ev, st := run[i].trace[e], Replay(n, StartOf(run[0]), run[i].trace[..e]);
            FromStream(n, st.store, st.positions[ev.who], ev.answer.data)
  {
    InvAlways(n, run, i);
    var start, trace := StartOf(run[0]), run[i].trace;
    assert Explains(n, start, trace, e);
    ReadEventIsSlice(n, Replay(n, start, trace[..e]), trace[e]);
  }

  // ----- every run ends, with all calls made

  /** Thread `t` is at a place where it can go on. */
  ghost predicate Ready(n: Slots, s: Sys, t: nat) {
    && t < |s.clients| && s.clients[t].next < |s.clients[t].ops|
    && var c, op := s.clients[t], s.clients[t].ops[s.clients[t].next];
    && (if c.pc.Outside? then s.lock.None? else s.lock == Some(t))
    && (match c.pc
        case Entered => !Dismissed(op)
        case Reserved(_) => op.WriteOp?
        case Copied(_) => op.WriteOp?
        case Placed(place) => op.ReadOp? && place == Locate(Lengths(Recent(s.store.log.committed, n)), U64(c.pos))
        case _ => true)
  }

  /** The mutex never blocks for good: its holder can always go on, and when it is free
      so can every thread with calls left. */
  lemma {:induction false} NoDeadlock(n: Slots, run: seq<Sys>, i: nat, t: nat)
    requires Execution(n, run) && i < |run| && t < |run[i].clients|
    requires run[i].lock == Some(t) || (run[i].lock.None? && run[i].clients[t].next < |run[i].clients[t].ops|)
    ensures exists s': Sys, a: Action :: Step(n, run[i], s', t, a)
  {
    InvAlways(n, run, i);
    ReadyNow(n, run[0], run[i], t);
    if run[i].clients[t].pc.Outside? || run[i].clients[t].pc.Entered? {
      CanBegin(n, run[i], t);
    } else {
      CanGoOn(n, run[i], t);
    }
  }

  lemma {:induction false} ReadyNow(n: Slots, s0: Sys, s: Sys, t: nat)
    requires Inv(n, s0, s) && t < |s.clients|
    requires s.lock == Some(t) || (s.lock.None? && s.clients[t].next < |s.clients[t].ops|)
    ensures Ready(n, s, t)
  {
  }

  lemma {:induction false} CanBegin(n: Slots, s: Sys, t: nat)
    requires Ready(n, s, t) && (s.clients[t].pc.Outside? || s.clients[t].pc.Entered?)
    ensures exists s': Sys, a: Action :: Step(n, s, s', t, a)
  {
    var c := s.clients[t];
    var op, log, cmds := c.ops[c.next], s.store.log, Recent(s.store.log.committed, n);
    if c.pc.Outside? {
      if Dismissed(op) {
        Can(n, s, t, Dismiss, s.store, s.lock, c.(next := c.next + 1),
            s.trace + [Event(t, op, [], AnswerTo(n, s.store, c.pos, op))]);
      } else {
        Can(n, s, t, Acquire, s.store, Some(t), c.(pc := Entered), s.trace);
      }
    } else if op.WriteOp? {
      var lead := log.pending;
      if Granted(s.store, op.bytes, op.k) {
        Can(n, s, t, Reserve(lead), Store(Log(log.committed, lead), true), s.lock, c.(pc := Reserved(lead)), s.trace);
      } else {
        Can(n, s, t, Reserve(lead), Store(log, false), s.lock,
            c.(pc := Leaving([], Answer(NoMemory, [], c.pos))), s.trace);
      }
    } else if op.ReadOp? {
      Can(n, s, t, Find, s.store, s.lock, c.(pc := Placed(Locate(Lengths(cmds), U64(c.pos)))), s.trace);
    } else {
      var answer := AnswerTo(n, s.store, c.pos, op);
      Can(n, s, t, Seek, s.store, s.lock, c.(pos := answer.pos, pc := Leaving([], answer)), s.trace);
    }
  }

  lemma {:induction false} CanGoOn(n: Slots, s: Sys, t: nat)
    requires Ready(n, s, t) && !s.clients[t].pc.Outside? && !s.clients[t].pc.Entered?
    ensures exists s': Sys, a: Action :: Step(n, s, s', t, a)
  {
    var c := s.clients[t];
    var op, log, cmds := c.ops[c.next], s.store.log, Recent(s.store.log.committed, n);
    match c.pc
    case Reserved(lead) =>
      Can(n, s, t, Copy, Store(Log(log.committed, log.pending + op.bytes[..op.k.Copied(|op.bytes|)]), true), s.lock,
          c.(pc := Copied(lead)), s.trace);
    case Copied(lead) =>
      var store := if NEWLINE in log.pending then Store(Log(log.committed + [log.pending], []), false) else s.store;
      Can(n, s, t, Commit, store, s.lock,
          c.(pc := Leaving(lead, Answer(Done(op.k.Copied(|op.bytes|)), [], c.pos))), s.trace);
    case Placed(place) =>
      LocateSound(Lengths(cmds), U64(c.pos));
      var data := CopiedOut(cmds, place, op.count, op.k);
      var pos := S64(c.pos + |data|);
      Can(n, s, t, Deliver, s.store, s.lock, c.(pos := pos, pc := Leaving([], Answer(Done(|data|), data, pos))), s.trace);
    case Leaving(lead, answer) =>
      Can(n, s, t, Release, s.store, None, c.(next := c.next + 1, pc := Outside),
          s.trace + [Event(t, op, lead, answer)]);
  }

  /** A step whose target is spelled out is a step. */
  lemma {:induction false} Can(n: Slots, s: Sys, t: nat, a: Action, store: Store, lock: Option<nat>, c: Client, trace: seq<Event>)
    requires t < |s.clients| && Step(n, s, Sys(store, lock, s.clients[t := c], trace), t, a)
    ensures exists s': Sys, a: Action :: Step(n, s, s', t, a)
  {
  }

  function Phase(pc: Pc): (p: nat)
    ensures p < 5
  {
    match pc
    case Outside => 0
    case Entered => 1
    case Reserved(_) => 2
    case Placed(_) => 2
    case Copied(_) => 3
    case Leaving(_, _) => 4
  }

  /** Steps a thread may still take: at most five for each call. */
  function Left(c: Client): nat {
    if c.next < |c.ops| then 5 * (|c.ops| - c.next) - Phase(c.pc) else 0
  }

  function StepsLeft(clients: seq<Client>): nat {
    if clients == [] then 0 else Left(clients[0]) + StepsLeft(clients[1..])
  }

  lemma {:induction false} StepsLeftUpdate(clients: seq<Client>, t: nat, c: Client)
    requires t < |clients|
    ensures StepsLeft(clients[t := c]) == StepsLeft(clients) - Left(clients[t]) + Left(c)
  {
    if t > 0 {
      assert clients[t := c][1..] == clients[1..][t - 1 := c];
      StepsLeftUpdate(clients[1..], t - 1, c);
    } else {
      assert clients[t := c][1..] == clients[1..];
    }
  }

  /** A step changes only the thread that takes it, and brings its call forward or ends it. */
  lemma {:induction false} StepMoves(n: Slots, s: Sys, s': Sys, t: nat, a: Action)
    requires Step(n, s, s', t, a)
    ensures |s'.clients| == |s.clients| && s'.clients == s.clients[t := s'.clients[t]]
    ensures s'.clients[t].ops == s.clients[t].ops
    ensures if a.Release? || a.Dismiss?
            then s'.clients[t].next == s.clients[t].next + 1 && s'.clients[t].pc.Outside?
            else s'.clients[t].next == s.clients[t].next && Phase(s'.clients[t].pc) > Phase(s.clients[t].pc)
  {
  }

  lemma {:induction false} StepTakesOne(n: Slots, s: Sys, s': Sys)
    requires Next(n, s, s')
    ensures StepsLeft(s'.clients) < StepsLeft(s.clients)
  {
    var t: nat, a: Action :| Step(n, s, s', t, a);
    StepMoves(n, s, s', t, a);
    LeftDrops(s.clients[t], s'.clients[t]);
    StepsLeftUpdate(s.clients, t, s'.clients[t]);
  }

  lemma {:induction false} LeftDrops(c: Client, c': Client)
    requires c.next < |c.ops| && c'.ops == c.ops
    requires (c'.next == c.next + 1 && c'.pc.Outside?) || (c'.next == c.next && Phase(c'.pc) > Phase(c.pc))
    ensures Left(c') < Left(c)
  {
  }

  /** No run is longer than the steps its programs allow. */
  lemma {:induction false} RunsAreBounded(n: Slots, run: seq<Sys>, i: nat)
    requires Execution(n, run) && i < |run|
    ensures i + StepsLeft(run[i].clients) <= StepsLeft(run[0].clients)
    decreases i
  {
    if i > 0 {
      RunsAreBounded(n, run, i - 1);
      StepTakesOne(n, run[i - 1], run[i]);
    }
  }

  /** And where a run cannot go on, every thread has made all its calls. */
  lemma {:induction false} StuckMeansFinished(n: Slots, run: seq<Sys>, i: nat)
    requires Execution(n, run) && i < |run|
    requires !exists s' :: Next(n, run[i], s')
    ensures run[i].lock.None?
    ensures forall t :: 0 <= t < |run[i].clients| ==>
              run[i].clients[t].next == |run[i].clients[t].ops| && run[i].clients[t].pc.Outside?
  {
    InvAlways(n, run, i);
    var s := run[i];
    if s.lock.Some? {
      NoDeadlock(n, run, i, s.lock.value);
      var s', a :| Step(n, s, s', s.lock.value, a);
      assert Next(n, s, s');
    }
    forall t | 0 <= t < |s.clients|
      ensures s.clients[t].next == |s.clients[t].ops|
    {
      assert Progress(run[0], s, t);
      if s.clients[t].next < |s.clients[t].ops| {
        NoDeadlock(n, run, i, t);
        var s', a :| Step(n, s, s', t, a);
        assert Next(n, s, s');
      }
    }
  }
}
