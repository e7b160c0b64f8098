/** The serial runs of the thread model, made on the device itself. */
module DriverReplay {
  import opened Machine
  import opened CommandLog
  import opened Calls
  import opened Driver
  import opened SerialRuns
  import opened DriverThreads

  /** The two numbers of the ioctl are of type uint32_t. */
  ghost predicate Proper(op: Op) {
    op.SeekToOp? ==> op.cmd < TWO_32 && op.cmdOffset < TWO_32 && BlockAddress(op.address)
  }

  /** Any call: the device answers as `AnswerTo` says and is left as `AfterCall` says. */
  method Make(dev: Device, filp: OpenFile, op: Op) returns (answer: Answer, ghost lead: seq<Byte>)
    requires dev.Valid() && Proper(op)
    modifies filp, dev, dev.heap, dev.circleBuff, dev.circleBuff.entry, {dev.circleBuffEntry.buffptr} - {null}
    ensures dev.Valid() && dev.PendingKnown()
    ensures Fits(old(dev.Now()), op, lead)
    ensures old(dev.leaked) <= dev.leaked
    ensures old(Intact(dev.Now())) ==>
              (dev.leaked == old(dev.leaked) <==> !Drops(old(dev.Now()), op) && !Loses(old(dev.Now()), op))
    ensures answer == AnswerTo(dev.Capacity(), old(dev.Now()), old(filp.fPos), op)
    ensures dev.Now() == AfterCall(old(dev.Now()), op, lead) && filp.fPos == answer.pos
  {
    lead := [];
    match op
    case WriteOp(bytes, k) =>
      var r;
      r, lead := dev.Write(filp, Some(bytes), k);
      answer := Answer(r, [], filp.fPos);
    case ReadOp(count, k) =>
      answer := MakeRead(dev, filp, count, k);
    case SeekOp(offset, whence, k) =>
      var r := dev.Llseek(filp, offset, whence, k);
      answer := Answer(r, [], filp.fPos);
    case SeekToOp(cmd, cmdOffset, address, k) =>
      dev.SlotsAreOf();
      var r := dev.AdjustFileOffset(filp, cmd, cmdOffset, address, k);
      answer := Answer(r, [], filp.fPos);
  }

  method MakeRead(dev: Device, filp: OpenFile, count: nat, k: Kernel) returns (answer: Answer)
    requires dev.Valid()
    modifies filp
    ensures dev.Valid()
    ensures answer == AnswerTo(dev.Capacity(), dev.Now(), old(filp.fPos), ReadOp(count, k))
    ensures filp.fPos == answer.pos
  {
    var buf := new Byte[count];
    var r := dev.Read(filp, buf, count, k);
    answer := Answer(r, if r.Done? then buf[..r.count] else [], filp.fPos);
  }

  // ----- any calls of any threads, one after the other

  ghost function PositionsOf(files: seq<OpenFile>): (positions: seq<Loff>)
    reads files
    ensures |positions| == |files|
  {
    seq(|files|, i requires 0 <= i < |files| reads files => files[i].fPos)
  }

  ghost predicate Separate(files: seq<OpenFile>) {
    forall i, j :: 0 <= i < j < |files| ==> files[i] != files[j]
  }

  /** From `start`, these calls gave these answers and left `end`, as `Replay` has it. */
  ghost predicate Replayed(n: Slots, start: Serial, calls: seq<Call>, answers: seq<Answer>, trace: seq<Event>, end: Serial) {
    && Matches(calls, answers, trace) && InRange(trace, |start.positions|)
    && Explained(n, start, trace) && end == Replay(n, start, trace)
    && Settled(end.store.log)
  }

  ghost predicate Matches(calls: seq<Call>, answers: seq<Answer>, trace: seq<Event>) {
    && Makes(calls, trace) && |answers| == |trace|
    && forall i :: 0 <= i < |trace| ==> trace[i].answer == answers[i]
  }

  lemma {:induction false} ReplayedOn(n: Slots, start: Serial, calls: seq<Call>, answers: seq<Answer>,
                                      trace: seq<Event>, end: Serial, e: Event)
    requires Replayed(n, start, calls, answers, trace, end) && e.who < |start.positions| && Gives(n, end, e)
    ensures Replayed(n, start, calls + [Call(e.who, e.op)], answers + [e.answer], trace + [e], After(n, end, e))
  {
    TraceGrows(n, start, trace, e);
  }

  /** A block leaks exactly when an idle one is dropped or a krealloc fails. */
  ghost predicate Leaks(n: Slots, start: Serial, trace: seq<Event>, before: set<array?<Byte>>, leaked: set<array?<Byte>>)
    requires InRange(trace, |start.positions|)
  {
    before <= leaked && (leaked == before <==> Careful(n, start, trace))
  }

  lemma {:induction false} LeaksOn(n: Slots, start: Serial, trace: seq<Event>, e: Event, before: set<array?<Byte>>,
                                   leaked: set<array?<Byte>>, later: set<array?<Byte>>)
    requires Settled(start.store.log) && Intact(start.store)
    requires InRange(trace + [e], |start.positions|) && InRange(trace, |start.positions|) && Explained(n, start, trace)
    requires Leaks(n, start, trace, before, leaked) && leaked <= later
    requires var s := Replay(n, start, trace).store;
             Intact(s) ==> (later == leaked <==> !Drops(s, e.op) && !Loses(s, e.op))
    ensures Leaks(n, start, trace + [e], before, later)
  {
    assert (trace + [e])[..|trace|] == trace;
    KeptLast(n, start, trace + [e]);
    TidiedLast(n, start, trace + [e]);
    if Kept(n, start, trace) {
      ReplayBodies(n, start, trace);
    }
  }

  /** What the serial runs of the thread model say is what the device does. */
  method ReplayOnDevice(dev: Device, files: seq<OpenFile>, calls: seq<Call>)
    returns (answers: seq<Answer>, ghost trace: seq<Event>)
    requires dev.Valid() && Separate(files)
    requires forall i :: 0 <= i < |calls| ==> calls[i].who < |files| && Proper(calls[i].op)
    modifies files, dev, dev.heap, dev.circleBuff, dev.circleBuff.entry, {dev.circleBuffEntry.buffptr} - {null}
    ensures dev.Valid() && 0 < dev.Capacity() <= 255
    ensures Replayed(dev.Capacity(), old(Serial(dev.Now(), PositionsOf(files))), calls, answers, trace,
                     Serial(dev.Now(), PositionsOf(files)))
    ensures old(Intact(dev.Now())) ==>
              Leaks(dev.Capacity(), old(Serial(dev.Now(), PositionsOf(files))), trace, old(dev.leaked), dev.leaked)
  {
    answers, trace := [], [];
    ghost var start := Serial(dev.Now(), PositionsOf(files));
    var i := 0;
    while i < |calls|
      invariant 0 <= i <= |calls| && dev.Valid() && 0 < dev.Capacity() <= 255
      invariant dev.PendingKnown()
      invariant Replayed(dev.Capacity(), start, calls[..i], answers, trace, Serial(dev.Now(), PositionsOf(files)))
      invariant Intact(start.store) ==> Leaks(dev.Capacity(), start, trace, old(dev.leaked), dev.leaked)
    {
      var c := calls[i];
      var answer;
      answer, trace := ReplayOne(dev, files, c, start, calls[..i], answers, trace, old(dev.leaked));
      answers := answers + [answer];
      assert calls[..i + 1] == calls[..i] + [c];
      i := i + 1;
    }
    assert calls[..i] == calls;
  }

  method ReplayOne(dev: Device, files: seq<OpenFile>, c: Call, ghost start: Serial, ghost calls: seq<Call>,
                   ghost answers: seq<Answer>, ghost trace: seq<Event>, ghost before: set<array?<Byte>>)
    returns (answer: Answer, ghost longer: seq<Event>)
    requires dev.Valid() && 0 < dev.Capacity() <= 255 && Separate(files)
    requires c.who < |files| == |start.positions| && Proper(c.op)
    requires Settled(start.store.log)
    requires Replayed(dev.Capacity(), start, calls, answers, trace, Serial(dev.Now(), PositionsOf(files)))
    requires Intact(start.store) ==> Leaks(dev.Capacity(), start, trace, before, dev.leaked)
    modifies files[c.who], dev, dev.heap, dev.circleBuff, dev.circleBuff.entry, {dev.circleBuffEntry.buffptr} - {null}
    ensures dev.Valid() && dev.PendingKnown()
    ensures Replayed(dev.Capacity(), start, calls + [c], answers + [answer], longer, Serial(dev.Now(), PositionsOf(files)))
    ensures Intact(start.store) ==> Leaks(dev.Capacity(), start, longer, before, dev.leaked)
  {
    ghost var positions, end := PositionsOf(files), Serial(dev.Now(), PositionsOf(files));
    ghost var lead;
    answer, lead := Make(dev, files[c.who], c.op);
    assert PositionsOf(files) == positions[c.who := answer.pos];
    ghost var e := Event(c.who, c.op, lead, answer);
    longer := trace + [e];
    ReplayedOn(dev.Capacity(), start, calls, answers, trace, end, e);
    if Intact(start.store) {
      LeaksOn(dev.Capacity(), start, trace, e, before, old(dev.leaked), dev.leaked);
    }
  }

  /** Threads running side by side do to a device what one program does that makes their calls in
      the order in which they finished: same answers, same contents, same positions. */
  method Reenact(n: Slots, ghost run: seq<Sys>, ghost i: nat, files: seq<OpenFile>, calls: seq<Call>)
    returns (dev: Device, answers: seq<Answer>)
    requires Execution(n, run) && i < |run| && run[i].lock.None? && |files| == |run[0].clients|
    requires InRange(run[i].trace, |files|) && Kept(n, StartOf(run[0]), run[i].trace)
    requires Separate(files) && PositionsOf(files) == Positions(run[0].clients)
    requires Makes(calls, run[i].trace) && forall j :: 0 <= j < |calls| ==> Proper(calls[j].op)
    modifies files
    ensures fresh(dev) && dev.Valid() && dev.Capacity() == n
    ensures Matches(calls, answers, run[i].trace)
    ensures dev.Now() == run[i].store && PositionsOf(files) == Positions(run[i].clients)
  {
    dev := new Device(n);
    ghost var trace;
    Linearizable(n, run, i);
    answers, trace := ReplayOnDevice(dev, files, calls);
    CallsDetermine(n, StartOf(run[0]), run[i].trace, trace);
  }
}
