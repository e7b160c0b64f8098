/** Whole lives of a device: made, used by any number of programs, read back, torn down. */
module DriverRuns {
  import opened Machine
  import opened Sequences
  import opened CommandLog
  import opened Calls
  import opened Driver
  import opened Client
  import opened SerialRuns
  import opened DriverReplay

  /** A device nobody has used yet, opened once. */
  const UNUSED := Serial(FRESH, [0])

  /** Writes through that one open file. */
  function Writes(writes: seq<(seq<Byte>, Kernel)>): (calls: seq<Call>)
    ensures |calls| == |writes| && From(calls, 1)
  {
    seq(|writes|, i requires 0 <= i < |writes| => Call(0, WriteOp(writes[i].0, writes[i].1)))
  }

  // ----- when a run leaks

  /** Leaking run: a write that copies nothing in, then another. */
  lemma {:induction false} IdleBlockLeaks(n: Slots)
    ensures !Careful(n, UNUSED, TraceOf(n, UNUSED, Writes([("a", SMOOTH.(uncopied := 1)), ("a", SMOOTH)])))
  {
    var calls := Writes([("a", SMOOTH.(uncopied := 1)), ("a", SMOOTH)]);
    FirstOfTwo(n, calls);
    var trace := TraceOf(n, UNUSED, calls);
    assert Replay(n, UNUSED, trace[..1]).store == Store(Log([], []), true);
    assert DropsAt(n, UNUSED, trace, 1);
  }

  /** Leaking run: pending bytes, then no memory for more. */
  lemma {:induction false} FailedReallocLeaks(n: Slots)
    ensures !Kept(n, UNUSED, TraceOf(n, UNUSED, Writes([("a", SMOOTH), ("a", SMOOTH.(allocOk := false))])))
  {
    var calls := Writes([("a", SMOOTH), ("a", SMOOTH.(allocOk := false))]);
    FirstOfTwo(n, calls);
    var trace := TraceOf(n, UNUSED, calls);
    assert Replay(n, UNUSED, trace[..1]).store == Store(Log([], "a"), true);
    assert LosesAt(n, UNUSED, trace, 1);
  }

  lemma {:induction false} FirstOfTwo(n: Slots, calls: seq<Call>)
    requires |calls| == 2 && From(calls, 1)
    ensures var trace, first := TraceOf(n, UNUSED, calls), EventOf(n, UNUSED, calls[0]);
            && trace[0] == first && trace[1].op == calls[1].op
            && Replay(n, UNUSED, trace[..1]) == After(n, UNUSED, first)
  {
    var trace := TraceOf(n, UNUSED, calls);
    var one := calls[..1];
    assert one[..0] == [] && one[0] == calls[0];
    var init := TraceOf(n, UNUSED, one);
    assert init == [] + [EventOf(n, Replay(n, UNUSED, []), calls[0])];
    assert trace == init + [EventOf(n, Replay(n, UNUSED, init), calls[1])];
    assert trace[..1] == init && init[..0] == [];
  }

  /** Refusals alone leak nothing: interrupted calls, and kmalloc failing on a new device. */
  lemma {:induction false} RefusalsLeakNothing(n: Slots, start: Serial, trace: seq<Event>)
    requires InRange(trace, |start.positions|) && start.store == FRESH && Explained(n, start, trace)
    requires forall i :: 0 <= i < |trace| ==> trace[i].op.k.interrupted || !trace[i].op.k.allocOk
    ensures Careful(n, start, trace) && Replay(n, start, trace).store == FRESH
    decreases |trace|
  {
    if trace != [] {
      var init := trace[..|trace| - 1];
      ExplainedInit(n, start, trace);
      RefusalsLeakNothing(n, start, init);
      KeptLast(n, start, trace);
      TidiedLast(n, start, trace);
    }
  }

  /** After any run from a new device that lost nothing, the request for command `n` succeeds,
      wrongly, exactly when unterminated bytes or an idle block are left. */
  lemma {:induction false} SeekPastTheSlotsAfter(n: Slots, start: Serial, trace: seq<Event>, pos: Loff, offset: nat,
                                                 address: nat, k: Kernel)
    requires InRange(trace, |start.positions|) && start.store == FRESH
    requires Explained(n, start, trace) && Kept(n, start, trace)
    requires BlockAddress(address) && offset < TWO_32
    ensures AnswerTo(n, Replay(n, start, trace).store, pos, SeekToOp(n, offset, address, k)).r == Done(0) <==>
            && !k.interrupted
            && (AppendAll(EMPTY, Bodies(trace)).pending != [] || exists i :: Idles(n, start, trace, i))
  {
    ReplayBodies(n, start, trace);
    IdleBecause(n, start, trace);
    PastTheSlots(n, Replay(n, start, trace).store, pos, offset, address, k);
  }

  // ----- on the device

  /** Any calls on any open files, refused ones included: what is left and what leaks follows
      from the calls alone. */
  method MakeAll(dev: Device, files: seq<OpenFile>, calls: seq<Call>)
    requires dev.Valid() && Intact(dev.Now()) && Separate(files)
    requires From(calls, |files|) && forall i :: 0 <= i < |calls| ==> Proper(calls[i].op)
    modifies files, dev, dev.heap, dev.circleBuff, dev.circleBuff.entry, {dev.circleBuffEntry.buffptr} - {null}
    ensures dev.Valid() && 0 < dev.Capacity() <= 255
    ensures Made(dev.Capacity(), old(Serial(dev.Now(), PositionsOf(files))), calls, Serial(dev.Now(), PositionsOf(files)),
                 old(dev.leaked), dev.leaked)
  {
    ghost var start := Serial(dev.Now(), PositionsOf(files));
    var answers;
    ghost var trace;
    answers, trace := ReplayOnDevice(dev, files, calls);
    MadeAs(dev.Capacity(), start, calls, trace);
  }

  /** From `start` these calls have led to `end`. */
  ghost predicate Made(n: Slots, start: Serial, calls: seq<Call>, end: Serial, before: set<array?<Byte>>, leaked: set<array?<Byte>>)
    requires From(calls, |start.positions|)
  {
    var trace := TraceOf(n, start, calls);
    && (Kept(n, start, trace) ==> end == Replay(n, start, trace))
    && Leaks(n, start, trace, before, leaked)
  }

  lemma {:induction false} MadeAs(n: Slots, start: Serial, calls: seq<Call>, trace: seq<Event>)
    requires Settled(start.store.log) && Intact(start.store) && From(calls, |start.positions|)
    requires InRange(trace, |start.positions|) && Explained(n, start, trace) && Makes(calls, trace)
    ensures Careful(n, start, trace) <==> Careful(n, start, TraceOf(n, start, calls))
    ensures Kept(n, start, TraceOf(n, start, calls)) ==> trace == TraceOf(n, start, calls)
  {
    TraceExplained(n, start, calls);
    CallsDetermine(n, start, TraceOf(n, start, calls), trace);
  }

  /** Then reads with any positive counts from any position: the bytes from there on of the
      concatenation of the last commands, and then nothing, with the position at the end. */
  method RunThenRead(dev: Device, files: seq<OpenFile>, calls: seq<Call>, filp: OpenFile,
                     start: nat, counts: nat -> nat, env: nat -> Kernel)
    returns (transcript: seq<Byte>)
    requires dev.Valid() && Intact(dev.Now()) && Separate(files) && filp !in files
    requires From(calls, |files|) && forall i :: 0 <= i < |calls| ==> Proper(calls[i].op)
    requires start < TWO_63 && (forall i :: counts(i) > 0) && forall i :: Clean(env(i))
    modifies filp, files, dev, dev.heap, dev.circleBuff, dev.circleBuff.entry, {dev.circleBuffEntry.buffptr} - {null}
    ensures dev.Valid() && 0 < dev.Capacity() <= 255
    ensures Made(dev.Capacity(), old(Serial(dev.Now(), PositionsOf(files))), calls, Serial(dev.Now(), PositionsOf(files)),
                 old(dev.leaked), dev.leaked)
    ensures transcript == Ahead(Visible(dev.log, dev.Capacity()), start)
    ensures filp.fPos == start + |transcript|
  {
    MakeAll(dev, files, calls);
    transcript := ReadFrom(dev, filp, start, counts, env);
  }

  method ReadFrom(dev: Device, filp: OpenFile, start: nat, counts: nat -> nat, env: nat -> Kernel)
    returns (transcript: seq<Byte>)
    requires dev.Valid()
    requires start < TWO_63 && (forall i :: counts(i) > 0) && forall i :: Clean(env(i))
    modifies filp
    ensures dev.Valid()
    ensures transcript == Ahead(Visible(dev.log, dev.Capacity()), start)
    ensures filp.fPos == start + |transcript|
  {
    filp.fPos := start;
    dev.SizesAreLengths();
    transcript := ReadToEnd(dev, filp, counts, env);
  }

  /** The driver's whole life against its simple description. Without a failed krealloc the
      file read is that of the last commands taken in; and tearing the device down leaves no
      block live exactly when, besides, no memory was asked for while an idle block was held. */
  method Lifetime(capacity: Slots, files: seq<OpenFile>, calls: seq<Call>, start: nat, counts: nat -> nat, env: nat -> Kernel)
    returns (transcript: seq<Byte>, ghost live: set<array?<Byte>>)
    requires Separate(files) && From(calls, |files|) && forall i :: 0 <= i < |calls| ==> Proper(calls[i].op)
    requires start < TWO_63 && (forall i :: counts(i) > 0) && forall i :: Clean(env(i))
    modifies files
    ensures Lived(capacity, Serial(FRESH, old(PositionsOf(files))), calls, start, transcript, live)
  {
    ghost var positions := PositionsOf(files);
    var dev := new Device(capacity);
    var filp := new OpenFile();
    assert PositionsOf(files) == positions;
    transcript := Use(dev, files, calls, filp, start, counts, env);
    dev.Cleanup();
    live := dev.heap.live;
  }

  /** Up to the teardown. */
  method Use(dev: Device, files: seq<OpenFile>, calls: seq<Call>, filp: OpenFile,
             start: nat, counts: nat -> nat, env: nat -> Kernel)
    returns (transcript: seq<Byte>)
    requires dev.Valid() && 0 < dev.Capacity() <= 255 && dev.Now() == FRESH && dev.leaked == {}
    requires Separate(files) && filp !in files
    requires From(calls, |files|) && forall i :: 0 <= i < |calls| ==> Proper(calls[i].op)
    requires start < TWO_63 && (forall i :: counts(i) > 0) && forall i :: Clean(env(i))
    modifies filp, files, dev, dev.heap, dev.circleBuff, dev.circleBuff.entry, {dev.circleBuffEntry.buffptr} - {null}
    ensures dev.Valid()
    ensures Lived(dev.Capacity(), Serial(FRESH, old(PositionsOf(files))), calls, start, transcript, dev.leaked)
  {
    ghost var unused := Serial(FRESH, PositionsOf(files));
    transcript := RunThenRead(dev, files, calls, filp, start, counts, env);
    LivedAs(dev.Capacity(), unused, calls, Serial(dev.Now(), PositionsOf(files)), dev.leaked, start, transcript);
  }

  /** These calls on a new device, then the file read from position `from` on, then the end. */
  ghost predicate Lived(n: Slots, unused: Serial, calls: seq<Call>, from: nat, transcript: seq<Byte>, live: set<array?<Byte>>)
    requires From(calls, |unused.positions|)
  {
    var trace := TraceOf(n, unused, calls);
    && (live == {} <==> Careful(n, unused, trace))
    && (Kept(n, unused, trace) ==>
          transcript == Ahead(Flatten(Recent(AppendAll(EMPTY, Bodies(trace)).committed, n)), from))
  }

  lemma {:induction false} LivedAs(n: Slots, unused: Serial, calls: seq<Call>, end: Serial, leaked: set<array?<Byte>>,
                                   from: nat, transcript: seq<Byte>)
    requires unused.store == FRESH && From(calls, |unused.positions|)
    requires Made(n, unused, calls, end, {}, leaked)
    requires transcript == Ahead(Visible(end.store.log, n), from)
    ensures Lived(n, unused, calls, from, transcript, leaked)
  {
    var trace := TraceOf(n, unused, calls);
    TraceExplained(n, unused, calls);
    if Kept(n, unused, trace) {
      ReplayBodies(n, unused, trace);
    }
  }
}
